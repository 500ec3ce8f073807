/** The in-memory code store: a map of records that the operations update in place, proved against
    the functions of CodeLog. Each method body is one critical section of the store's lock. */
module Codes {
  import opened CodeLog

  class CodeRecord {
    const hash: Digest
    const issuedAt: int
    const expiresAt: int
    var attempts: nat

    constructor (hash: Digest, issuedAt: int, expiresAt: int)
      ensures View() == Record(hash, issuedAt, expiresAt, 0)
    {
      this.hash, this.issuedAt, this.expiresAt := hash, issuedAt, expiresAt;
      this.attempts := 0;
    }

    ghost function View(): Record
      reads this
    {
      Record(hash, issuedAt, expiresAt, attempts)
    }
  }

  class MemoryCodeStore {
    var records: map<string, CodeRecord>

    /** No two keys share a record, so counting a guess for one key touches no other. */
    ghost predicate Valid()
      reads this
    {
      forall k, k' | k in records && k' in records && k != k' :: records[k] != records[k']
    }

    ghost function View(): Store
      reads this, records.Values
    {
      map k | k in records :: records[k].View()
    }

    /** The records a caller must frame: those already here and those made since. */
    twostate predicate OnlyOwnRecords()
      reads this
    {
      forall r | r in records.Values :: r in old(records.Values) || fresh(r)
    }

    constructor ()
      ensures Valid() && View() == map[] && fresh(records.Values)
    {
      records := map[];
    }

    method Issue(key: string, hash: Digest, now: int, ttl: int, resendAfter: int) returns (outcome: Outcome)
      requires Valid()
      modifies this
      ensures Valid() && OnlyOwnRecords()
      ensures View() == IssueSwept(old(View()), key, hash, now, ttl, resendAfter).0
      ensures outcome == IssueSwept(old(View()), key, hash, now, ttl, resendAfter).1
    {
      PurgeExpiredLocked(now);
      if key in records {
        if now - records[key].issuedAt < resendAfter {
          return TooSoon;
        }
      }
      ReplaceLocked(key, hash, now, now + ttl);
      outcome := Accepted;
    }

    method Consume(key: string, hash: Digest, now: int, maxAttempts: int) returns (outcome: Outcome)
      requires Valid()
      modifies this, records.Values
      ensures Valid() && OnlyOwnRecords()
      ensures View() == ConsumeCode(old(View()), key, hash, now, maxAttempts).0
      ensures outcome == ConsumeCode(old(View()), key, hash, now, maxAttempts).1
    {
      if key !in records {
        return InvalidCode;
      }
      var record := records[key];
      if now > record.expiresAt {
        records := records - {key};
        assert View() == old(View()) - {key};
        return InvalidCode;
      }
      if record.hash != hash {
        record.attempts := record.attempts + 1;
        if record.attempts >= maxAttempts {
          records := records - {key};
          assert View() == old(View()) - {key};
          return TooManyAttempts;
        }
        assert View() == old(View())[key := record.View()];
        return InvalidCode;
      }
      records := records - {key};
      assert View() == old(View()) - {key};
      outcome := Accepted;
    }

    /** The number of outstanding codes. */
    method Len() returns (n: nat)
      ensures n == |View()|
    {
      assert View().Keys == records.Keys;
      n := |records|;
    }

    method ReplaceLocked(key: string, hash: Digest, issuedAt: int, expiresAt: int)
      requires Valid()
      modifies this
      ensures Valid() && OnlyOwnRecords()
      ensures View() == old(View())[key := Record(hash, issuedAt, expiresAt, 0)]
    {
      var record := new CodeRecord(hash, issuedAt, expiresAt);
      records := records[key := record];
    }

    method PurgeExpiredLocked(now: int)
      requires Valid()
      modifies this
      ensures Valid() && records.Values <= old(records.Values)
      ensures View() == Purged(old(View()), now)
    {
      var pending := records.Keys;
      while pending != {}
        invariant Valid()
        invariant pending <= records.Keys <= old(records.Keys)
        invariant forall k | k in records :: records[k] == old(records[k])
        invariant forall k | k in old(records) && k !in pending :: k in records <==> now <= old(records[k]).expiresAt
        decreases pending
      {
        var key :| key in pending;
        if now > records[key].expiresAt {
          records := records - {key};
        }
        pending := pending - {key};
      }
    }
  }
}
