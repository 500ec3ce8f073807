/** One-time sign-in codes on values: the store's two operations as functions, a run of them,
    and a description of every outcome that mentions only the log of calls, never the store. */
module CodeLog {
  import opened Options

  type Digest = seq<bv8>

  datatype Outcome = Accepted | InvalidCode | TooManyAttempts | TooSoon

  datatype Record = Record(hash: Digest, issuedAt: int, expiresAt: int, attempts: nat)

  type Store = map<string, Record>

  datatype Op =
    | Issue(key: string, hash: Digest, now: int)
    | Consume(key: string, hash: Digest, now: int)

  /** Durations are whole nanoseconds, as in Go. */
  datatype Policy = Policy(ttl: int, resendAfter: int, maxAttempts: int)

  function Purged(s: Store, now: int): Store {
    map k | k in s && now <= s[k].expiresAt :: s[k]
  }

  function IssueUnswept(s: Store, key: string, hash: Digest, now: int, ttl: int, resendAfter: int): (Store, Outcome) {
    if key in s && now - s[key].issuedAt < resendAfter then (s, TooSoon)
    else (s[key := Record(hash, now, now + ttl, 0)], Accepted)
  }

  function IssueSwept(s: Store, key: string, hash: Digest, now: int, ttl: int, resendAfter: int): (Store, Outcome) {
    IssueUnswept(Purged(s, now), key, hash, now, ttl, resendAfter)
  }

  function ConsumeCode(s: Store, key: string, hash: Digest, now: int, maxAttempts: int): (Store, Outcome) {
    if key !in s then (s, InvalidCode)
    else if now > s[key].expiresAt then (s - {key}, InvalidCode)
    else if s[key].hash != hash then
      var attempts := s[key].attempts + 1;
      if attempts >= maxAttempts then (s - {key}, TooManyAttempts)
      else (s[key := s[key].(attempts := attempts)], InvalidCode)
    else (s - {key}, Accepted)
  }

  /** `sweep` tells the real store, which drops expired records on every issue, from one that never does. */
  function Step(s: Store, op: Op, p: Policy, sweep: bool): (Store, Outcome) {
    match op
    case Issue(key, hash, now) =>
      if sweep then IssueSwept(s, key, hash, now, p.ttl, p.resendAfter)
      else IssueUnswept(s, key, hash, now, p.ttl, p.resendAfter)
    case Consume(key, hash, now) => ConsumeCode(s, key, hash, now, p.maxAttempts)
  }

  /** The store after the first n calls, starting empty. */
  function StoreAfter(ops: seq<Op>, n: nat, p: Policy, sweep: bool): Store
    requires n <= |ops|
  {
    if n == 0 then map[] else Step(StoreAfter(ops, n - 1, p, sweep), ops[n - 1], p, sweep).0
  }

  lemma {:induction false} StoreAfterReadsPrefix(a: seq<Op>, b: seq<Op>, n: nat, p: Policy, sweep: bool)
    requires n <= |a| && n <= |b| && forall i | 0 <= i < n :: a[i] == b[i]
    ensures StoreAfter(a, n, p, sweep) == StoreAfter(b, n, p, sweep)
  {
    if n > 0 {
      StoreAfterReadsPrefix(a, b, n - 1, p, sweep);
    }
  }

  function Outcomes(ops: seq<Op>, p: Policy, sweep: bool): (outs: seq<Outcome>)
    ensures |outs| == |ops|
  {
    seq(|ops|, i requires 0 <= i < |ops| => Step(StoreAfter(ops, i, p, sweep), ops[i], p, sweep).1)
  }

  ghost predicate NonDecreasingClock(ops: seq<Op>) {
    forall i, j :: 0 <= i <= j < |ops| ==> ops[i].now <= ops[j].now
  }

  // ----- the log's own vocabulary -----

  predicate Opens(op: Op, out: Outcome, key: string) {
    op.Issue? && op.key == key && out == Accepted
  }

  /** A redemption or a lockout ends the life of the code issued last. */
  predicate Closes(op: Op, out: Outcome, key: string) {
    op.Consume? && op.key == key && (out == Accepted || out == TooManyAttempts)
  }

  /** The call that issued the code still outstanding for `key` after the first n calls. */
  function Outstanding(ops: seq<Op>, outs: seq<Outcome>, key: string, n: nat): (r: Option<nat>)
    requires n <= |ops| && |outs| == |ops|
    ensures r.Some? ==> r.value < n && Opens(ops[r.value], outs[r.value], key)
    ensures r.Some? ==> forall i :: r.value < i < n ==> !Opens(ops[i], outs[i], key) && !Closes(ops[i], outs[i], key)
  {
    if n == 0 then None
    else if Opens(ops[n - 1], outs[n - 1], key) then Some(n - 1)
    else if Closes(ops[n - 1], outs[n - 1], key) then None
    else Outstanding(ops, outs, key, n - 1)
  }

  predicate WrongGuess(ops: seq<Op>, j: nat, i: nat, ttl: int)
    requires j < |ops| && i < |ops|
  {
    ops[i].Consume? && ops[i].key == ops[j].key && ops[i].hash != ops[j].hash && ops[i].now <= ops[j].now + ttl
  }

  /** Wrong guesses, in time, between the issue at j and call n. */
  function WrongGuesses(ops: seq<Op>, j: nat, n: nat, ttl: int): nat
    requires j < n <= |ops|
  {
    if n == j + 1 then 0
    else WrongGuesses(ops, j, n - 1, ttl) + (if WrongGuess(ops, j, n - 1, ttl) then 1 else 0)
  }

  /** The code issued at `issuedAt` holds back a new one: the resend interval and its lifetime are both running. */
  predicate Blocking(issuedAt: int, now: int, p: Policy) {
    now - issuedAt < p.resendAfter && now <= issuedAt + p.ttl
  }

  /** What call i must answer, read off the log before it. */
  function LogOutcome(ops: seq<Op>, outs: seq<Outcome>, i: nat, p: Policy): Outcome
    requires i < |ops| == |outs|
  {
    var live := Outstanding(ops, outs, ops[i].key, i);
    if ops[i].Issue? then
      if live.Some? && Blocking(ops[live.value].now, ops[i].now, p) then TooSoon else Accepted
    else if live.None? || ops[i].now > ops[live.value].now + p.ttl then InvalidCode
    else if ops[i].hash == ops[live.value].hash then Accepted
    else if WrongGuesses(ops, live.value, i, p.ttl) + 1 >= p.maxAttempts then TooManyAttempts
    else InvalidCode
  }

  // ----- the store represents the log -----

  ghost predicate RepresentsKey(s: Store, ops: seq<Op>, outs: seq<Outcome>, n: nat, p: Policy, key: string)
    requires n <= |ops| && |outs| == |ops|
  {
    var live := Outstanding(ops, outs, key, n);
    if key in s then
      && live.Some?
      && s[key] == Record(ops[live.value].hash, ops[live.value].now, ops[live.value].now + p.ttl,
                          WrongGuesses(ops, live.value, n, p.ttl))
      && (s[key].attempts == 0 || s[key].attempts < p.maxAttempts)
    else
      live.Some? ==> ops[n - 1].now > ops[live.value].now + p.ttl
  }

  lemma QuietKeyStaysRepresented(s: Store, ops: seq<Op>, outs: seq<Outcome>, n: nat, p: Policy, sweep: bool,
                                 key: string)
    requires n < |ops| && |outs| == |ops| && ops[n].key != key
    requires n > 0 ==> ops[n - 1].now <= ops[n].now
    requires RepresentsKey(s, ops, outs, n, p, key)
    ensures RepresentsKey(Step(s, ops[n], p, sweep).0, ops, outs, n + 1, p, key)
  {
    var live := Outstanding(ops, outs, key, n);
    assert Outstanding(ops, outs, key, n + 1) == live;
    if live.Some? {
      assert WrongGuesses(ops, live.value, n + 1, p.ttl) == WrongGuesses(ops, live.value, n, p.ttl);
    }
  }

  lemma IssuedKeyIsRepresented(s: Store, ops: seq<Op>, outs: seq<Outcome>, n: nat, p: Policy, sweep: bool)
    requires n < |ops| && |outs| == |ops| && ops[n].Issue?
    requires n > 0 ==> ops[n - 1].now <= ops[n].now
    requires RepresentsKey(s, ops, outs, n, p, ops[n].key)
    requires outs[n] == Step(s, ops[n], p, sweep).1
    ensures RepresentsKey(Step(s, ops[n], p, sweep).0, ops, outs, n + 1, p, ops[n].key)
  {
    var key := ops[n].key;
    if outs[n] == Accepted {
      assert Outstanding(ops, outs, key, n + 1) == Some(n);
    } else {
      assert Outstanding(ops, outs, key, n + 1) == Outstanding(ops, outs, key, n);
    }
  }

  lemma ConsumedKeyIsRepresented(s: Store, ops: seq<Op>, outs: seq<Outcome>, n: nat, p: Policy, sweep: bool)
    requires n < |ops| && |outs| == |ops| && ops[n].Consume?
    requires n > 0 ==> ops[n - 1].now <= ops[n].now
    requires RepresentsKey(s, ops, outs, n, p, ops[n].key)
    requires outs[n] == Step(s, ops[n], p, sweep).1
    ensures RepresentsKey(Step(s, ops[n], p, sweep).0, ops, outs, n + 1, p, ops[n].key)
  {
    var key := ops[n].key;
    var live := Outstanding(ops, outs, key, n);
    if outs[n] == InvalidCode {
      assert Outstanding(ops, outs, key, n + 1) == live;
      if key in s {
        assert WrongGuess(ops, live.value, n, p.ttl) <==> ops[n].now <= s[key].expiresAt;
      }
    }
  }

  /** Holds for every policy and for both stores, whatever the resend interval. */
  lemma {:induction false} StoreRepresentsLog(ops: seq<Op>, n: nat, p: Policy, sweep: bool, key: string)
    requires n <= |ops| && NonDecreasingClock(ops)
    ensures RepresentsKey(StoreAfter(ops, n, p, sweep), ops, Outcomes(ops, p, sweep), n, p, key)
  {
    if n > 0 {
      var k := n - 1;
      StoreRepresentsLog(ops, k, p, sweep, key);
      assert k > 0 ==> ops[k - 1].now <= ops[k].now;
      var outs := Outcomes(ops, p, sweep);
      var before := StoreAfter(ops, k, p, sweep);
      assert outs[k] == Step(before, ops[k], p, sweep).1;
      if ops[k].key != key {
        QuietKeyStaysRepresented(before, ops, outs, k, p, sweep, key);
      } else if ops[k].Issue? {
        IssuedKeyIsRepresented(before, ops, outs, k, p, sweep);
      } else {
        ConsumedKeyIsRepresented(before, ops, outs, k, p, sweep);
      }
    }
  }

  function Max(a: int, b: int): int { if a < b then b else a }

  /** A resend interval that no sweep can cut short. */
  predicate ResendWithinLifetime(p: Policy) {
    p.resendAfter <= Max(0, p.ttl + 1)
  }

  /** The calls whose outcome the log determines: all of them in the sweeping store, and in the unswept one all but
      issues under a resend interval that outlasts the code. */
  predicate Determined(op: Op, p: Policy, sweep: bool) {
    sweep || op.Consume? || ResendWithinLifetime(p)
  }

  ghost predicate ExplainedByLog(ops: seq<Op>, outs: seq<Outcome>, p: Policy, sweep: bool) {
    && |outs| == |ops|
    && forall i {:trigger LogOutcome(ops, outs, i, p)} | 0 <= i < |ops| && Determined(ops[i], p, sweep) ::
         outs[i] == LogOutcome(ops, outs, i, p)
  }

  lemma OutcomeFromStore(s: Store, ops: seq<Op>, outs: seq<Outcome>, i: nat, p: Policy, sweep: bool)
    requires i < |ops| == |outs| && NonDecreasingClock(ops)
    requires Determined(ops[i], p, sweep)
    requires RepresentsKey(s, ops, outs, i, p, ops[i].key)
    ensures Step(s, ops[i], p, sweep).1 == LogOutcome(ops, outs, i, p)
  {
    var live := Outstanding(ops, outs, ops[i].key, i);
    if live.Some? {
      assert ops[live.value].now <= ops[i].now;
      assert ops[i - 1].now <= ops[i].now;
    }
  }

  /** Every outcome of the sweeping store is determined by the log alone, for every policy; so is every outcome of the
      unswept store, but for issues under a resend interval that outlasts the code. */
  lemma OutcomesExplained(ops: seq<Op>, p: Policy, sweep: bool)
    requires NonDecreasingClock(ops)
    ensures ExplainedByLog(ops, Outcomes(ops, p, sweep), p, sweep)
  {
    var outs := Outcomes(ops, p, sweep);
    forall i | 0 <= i < |ops| && Determined(ops[i], p, sweep)
      ensures outs[i] == LogOutcome(ops, outs, i, p)
    {
      StoreRepresentsLog(ops, i, p, sweep, ops[i].key);
      OutcomeFromStore(StoreAfter(ops, i, p, sweep), ops, outs, i, p, sweep);
    }
  }

  lemma {:induction false} OutstandingReadsPrefix(ops: seq<Op>, a: seq<Outcome>, b: seq<Outcome>, key: string, n: nat)
    requires n <= |ops| == |a| == |b|
    requires forall i | 0 <= i < n :: a[i] == b[i]
    ensures Outstanding(ops, a, key, n) == Outstanding(ops, b, key, n)
  {
    if n > 0 {
      OutstandingReadsPrefix(ops, a, b, key, n - 1);
    }
  }

  lemma {:induction false} LogDeterminesOutcomes(ops: seq<Op>, a: seq<Outcome>, b: seq<Outcome>, n: nat, p: Policy)
    requires n <= |ops| && ResendWithinLifetime(p)
    requires ExplainedByLog(ops, a, p, true) && ExplainedByLog(ops, b, p, false)
    ensures forall i | 0 <= i < n :: a[i] == b[i]
  {
    if n > 0 {
      var k := n - 1;
      LogDeterminesOutcomes(ops, a, b, k, p);
      OutstandingReadsPrefix(ops, a, b, ops[k].key, k);
      assert LogOutcome(ops, a, k, p) == LogOutcome(ops, b, k, p);
      assert a[k] == LogOutcome(ops, a, k, p) && b[k] == LogOutcome(ops, b, k, p);
    }
  }

  /** Sweeping can never be observed, whatever the calls, exactly when the resend interval
      does not outlast the code. */
  lemma PurgingIsInvisible(p: Policy)
    ensures (forall ops | NonDecreasingClock(ops) :: Outcomes(ops, p, true) == Outcomes(ops, p, false))
            <==> ResendWithinLifetime(p)
  {
    if ResendWithinLifetime(p) {
      forall ops | NonDecreasingClock(ops)
        ensures Outcomes(ops, p, true) == Outcomes(ops, p, false)
      {
        var a, b := Outcomes(ops, p, true), Outcomes(ops, p, false);
        OutcomesExplained(ops, p, true);
        OutcomesExplained(ops, p, false);
        LogDeterminesOutcomes(ops, a, b, |ops|, p);
      }
    } else {
      SweepLiftsCooldown(p);
    }
  }

  /** The failing family: a second issue just after expiry is let through by the sweep although
      the resend interval is still running. */
  lemma SweepLiftsCooldown(p: Policy)
    requires !ResendWithinLifetime(p)
    ensures var ops := [Issue("a", [], 0), Issue("a", [], Max(0, p.ttl + 1))];
            && NonDecreasingClock(ops)
            && Outcomes(ops, p, true) == [Accepted, Accepted]
            && Outcomes(ops, p, false) == [Accepted, TooSoon]
  {
    var later := Max(0, p.ttl + 1);
    var ops := [Issue("a", [], 0), Issue("a", [], later)];
    var first := map["a" := Record([], 0, p.ttl, 0)];
    forall sweep: bool
      ensures StoreAfter(ops, 1, p, sweep) == first && Outcomes(ops, p, sweep)[0] == Accepted
    {
      assert StoreAfter(ops, 0, p, sweep) == map[];
      assert Purged(map[], 0) == map[];
      assert Step(map[], ops[0], p, sweep) == (first, Accepted);
    }
    assert "a" !in Purged(first, later);
    assert Outcomes(ops, p, true)[1] == Step(first, ops[1], p, true).1 == Accepted;
    assert Outcomes(ops, p, false)[1] == Step(first, ops[1], p, false).1 == TooSoon;
  }

  // ----- the life of a code -----

  /** Every redemption spends one earlier issue of the same key and digest, in time, with no newer
      issue, redemption or lockout between them and fewer than `maxAttempts` wrong guesses. */
  lemma RedemptionSpendsAnIssue(ops: seq<Op>, i: nat, p: Policy) returns (j: nat)
    requires i < |ops| && NonDecreasingClock(ops)
    requires ops[i].Consume? && Outcomes(ops, p, true)[i] == Accepted
    ensures Outstanding(ops, Outcomes(ops, p, true), ops[i].key, i) == Some(j)
    ensures j < i && ops[j].Issue? && Outcomes(ops, p, true)[j] == Accepted
    ensures ops[j].key == ops[i].key && ops[j].hash == ops[i].hash
    ensures ops[i].now <= ops[j].now + p.ttl
    ensures WrongGuesses(ops, j, i, p.ttl) == 0 || WrongGuesses(ops, j, i, p.ttl) < p.maxAttempts
    ensures forall m :: j < m < i ==> !Opens(ops[m], Outcomes(ops, p, true)[m], ops[i].key)
    ensures forall m :: j < m < i ==> !Closes(ops[m], Outcomes(ops, p, true)[m], ops[i].key)
  {
    StoreRepresentsLog(ops, i, p, true, ops[i].key);
    j := Outstanding(ops, Outcomes(ops, p, true), ops[i].key, i).value;
  }

  /** Single use: two redemptions never spend the same issue. */
  lemma RedemptionsAreInjective(ops: seq<Op>, i: nat, k: nat, p: Policy)
    requires i < k < |ops| && NonDecreasingClock(ops)
    requires ops[i].Consume? && Outcomes(ops, p, true)[i] == Accepted
    requires ops[k].Consume? && Outcomes(ops, p, true)[k] == Accepted
    ensures var outs := Outcomes(ops, p, true);
            Outstanding(ops, outs, ops[i].key, i) != Outstanding(ops, outs, ops[k].key, k)
  {
    var j := RedemptionSpendsAnIssue(ops, i, p);
    var j' := RedemptionSpendsAnIssue(ops, k, p);
    if j == j' {
      assert Closes(ops[i], Outcomes(ops, p, true)[i], ops[k].key);
      assert false;
    }
  }

  lemma {:induction false} GuessesBelowLimitInLog(ops: seq<Op>, outs: seq<Outcome>, n: nat, p: Policy, key: string)
    requires n <= |ops| && p.maxAttempts >= 1 && NonDecreasingClock(ops) && ExplainedByLog(ops, outs, p, true)
    ensures var live := Outstanding(ops, outs, key, n);
            live.Some? ==> WrongGuesses(ops, live.value, n, p.ttl) < p.maxAttempts
  {
    var live := Outstanding(ops, outs, key, n);
    if live.Some? && live.value < n - 1 {
      GuessesBelowLimitInLog(ops, outs, n - 1, p, key);
      assert ops[n - 1].Consume? ==> outs[n - 1] == LogOutcome(ops, outs, n - 1, p);
    }
  }

  /** No code outstanding after any number of calls has absorbed `maxAttempts` wrong guesses. */
  lemma GuessesStayBelowLimit(ops: seq<Op>, n: nat, p: Policy, key: string)
    requires n <= |ops| && NonDecreasingClock(ops) && p.maxAttempts >= 1
    ensures var live := Outstanding(ops, Outcomes(ops, p, true), key, n);
            live.Some? ==> WrongGuesses(ops, live.value, n, p.ttl) < p.maxAttempts
  {
    OutcomesExplained(ops, p, true);
    GuessesBelowLimitInLog(ops, Outcomes(ops, p, true), n, p, key);
  }

  /** A lockout answers exactly the wrong guess that reaches the limit, and voids the code. */
  lemma LockoutIsTheLastGuess(ops: seq<Op>, i: nat, p: Policy)
    requires i < |ops| && NonDecreasingClock(ops) && p.maxAttempts >= 1
    requires ops[i].Consume?
    ensures var outs := Outcomes(ops, p, true);
            var live := Outstanding(ops, outs, ops[i].key, i);
            outs[i] == TooManyAttempts <==>
              && live.Some?
              && WrongGuess(ops, live.value, i, p.ttl)
              && WrongGuesses(ops, live.value, i, p.ttl) == p.maxAttempts - 1
    ensures var outs := Outcomes(ops, p, true);
            outs[i] == TooManyAttempts ==> Outstanding(ops, outs, ops[i].key, i + 1).None?
  {
    var outs := Outcomes(ops, p, true);
    OutcomesExplained(ops, p, true);
    GuessesBelowLimitInLog(ops, outs, i, p, ops[i].key);
    assert outs[i] == LogOutcome(ops, outs, i, p);
  }

  /** Two accepted issues of one key, closer than the resend interval and than the code's lifetime, have a redemption
      or a lockout between them. */
  lemma EarlyReissueNeedsClosure(ops: seq<Op>, i: nat, k: nat, p: Policy)
    requires i < k < |ops| && NonDecreasingClock(ops)
    requires ops[i].Issue? && ops[k].Issue? && ops[i].key == ops[k].key
    requires Outcomes(ops, p, true)[i] == Accepted && Outcomes(ops, p, true)[k] == Accepted
    requires Blocking(ops[i].now, ops[k].now, p)
    ensures exists m :: i < m < k && Closes(ops[m], Outcomes(ops, p, true)[m], ops[i].key)
  {
    var outs := Outcomes(ops, p, true);
    OutcomesExplained(ops, p, true);
    if forall m :: i < m < k ==> !Closes(ops[m], outs[m], ops[i].key) {
      OpenCodeBlocks(ops, outs, i, k, p);
    }
  }

  lemma OpenCodeBlocks(ops: seq<Op>, outs: seq<Outcome>, i: nat, k: nat, p: Policy)
    requires i < k < |ops| && NonDecreasingClock(ops) && ExplainedByLog(ops, outs, p, true)
    requires Opens(ops[i], outs[i], ops[i].key) && ops[k].Issue? && ops[k].key == ops[i].key
    requires Blocking(ops[i].now, ops[k].now, p)
    requires forall m :: i < m < k ==> !Closes(ops[m], outs[m], ops[i].key)
    ensures outs[k] == TooSoon
  {
    var j := OpenStaysOutstanding(ops, outs, i, k);
    assert outs[k] == LogOutcome(ops, outs, k, p);
  }

  lemma {:induction false} OpenStaysOutstanding(ops: seq<Op>, outs: seq<Outcome>, i: nat, n: nat) returns (j: nat)
    requires i < n <= |ops| == |outs| && NonDecreasingClock(ops)
    requires Opens(ops[i], outs[i], ops[i].key)
    requires forall m :: i < m < n ==> !Closes(ops[m], outs[m], ops[i].key)
    ensures i <= j < n && ops[i].now <= ops[j].now && Outstanding(ops, outs, ops[i].key, n) == Some(j)
  {
    if i == n - 1 || Opens(ops[n - 1], outs[n - 1], ops[i].key) {
      j := n - 1;
    } else {
      j := OpenStaysOutstanding(ops, outs, i, n - 1);
    }
  }
}
