/** The allowlist and the passwordless sign-in flow over the code store. */
module SignIn {
  import opened Options
  import opened Text
  import opened CodeLog
  import opened Codes

  type Role = string

  const ROLE_ADMIN: Role := "admin"
  const ROLE_USER: Role := "user"

  predicate ValidRole(r: Role) {
    r == ROLE_ADMIN || r == ROLE_USER
  }

  // ----- RECOGNIZED_USERS -----

  datatype ParseError =
    | MissingRole(entry: string)
    | BadAddress(rawEmail: string)
    | UnknownRole(address: string, role: string)

  datatype Parsed = Users(users: map<string, Role>) | Rejected(error: ParseError)

  datatype Entry = Blank | User(address: string, role: Role) | Malformed(error: ParseError)

  type Normalizer = string -> Option<string>

  /** What one comma-separated entry says. */
  function ReadEntry(raw: string, normalize: Normalizer): (e: Entry)
    ensures e.User? ==> ValidRole(e.role)
  {
    var entry := TrimSpace(raw);
    if entry == "" then Blank
    else
      match Cut(entry, ':')
      case None => Malformed(MissingRole(entry))
      case Some((rawEmail, rawRole)) =>
        match normalize(rawEmail)
        case None => Malformed(BadAddress(rawEmail))
        case Some(address) =>
          if ValidRole(TrimSpace(rawRole)) then User(address, TrimSpace(rawRole))
          else Malformed(UnknownRole(address, rawRole))
  }

  function EntriesOf(entries: seq<string>, normalize: Normalizer): (es: seq<Entry>)
    ensures |es| == |entries|
    ensures forall i | 0 <= i < |entries| :: es[i] == ReadEntry(entries[i], normalize)
  {
    seq(|entries|, i requires 0 <= i < |entries| => ReadEntry(entries[i], normalize))
  }

  function ReadEntries(raw: string, normalize: Normalizer): seq<Entry> {
    EntriesOf(Split(TrimSpace(raw), ','), normalize)
  }

  /** The entry at i is the last one for its address. */
  ghost predicate LastWord(es: seq<Entry>, i: nat)
    requires i < |es|
  {
    es[i].User? && forall k | i < k < |es| && es[k].User? :: es[k].address != es[i].address
  }

  /** The map says, for every address, what its last entry says, and nothing about any other address. */
  ghost predicate SaysLastWords(users: map<string, Role>, es: seq<Entry>) {
    && (forall i | 0 <= i < |es| && LastWord(es, i) :: es[i].address in users && users[es[i].address] == es[i].role)
    && (forall a | a in users :: exists i | 0 <= i < |es| :: es[i].User? && es[i].address == a)
  }

  /** Every configured role is one the token service will sign. */
  ghost predicate SoundAllowlist(users: map<string, Role>) {
    forall a | a in users :: ValidRole(users[a])
  }

  lemma ExtendLastWords(users: map<string, Role>, es: seq<Entry>, e: Entry)
    requires SaysLastWords(users, es)
    ensures SaysLastWords(if e.User? then users[e.address := e.role] else users, es + [e])
  {
    var after, longer := if e.User? then users[e.address := e.role] else users, es + [e];
    forall i | 0 <= i < |longer| && LastWord(longer, i)
      ensures longer[i].address in after && after[longer[i].address] == longer[i].role
    {
      if i < |es| {
        assert longer[|es|] == e;
        assert forall k | i < k < |es| :: longer[k] == es[k];
        assert LastWord(es, i);
      }
    }
    forall a | a in after
      ensures exists i | 0 <= i < |longer| :: longer[i].User? && longer[i].address == a
    {
      if e.User? && a == e.address {
        assert longer[|es|] == e;
      } else {
        var i :| 0 <= i < |es| && es[i].User? && es[i].address == a;
        assert longer[i] == es[i];
      }
    }
  }

  lemma NextWord(users: map<string, Role>, es: seq<Entry>, i: nat)
    requires i < |es| && SaysLastWords(users, es[..i])
    ensures SaysLastWords(if es[i].User? then users[es[i].address := es[i].role] else users, es[..i + 1])
  {
    ExtendLastWords(users, es[..i], es[i]);
    assert es[..i + 1] == es[..i] + [es[i]];
  }

  /** Accepted exactly when no entry is malformed, and then saying their last words with valid roles only; otherwise the
      first malformed entry is the error. */
  ghost predicate ParsedFrom(r: Parsed, es: seq<Entry>) {
    match r
    case Users(users) => (forall i | 0 <= i < |es| :: !es[i].Malformed?) && SaysLastWords(users, es)
        && SoundAllowlist(users)
    case Rejected(error) =>
      exists i | 0 <= i < |es| :: es[i] == Malformed(error) && forall k | 0 <= k < i :: !es[k].Malformed?
  }

  /** The first i entries are good, and the map says their last words with valid roles. */
  ghost predicate CollectedUpTo(users: map<string, Role>, es: seq<Entry>, i: nat)
    requires i <= |es|
  {
    (forall k | 0 <= k < i :: !es[k].Malformed?) && SaysLastWords(users, es[..i]) && SoundAllowlist(users)
  }

  lemma CollectNext(users: map<string, Role>, es: seq<Entry>, i: nat)
    requires i < |es| && CollectedUpTo(users, es, i) && !es[i].Malformed? && (es[i].User? ==> ValidRole(es[i].role))
    ensures CollectedUpTo(if es[i].User? then users[es[i].address := es[i].role] else users, es, i + 1)
  {
    NextWord(users, es, i);
  }

  lemma CollectedAll(users: map<string, Role>, es: seq<Entry>)
    requires CollectedUpTo(users, es, |es|)
    ensures ParsedFrom(Users(users), es)
  {
    assert es[..|es|] == es;
  }

  method ParseUsers(raw: string, normalize: Normalizer) returns (r: Parsed)
    ensures ParsedFrom(r, ReadEntries(raw, normalize))
  {
    var trimmed := TrimSpace(raw);
    if trimmed == "" {
      assert ReadEntries(raw, normalize) == [Blank];
      return Users(map[]);
    }
    r := CollectUsers(Split(trimmed, ','), normalize);
  }

  method CollectUsers(entries: seq<string>, normalize: Normalizer) returns (r: Parsed)
    ensures ParsedFrom(r, EntriesOf(entries, normalize))
  {
    ghost var es := EntriesOf(entries, normalize);
    var users: map<string, Role> := map[];
    for i := 0 to |entries|
      invariant CollectedUpTo(users, es, i)
    {
      var entry := ReadEntry(entries[i], normalize);
      if !entry.Malformed? {
        CollectNext(users, es, i);
      }
      match entry
      case Blank =>
      case Malformed(error) =>
        assert es[i] == Malformed(error);
        return Rejected(error);
      case User(address, role) =>
        users := users[address := role];
    }
    CollectedAll(users, es);
    r := Users(users);
  }

  // ----- the service -----

  datatype ServiceConfig = ServiceConfig(codeLength: int, codeTtl: int, maxAttempts: int, resendAfter: int,
                                         users: map<string, Role>)

  /** What the service takes from libraries: address normalisation and the keyed digest. */
  datatype Environment = Environment(normalize: Normalizer, mac: (string, string) -> Digest)

  datatype Call =
    | RequestCode(rawEmail: string, drawn: string, delivered: bool, now: int)
    | VerifyCode(rawEmail: string, code: string, now: int)

  datatype Reply =
    | InvalidEmail
    | Answered(email: string, expiresAt: int, resendAfter: int)
    | BadCodeLength
    | Refused(outcome: Outcome)
    | DeliveryFailed
    | SignedIn(email: string, role: Role)
    | TokenRefused

  function HashCode(env: Environment, address: string, code: string): Digest {
    env.mac(address, TrimSpace(code))
  }

  predicate Recognizes(cfg: ServiceConfig, address: string) {
    |cfg.users| == 0 || address in cfg.users
  }

  /** A missing map entry reads as the empty role, as in Go. */
  function RoleFor(cfg: ServiceConfig, address: string): Role {
    if |cfg.users| == 0 then ROLE_ADMIN else if address in cfg.users then cfg.users[address] else ""
  }

  function Requested(env: Environment, cfg: ServiceConfig, s: Store, rawEmail: string, drawn: string, delivered: bool,
                     now: int): (Store, Reply) {
    match env.normalize(rawEmail)
    case None => (s, InvalidEmail)
    case Some(address) =>
      var answer := Answered(address, now + cfg.codeTtl, cfg.resendAfter);
      if !Recognizes(cfg, address) then (s, answer)
      else if cfg.codeLength < 4 || cfg.codeLength > 12 then (s, BadCodeLength)
      else
        var (s', outcome) := IssueSwept(s, address, HashCode(env, address, drawn), now, cfg.codeTtl, cfg.resendAfter);
        if outcome != Accepted then (s', Refused(outcome))
        else if !delivered then (s', DeliveryFailed)
        else (s', answer)
  }

  function Verified(env: Environment, cfg: ServiceConfig, s: Store, rawEmail: string, code: string,
                    now: int): (Store, Reply) {
    match env.normalize(rawEmail)
    case None => (s, InvalidEmail)
    case Some(address) =>
      if TrimSpace(code) == "" then (s, Refused(InvalidCode))
      else
        var (s', outcome) := ConsumeCode(s, address, HashCode(env, address, TrimSpace(code)), now, cfg.maxAttempts);
        if outcome != Accepted then (s', Refused(outcome))
        else if address == "" || !ValidRole(RoleFor(cfg, address)) then (s', TokenRefused)
        else (s', SignedIn(address, RoleFor(cfg, address)))
  }

  function Serve(env: Environment, cfg: ServiceConfig, s: Store, call: Call): (Store, Reply) {
    match call
    case RequestCode(rawEmail, drawn, delivered, now) => Requested(env, cfg, s, rawEmail, drawn, delivered, now)
    case VerifyCode(rawEmail, code, now) => Verified(env, cfg, s, rawEmail, code, now)
  }

  function StoreAfterCalls(env: Environment, cfg: ServiceConfig, calls: seq<Call>, n: nat): Store
    requires n <= |calls|
  {
    if n == 0 then map[] else Serve(env, cfg, StoreAfterCalls(env, cfg, calls, n - 1), calls[n - 1]).0
  }

  function ReplyTo(env: Environment, cfg: ServiceConfig, calls: seq<Call>, n: nat): Reply
    requires n < |calls|
  {
    Serve(env, cfg, StoreAfterCalls(env, cfg, calls, n), calls[n]).1
  }

  /** The service object: one code store, driven by the two endpoints. */
  class Service {
    const env: Environment
    const cfg: ServiceConfig
    const codes: MemoryCodeStore

    constructor (env: Environment, cfg: ServiceConfig, codes: MemoryCodeStore)
      ensures this.env == env && this.cfg == cfg && this.codes == codes
    {
      this.env, this.cfg, this.codes := env, cfg, codes;
    }

    method RequestCode(rawEmail: string, drawn: string, delivered: bool, now: int) returns (reply: Reply)
      requires codes.Valid()
      modifies codes
      ensures codes.Valid() && codes.OnlyOwnRecords()
      ensures codes.View() == Requested(env, cfg, old(codes.View()), rawEmail, drawn, delivered, now).0
      ensures reply == Requested(env, cfg, old(codes.View()), rawEmail, drawn, delivered, now).1
    {
      var normalized := env.normalize(rawEmail);
      if normalized.None? {
        return InvalidEmail;
      }
      var address := normalized.value;
      reply := Answered(address, now + cfg.codeTtl, cfg.resendAfter);
      if !Recognizes(cfg, address) {
        return;
      }
      if cfg.codeLength < 4 || cfg.codeLength > 12 {
        return BadCodeLength;
      }
      var outcome := codes.Issue(address, HashCode(env, address, drawn), now, cfg.codeTtl, cfg.resendAfter);
      if outcome != Accepted {
        return Refused(outcome);
      }
      if !delivered {
        return DeliveryFailed;
      }
    }

    method VerifyCode(rawEmail: string, code: string, now: int) returns (reply: Reply)
      requires codes.Valid()
      modifies codes, codes.records.Values
      ensures codes.Valid() && codes.OnlyOwnRecords()
      ensures codes.View() == Verified(env, cfg, old(codes.View()), rawEmail, code, now).0
      ensures reply == Verified(env, cfg, old(codes.View()), rawEmail, code, now).1
    {
      var normalized := env.normalize(rawEmail);
      if normalized.None? {
        return InvalidEmail;
      }
      var address := normalized.value;
      var trimmed := TrimSpace(code);
      if trimmed == "" {
        return Refused(InvalidCode);
      }
      var outcome := codes.Consume(address, HashCode(env, address, trimmed), now, cfg.maxAttempts);
      if outcome != Accepted {
        return Refused(outcome);
      }
      var role := RoleFor(cfg, address);
      if address == "" || !ValidRole(role) {
        return TokenRefused;
      }
      reply := SignedIn(address, role);
    }
  }

  // ----- what a sign-in means -----

  ghost predicate NormalizesToNonEmpty(env: Environment) {
    forall raw :: env.normalize(raw).Some? ==> env.normalize(raw).value != ""
  }

  ghost predicate InjectiveMac(env: Environment) {
    forall a, b, c, d :: env.mac(a, b) == env.mac(c, d) ==> a == c && b == d
  }

  /** `call` asked for a code for `key`, which is allowed to sign in, and left `r` behind. */
  predicate MailedRecord(env: Environment, cfg: ServiceConfig, call: Call, key: string, r: Record) {
    && call.RequestCode? && env.normalize(call.rawEmail) == Some(key) && Recognizes(cfg, key)
    && r.hash == HashCode(env, key, call.drawn) && r.issuedAt == call.now && r.expiresAt == call.now + cfg.codeTtl
  }

  ghost predicate Mailed(env: Environment, cfg: ServiceConfig, calls: seq<Call>, n: nat, key: string, r: Record)
    requires n <= |calls|
  {
    exists j | 0 <= j < n :: MailedRecord(env, cfg, calls[j], key, r)
  }

  /** Every stored record, at any point of any run, was left by an earlier request of a recognized address. */
  lemma {:induction false} RecordsComeFromRequests(env: Environment, cfg: ServiceConfig, calls: seq<Call>, n: nat,
                                                   key: string)
    requires n <= |calls|
    requires key in StoreAfterCalls(env, cfg, calls, n)
    ensures Mailed(env, cfg, calls, n, key, StoreAfterCalls(env, cfg, calls, n)[key])
  {
    var before, s := StoreAfterCalls(env, cfg, calls, n - 1), StoreAfterCalls(env, cfg, calls, n);
    if !MailedRecord(env, cfg, calls[n - 1], key, s[key]) {
      OtherRecordsSurvive(env, cfg, before, calls[n - 1], key);
      RecordsComeFromRequests(env, cfg, calls, n - 1, key);
      var j :| 0 <= j < n - 1 && MailedRecord(env, cfg, calls[j], key, before[key]);
      assert MailedRecord(env, cfg, calls[j], key, s[key]);
    }
  }

  /** One call leaves every record as it was, but for its guess counter, unless it mailed a new one. */
  lemma OtherRecordsSurvive(env: Environment, cfg: ServiceConfig, s: Store, call: Call, key: string)
    requires key in Serve(env, cfg, s, call).0
    requires !MailedRecord(env, cfg, call, key, Serve(env, cfg, s, call).0[key])
    ensures key in s
    ensures Serve(env, cfg, s, call).0[key].(attempts := s[key].attempts) == s[key]
  {
  }

  /** Role soundness over whole runs: a token is never refused, and a sign-in carries the role the
      allowlist gives that very address (admin when there is no allowlist). */
  lemma RolesAreConfigured(env: Environment, cfg: ServiceConfig, calls: seq<Call>, n: nat)
    requires n < |calls| && SoundAllowlist(cfg.users) && NormalizesToNonEmpty(env)
    ensures !ReplyTo(env, cfg, calls, n).TokenRefused?
    ensures var reply := ReplyTo(env, cfg, calls, n);
            reply.SignedIn? ==>
              && ValidRole(reply.role)
              && (if cfg.users == map[] then reply.role == ROLE_ADMIN
                  else reply.email in cfg.users && reply.role == cfg.users[reply.email])
  {
    var s, call := StoreAfterCalls(env, cfg, calls, n), calls[n];
    if call.VerifyCode? && env.normalize(call.rawEmail).Some? && env.normalize(call.rawEmail).value in s {
      RecordsComeFromRequests(env, cfg, calls, n, env.normalize(call.rawEmail).value);
    }
  }

  /** A sign-in proves possession of a code: the same address asked for it earlier, it has not expired,
      and what was typed is what was mailed, up to outer white space. */
  lemma SignInProvesPossession(env: Environment, cfg: ServiceConfig, calls: seq<Call>, n: nat) returns (j: nat)
    requires n < |calls| && InjectiveMac(env)
    requires ReplyTo(env, cfg, calls, n).SignedIn?
    ensures j < n && calls[j].RequestCode? && calls[n].VerifyCode?
    ensures env.normalize(calls[j].rawEmail) == env.normalize(calls[n].rawEmail)
            == Some(ReplyTo(env, cfg, calls, n).email)
    ensures calls[n].now <= calls[j].now + cfg.codeTtl
    ensures TrimSpace(calls[n].code) == TrimSpace(calls[j].drawn)
  {
    TrimIsIdempotent(calls[n].code);
    var s := StoreAfterCalls(env, cfg, calls, n);
    var key := ReplyTo(env, cfg, calls, n).email;
    RecordsComeFromRequests(env, cfg, calls, n, key);
    j :| 0 <= j < n && MailedRecord(env, cfg, calls[j], key, s[key]);
  }

  // ----- the service's runs are store runs -----

  /** The store call an endpoint call makes, if it gets that far. */
  function StoreCall(env: Environment, cfg: ServiceConfig, call: Call): Option<Op> {
    match env.normalize(call.rawEmail)
    case None => None
    case Some(address) =>
      match call
      case RequestCode(_, drawn, _, now) =>
        if Recognizes(cfg, address) && 4 <= cfg.codeLength <= 12
        then Some(Issue(address, HashCode(env, address, drawn), now)) else None
      case VerifyCode(_, code, now) =>
        if TrimSpace(code) != "" then Some(Consume(address, HashCode(env, address, TrimSpace(code)), now)) else None
  }

  function StorePolicy(cfg: ServiceConfig): Policy {
    Policy(cfg.codeTtl, cfg.resendAfter, cfg.maxAttempts)
  }

  lemma ServeStepsTheStore(env: Environment, cfg: ServiceConfig, s: Store, call: Call)
    ensures Serve(env, cfg, s, call).0 ==
            match StoreCall(env, cfg, call)
            case None => s
            case Some(op) => Step(s, op, StorePolicy(cfg), true).0
  {
  }

  function StoreCalls(env: Environment, cfg: ServiceConfig, calls: seq<Call>, n: nat): seq<Op>
    requires n <= |calls|
  {
    if n == 0 then []
    else
      match StoreCall(env, cfg, calls[n - 1])
      case None => StoreCalls(env, cfg, calls, n - 1)
      case Some(op) => StoreCalls(env, cfg, calls, n - 1) + [op]
  }

  /** Every run of the service leaves the store that the run of its store calls leaves. */
  lemma {:induction false} ServiceRunsTheStore(env: Environment, cfg: ServiceConfig, calls: seq<Call>, n: nat)
    requires n <= |calls|
    ensures var ops := StoreCalls(env, cfg, calls, n);
            StoreAfterCalls(env, cfg, calls, n)
            == StoreAfter(ops, |ops|, StorePolicy(cfg), true)
  {
    if n > 0 {
      ServiceRunsTheStore(env, cfg, calls, n - 1);
      var ops := StoreCalls(env, cfg, calls, n - 1);
      ServeStepsTheStore(env, cfg, StoreAfterCalls(env, cfg, calls, n - 1), calls[n - 1]);
      match StoreCall(env, cfg, calls[n - 1])
      case None =>
      case Some(op) => StoreAfterReadsPrefix(ops + [op], ops, |ops|, StorePolicy(cfg), true);
    }
  }

  /** Whatever the store held, a code that was just stored signs in, and the same code straight after does not.
      It is stored even when its delivery failed. */
  lemma StoredCodeSignsInOnce(env: Environment, cfg: ServiceConfig, s: Store, request: Call, verify: Call)
    requires SoundAllowlist(cfg.users) && NormalizesToNonEmpty(env)
    requires request.RequestCode? && verify.VerifyCode?
    requires env.normalize(request.rawEmail).Some? && Recognizes(cfg, env.normalize(request.rawEmail).value)
    requires Serve(env, cfg, s, request).1.Answered? || Serve(env, cfg, s, request).1.DeliveryFailed?
    requires env.normalize(verify.rawEmail) == env.normalize(request.rawEmail)
    requires TrimSpace(verify.code) == request.drawn != "" && TrimSpace(request.drawn) == request.drawn
    requires verify.now <= request.now + cfg.codeTtl
    ensures var (s1, _) := Serve(env, cfg, s, request);
            var (s2, reply) := Serve(env, cfg, s1, verify);
            var address := env.normalize(request.rawEmail).value;
            && reply == SignedIn(address, RoleFor(cfg, address))
            && Serve(env, cfg, s2, verify) == (s2, Refused(InvalidCode))
  {
  }

  /** A failed delivery still starts the resend interval: asking again is refused exactly while the interval and the
      lifetime of the undelivered code both run. */
  lemma FailedDeliveryHoldsBackRetry(env: Environment, cfg: ServiceConfig, s: Store, request: Call, retry: Call)
    requires request.RequestCode? && retry.RequestCode?
    requires env.normalize(retry.rawEmail) == env.normalize(request.rawEmail)
    requires Serve(env, cfg, s, request).1.DeliveryFailed?
    ensures Serve(env, cfg, Serve(env, cfg, s, request).0, retry).1 == Refused(TooSoon)
            <==> Blocking(request.now, retry.now, StorePolicy(cfg))
  {
    var s1 := Serve(env, cfg, s, request).0;
    var key := env.normalize(request.rawEmail).value;
    assert key in s1 && s1[key].issuedAt == request.now;
    assert key in Purged(s1, retry.now) <==> retry.now <= request.now + cfg.codeTtl;
  }
}
