/** Whole runs of the sign-in service, in the service's own terms: every reply is determined by those before it. */
module SignInRuns {
  import opened Options
  import opened Text
  import opened CodeLog
  import opened SignIn

  // ----- replies are store outcomes -----

  function Trace(env: Environment, cfg: ServiceConfig, calls: seq<Call>): seq<Op> {
    StoreCalls(env, cfg, calls, |calls|)
  }

  /** The number of store calls that the first n calls make. */
  function Position(env: Environment, cfg: ServiceConfig, calls: seq<Call>, n: nat): nat
    requires n <= |calls|
  {
    |StoreCalls(env, cfg, calls, n)|
  }

  function TraceOutcomes(env: Environment, cfg: ServiceConfig, calls: seq<Call>): (outs: seq<Outcome>)
    ensures |outs| == |Trace(env, cfg, calls)|
  {
    Outcomes(Trace(env, cfg, calls), StorePolicy(cfg), true)
  }

  /** What an endpoint answers when its store call ends with `outcome`. */
  function ReplyFor(env: Environment, cfg: ServiceConfig, call: Call, outcome: Outcome): Reply
    requires StoreCall(env, cfg, call).Some?
  {
    var address := env.normalize(call.rawEmail).value;
    if outcome != Accepted then Refused(outcome)
    else
      match call
      case RequestCode(_, _, delivered, now) =>
        if delivered then Answered(address, now + cfg.codeTtl, cfg.resendAfter) else DeliveryFailed
      case VerifyCode(_, _, _) =>
        if address == "" || !ValidRole(RoleFor(cfg, address)) then TokenRefused
        else SignedIn(address, RoleFor(cfg, address))
  }

  lemma ServeAnswersTheOutcome(env: Environment, cfg: ServiceConfig, s: Store, call: Call)
    requires StoreCall(env, cfg, call).Some?
    ensures Serve(env, cfg, s, call).1
            == ReplyFor(env, cfg, call, Step(s, StoreCall(env, cfg, call).value, StorePolicy(cfg), true).1)
  {
  }

  lemma {:induction false} CallsExtend(env: Environment, cfg: ServiceConfig, calls: seq<Call>, n: nat, m: nat)
    requires n <= m <= |calls|
    ensures Position(env, cfg, calls, n) <= Position(env, cfg, calls, m)
    ensures forall i | 0 <= i < Position(env, cfg, calls, n) ::
              StoreCalls(env, cfg, calls, n)[i] == StoreCalls(env, cfg, calls, m)[i]
  {
    if n < m {
      CallsExtend(env, cfg, calls, n, m - 1);
    }
  }

  /** A call that reaches the store is the next operation of the trace. */
  lemma CallInTrace(env: Environment, cfg: ServiceConfig, calls: seq<Call>, n: nat)
    requires n < |calls| && StoreCall(env, cfg, calls[n]).Some?
    ensures Position(env, cfg, calls, n + 1) == Position(env, cfg, calls, n) + 1
    ensures Position(env, cfg, calls, n) < |Trace(env, cfg, calls)|
    ensures Trace(env, cfg, calls)[Position(env, cfg, calls, n)] == StoreCall(env, cfg, calls[n]).value
  {
    CallsExtend(env, cfg, calls, n + 1, |calls|);
  }

  /** Every reply of a run that depends on the store is the one its store call's outcome in the trace calls for. */
  lemma RepliesAreTheOutcomes(env: Environment, cfg: ServiceConfig, calls: seq<Call>, n: nat)
    requires n < |calls| && StoreCall(env, cfg, calls[n]).Some?
    ensures Position(env, cfg, calls, n) < |Trace(env, cfg, calls)|
    ensures Trace(env, cfg, calls)[Position(env, cfg, calls, n)] == StoreCall(env, cfg, calls[n]).value
    ensures ReplyTo(env, cfg, calls, n)
            == ReplyFor(env, cfg, calls[n], TraceOutcomes(env, cfg, calls)[Position(env, cfg, calls, n)])
  {
    var ops, k := StoreCalls(env, cfg, calls, n), Position(env, cfg, calls, n);
    CallInTrace(env, cfg, calls, n);
    CallsExtend(env, cfg, calls, n, |calls|);
    StoreAfterReadsPrefix(ops, Trace(env, cfg, calls), k, StorePolicy(cfg), true);
    ServiceRunsTheStore(env, cfg, calls, n);
    ServeAnswersTheOutcome(env, cfg, StoreAfterCalls(env, cfg, calls, n), calls[n]);
  }

  // ----- requests and sign-ins of one address -----

  /** Call j put a code for the address into the store, delivered or not. */
  predicate Stores(env: Environment, cfg: ServiceConfig, calls: seq<Call>, j: nat, address: string)
    requires j < |calls|
  {
    && StoreCall(env, cfg, calls[j]).Some? && calls[j].RequestCode? && env.normalize(calls[j].rawEmail) == Some(address)
    && (ReplyTo(env, cfg, calls, j).Answered? || ReplyTo(env, cfg, calls, j).DeliveryFailed?)
  }

  /** Call i ended the life of the address's code: a sign-in (even if no token came of it) or a lockout. */
  predicate Ends(env: Environment, cfg: ServiceConfig, calls: seq<Call>, i: nat, address: string)
    requires i < |calls|
  {
    var reply := ReplyTo(env, cfg, calls, i);
    && StoreCall(env, cfg, calls[i]).Some? && calls[i].VerifyCode? && env.normalize(calls[i].rawEmail) == Some(address)
    && (reply.SignedIn? || reply.TokenRefused? || reply == Refused(TooManyAttempts))
  }

  /** What a call does to the code of one address. */
  datatype Mark = Puts | Voids | Nothing

  function MarkOf(env: Environment, cfg: ServiceConfig, calls: seq<Call>, address: string): nat -> Mark {
    (i: nat) =>
      if i >= |calls| then Nothing
      else if Stores(env, cfg, calls, i, address) then Puts
      else if Ends(env, cfg, calls, i, address) then Voids
      else Nothing
  }

  /** The latest of the first n calls that put a code, if none after it voided it. */
  function LatestPut(marks: nat -> Mark, n: nat): (r: Option<nat>)
    ensures r.Some? ==> r.value < n && marks(r.value).Puts? && forall i: nat | r.value < i < n :: marks(i).Nothing?
  {
    if n == 0 then None
    else
      match marks(n - 1)
      case Puts => Some(n - 1)
      case Voids => None
      case Nothing => LatestPut(marks, n - 1)
  }

  /** The request whose code is current for the address before call n, as the replies tell. */
  function CurrentRequest(env: Environment, cfg: ServiceConfig, calls: seq<Call>, address: string,
                          n: nat): (r: Option<nat>)
    requires n <= |calls|
    ensures r.Some? ==> r.value < n && calls[r.value].RequestCode? && StoreCall(env, cfg, calls[r.value]).Some?
    ensures r.Some? ==> env.normalize(calls[r.value].rawEmail) == Some(address)
  {
    LatestPut(MarkOf(env, cfg, calls, address), n)
  }

  /** It stored a code for the address, and no call since stored another or ended it. */
  lemma CurrentRequestIsLatest(env: Environment, cfg: ServiceConfig, calls: seq<Call>, address: string, n: nat, i: nat)
    requires n <= |calls| && CurrentRequest(env, cfg, calls, address, n).Some?
    ensures Stores(env, cfg, calls, CurrentRequest(env, cfg, calls, address, n).value, address)
    ensures CurrentRequest(env, cfg, calls, address, n).value < i < n ==>
              !Stores(env, cfg, calls, i, address) && !Ends(env, cfg, calls, i, address)
  {
    var marks := MarkOf(env, cfg, calls, address);
    assert marks(LatestPut(marks, n).value).Puts?;
    assert LatestPut(marks, n).value < i < n ==> marks(i).Nothing?;
  }

  lemma StoreCallKeepsAddress(env: Environment, cfg: ServiceConfig, call: Call)
    requires StoreCall(env, cfg, call).Some?
    ensures env.normalize(call.rawEmail) == Some(StoreCall(env, cfg, call).value.key)
    ensures StoreCall(env, cfg, call).value.now == call.now
    ensures StoreCall(env, cfg, call).value.Issue? <==> call.RequestCode?
  {
  }

  lemma StepInTrace(env: Environment, cfg: ServiceConfig, calls: seq<Call>, n: nat, address: string)
    requires n < |calls| && StoreCall(env, cfg, calls[n]).Some?
    ensures Position(env, cfg, calls, n) < |Trace(env, cfg, calls)|
    ensures var k := Position(env, cfg, calls, n);
            var op, out := Trace(env, cfg, calls)[k], TraceOutcomes(env, cfg, calls)[k];
            && (Stores(env, cfg, calls, n, address) <==> Opens(op, out, address))
            && (Ends(env, cfg, calls, n, address) <==> Closes(op, out, address))
  {
    RepliesAreTheOutcomes(env, cfg, calls, n);
    StoreCallKeepsAddress(env, cfg, calls[n]);
  }

  /** A call makes no store call and leaves no mark, or makes the next one, which opens and closes what the mark
      says. */
  ghost predicate MarksTheTrace(mark: Mark, before: nat, after: nat, ops: seq<Op>, outs: seq<Outcome>, key: string)
    requires |outs| == |ops|
  {
    || (after == before && mark.Nothing?)
    || (after == before + 1 <= |ops|
        && (mark.Puts? <==> Opens(ops[before], outs[before], key))
        && (mark.Voids? <==> Closes(ops[before], outs[before], key)))
  }

  ghost predicate AllMark(marks: nat -> Mark, positions: nat -> nat, ops: seq<Op>, outs: seq<Outcome>, key: string,
                          n: nat)
    requires |outs| == |ops|
  {
    forall i: nat | i < n :: MarksTheTrace(marks(i), positions(i), positions(i + 1), ops, outs, key)
  }

  lemma {:induction false} LatestPutIsOutstanding(marks: nat -> Mark, positions: nat -> nat, ops: seq<Op>,
                                                  outs: seq<Outcome>, key: string, n: nat)
    requires |outs| == |ops| && positions(0) == 0
    requires AllMark(marks, positions, ops, outs, key, n)
    ensures positions(n) <= |ops|
    ensures Outstanding(ops, outs, key, positions(n))
            == match LatestPut(marks, n) case None => None case Some(j) => Some(positions(j))
  {
    if n > 0 {
      LatestPutIsOutstanding(marks, positions, ops, outs, key, n - 1);
      assert MarksTheTrace(marks(n - 1), positions(n - 1), positions(n - 1 + 1), ops, outs, key);
    }
  }

  lemma PositionNext(env: Environment, cfg: ServiceConfig, calls: seq<Call>, n: nat)
    requires n < |calls|
    ensures Position(env, cfg, calls, n + 1)
            == Position(env, cfg, calls, n) + if StoreCall(env, cfg, calls[n]).Some? then 1 else 0
  {
  }

  function Positions(env: Environment, cfg: ServiceConfig, calls: seq<Call>): nat -> nat {
    (i: nat) => if i <= |calls| then Position(env, cfg, calls, i) else 0
  }

  lemma CallMarksTheTrace(env: Environment, cfg: ServiceConfig, calls: seq<Call>, address: string, i: nat)
    requires i < |calls|
    ensures MarksTheTrace(MarkOf(env, cfg, calls, address)(i), Position(env, cfg, calls, i),
              Position(env, cfg, calls, i + 1),
                          Trace(env, cfg, calls), TraceOutcomes(env, cfg, calls), address)
  {
    PositionNext(env, cfg, calls, i);
    if StoreCall(env, cfg, calls[i]).Some? {
      StepInTrace(env, cfg, calls, i, address);
    }
  }

  lemma CallsMarkTheTrace(env: Environment, cfg: ServiceConfig, calls: seq<Call>, address: string, n: nat)
    requires n <= |calls|
    ensures AllMark(MarkOf(env, cfg, calls, address), Positions(env, cfg, calls), Trace(env, cfg, calls),
                    TraceOutcomes(env, cfg, calls), address, n)
  {
    var marks, positions := MarkOf(env, cfg, calls, address), Positions(env, cfg, calls);
    forall i: nat | i < n
      ensures MarksTheTrace(marks(i), positions(i), positions(i + 1), Trace(env, cfg, calls),
                            TraceOutcomes(env, cfg, calls), address)
    {
      CallMarksTheTrace(env, cfg, calls, address, i);
    }
  }

  /** The current request of the replies is the outstanding issue of the store's trace. */
  lemma CurrentIsOutstanding(env: Environment, cfg: ServiceConfig, calls: seq<Call>, address: string, n: nat)
    requires n <= |calls|
    ensures Position(env, cfg, calls, n) <= |Trace(env, cfg, calls)|
    ensures Outstanding(Trace(env, cfg, calls), TraceOutcomes(env, cfg, calls), address, Position(env, cfg, calls, n))
            == match CurrentRequest(env, cfg, calls, address, n)
               case None => None
               case Some(j) => Some(Position(env, cfg, calls, j))
  {
    CallsMarkTheTrace(env, cfg, calls, address, n);
    LatestPutIsOutstanding(MarkOf(env, cfg, calls, address), Positions(env, cfg, calls), Trace(env, cfg, calls),
                           TraceOutcomes(env, cfg, calls), address, n);
  }

  ghost predicate CallsInOrder(calls: seq<Call>) {
    forall i, j | 0 <= i <= j < |calls| :: calls[i].now <= calls[j].now
  }

  lemma {:induction false} TraceIsInOrder(env: Environment, cfg: ServiceConfig, calls: seq<Call>, n: nat)
    requires n <= |calls| && CallsInOrder(calls)
    ensures NonDecreasingClock(StoreCalls(env, cfg, calls, n))
    ensures forall op | op in StoreCalls(env, cfg, calls, n) :: n > 0 && op.now <= calls[n - 1].now
  {
    if n > 0 {
      TraceIsInOrder(env, cfg, calls, n - 1);
      var before := StoreCalls(env, cfg, calls, n - 1);
      assert n > 1 ==> calls[n - 2].now <= calls[n - 1].now;
      if StoreCall(env, cfg, calls[n - 1]).Some? {
        StoreCallKeepsAddress(env, cfg, calls[n - 1]);
        assert forall i | 0 <= i < |before| :: before[i] in before;
      }
    }
  }

  /** Call i tries, in time, another code than the one request j stored. */
  predicate TriesWrongCode(env: Environment, cfg: ServiceConfig, calls: seq<Call>, j: nat, i: nat)
    requires j < |calls| && i < |calls| && calls[j].RequestCode?
  {
    && calls[i].VerifyCode? && env.normalize(calls[i].rawEmail) == env.normalize(calls[j].rawEmail)
    && TrimSpace(calls[i].code) != "" && TrimSpace(calls[i].code) != TrimSpace(calls[j].drawn)
    && calls[i].now <= calls[j].now + cfg.codeTtl
  }

  /** How often the test holds from `from` up to n. */
  function CountOf(test: nat -> bool, from: nat, n: nat): nat {
    if n <= from then 0 else CountOf(test, from, n - 1) + (if test(n - 1) then 1 else 0)
  }

  function TriesAgainst(env: Environment, cfg: ServiceConfig, calls: seq<Call>, j: nat): nat -> bool
    requires j < |calls| && calls[j].RequestCode?
  {
    (i: nat) => i < |calls| && TriesWrongCode(env, cfg, calls, j, i)
  }

  function WrongTries(env: Environment, cfg: ServiceConfig, calls: seq<Call>, j: nat, n: nat): nat
    requires j < n <= |calls| && calls[j].RequestCode?
  {
    CountOf(TriesAgainst(env, cfg, calls, j), j + 1, n)
  }

  /** With an injective digest, what is typed matches exactly when the digests do. */
  lemma DigestsTellCodes(env: Environment, cfg: ServiceConfig, request: Call, verify: Call)
    requires InjectiveMac(env) && request.RequestCode? && verify.VerifyCode?
    requires StoreCall(env, cfg, request).Some? && StoreCall(env, cfg, verify).Some?
    requires env.normalize(request.rawEmail) == env.normalize(verify.rawEmail)
    ensures StoreCall(env, cfg, request).value.hash == StoreCall(env, cfg, verify).value.hash
            <==> TrimSpace(verify.code) == TrimSpace(request.drawn)
  {
    TrimIsIdempotent(verify.code);
  }

  lemma TryIsGuess(env: Environment, cfg: ServiceConfig, calls: seq<Call>, j: nat, i: nat)
    requires j < |calls| && i < |calls| && InjectiveMac(env)
    requires calls[j].RequestCode? && StoreCall(env, cfg, calls[j]).Some? && StoreCall(env, cfg, calls[i]).Some?
    ensures Position(env, cfg, calls, j) < |Trace(env, cfg, calls)|
            && Position(env, cfg, calls, i) < |Trace(env, cfg, calls)|
    ensures TriesWrongCode(env, cfg, calls, j, i)
            <==> WrongGuess(Trace(env, cfg, calls), Position(env, cfg, calls, j), Position(env, cfg, calls, i),
                cfg.codeTtl)
  {
    CallInTrace(env, cfg, calls, j);
    CallInTrace(env, cfg, calls, i);
    StoreCallKeepsAddress(env, cfg, calls[j]);
    StoreCallKeepsAddress(env, cfg, calls[i]);
    if calls[i].VerifyCode? && env.normalize(calls[i].rawEmail) == env.normalize(calls[j].rawEmail) {
      DigestsTellCodes(env, cfg, calls[j], calls[i]);
    }
  }

  /** A call makes no store call and is no try, or makes the next one, which is a wrong guess exactly if it is a try. */
  ghost predicate CountsInTrace(isTry: bool, before: nat, after: nat, ops: seq<Op>, issue: nat, ttl: int)
    requires issue < |ops|
  {
    || (after == before && !isTry)
    || (after == before + 1 <= |ops| && (isTry <==> WrongGuess(ops, issue, before, ttl)))
  }

  ghost predicate AllCount(tries: nat -> bool, positions: nat -> nat, ops: seq<Op>, j: nat, n: nat, ttl: int)
    requires positions(j) < |ops|
  {
    forall i: nat | j < i < n :: CountsInTrace(tries(i), positions(i), positions(i + 1), ops, positions(j), ttl)
  }

  lemma {:induction false} TriesCountGuesses(tries: nat -> bool, positions: nat -> nat, ops: seq<Op>, j: nat, n: nat,
                                             ttl: int)
    requires j < n && positions(j) < |ops| && positions(j + 1) == positions(j) + 1
    requires AllCount(tries, positions, ops, j, n, ttl)
    ensures positions(j) < positions(n) <= |ops|
    ensures CountOf(tries, j + 1, n) == WrongGuesses(ops, positions(j), positions(n), ttl)
  {
    if n > j + 1 {
      TriesCountGuesses(tries, positions, ops, j, n - 1, ttl);
      assert CountsInTrace(tries(n - 1), positions(n - 1), positions(n - 1 + 1), ops, positions(j), ttl);
    }
  }

  lemma CallCountsInTrace(env: Environment, cfg: ServiceConfig, calls: seq<Call>, j: nat, i: nat)
    requires j < |calls| && i < |calls| && InjectiveMac(env)
    requires calls[j].RequestCode? && StoreCall(env, cfg, calls[j]).Some?
    ensures Position(env, cfg, calls, j) < |Trace(env, cfg, calls)|
    ensures CountsInTrace(TriesWrongCode(env, cfg, calls, j, i), Position(env, cfg, calls, i),
              Position(env, cfg, calls, i + 1),
                          Trace(env, cfg, calls), Position(env, cfg, calls, j), cfg.codeTtl)
  {
    CallInTrace(env, cfg, calls, j);
    PositionNext(env, cfg, calls, i);
    if StoreCall(env, cfg, calls[i]).Some? {
      TryIsGuess(env, cfg, calls, j, i);
    }
  }

  lemma CallsCountInTrace(env: Environment, cfg: ServiceConfig, calls: seq<Call>, j: nat, n: nat)
    requires j < n <= |calls| && InjectiveMac(env) && calls[j].RequestCode? && StoreCall(env, cfg, calls[j]).Some?
    ensures Positions(env, cfg, calls)(j) < |Trace(env, cfg, calls)|
    ensures AllCount(TriesAgainst(env, cfg, calls, j), Positions(env, cfg, calls), Trace(env, cfg, calls), j, n,
              cfg.codeTtl)
  {
    CallInTrace(env, cfg, calls, j);
    var tries, positions := TriesAgainst(env, cfg, calls, j), Positions(env, cfg, calls);
    forall i: nat | j < i < n
      ensures CountsInTrace(tries(i), positions(i), positions(i + 1), Trace(env, cfg, calls), positions(j), cfg.codeTtl)
    {
      CallCountsInTrace(env, cfg, calls, j, i);
    }
  }

  /** The wrong tries against a request are the wrong guesses at its issue. */
  lemma TriesAreGuesses(env: Environment, cfg: ServiceConfig, calls: seq<Call>, j: nat, n: nat)
    requires j < n <= |calls| && InjectiveMac(env) && calls[j].RequestCode? && StoreCall(env, cfg, calls[j]).Some?
    ensures Position(env, cfg, calls, j) < Position(env, cfg, calls, n) <= |Trace(env, cfg, calls)|
    ensures WrongTries(env, cfg, calls, j, n)
            == WrongGuesses(Trace(env, cfg, calls), Position(env, cfg, calls, j), Position(env, cfg, calls, n),
                cfg.codeTtl)
  {
    CallsCountInTrace(env, cfg, calls, j, n);
    PositionNext(env, cfg, calls, j);
    TriesCountGuesses(TriesAgainst(env, cfg, calls, j), Positions(env, cfg, calls), Trace(env, cfg, calls), j, n,
        cfg.codeTtl);
  }

  // ----- every reply, read off the replies before it -----

  /** The store outcome behind a call, by the log rule of its own operation and of the current request's. */
  lemma OutcomeOfCall(env: Environment, cfg: ServiceConfig, calls: seq<Call>, n: nat) returns (current: Option<nat>)
    requires n < |calls| && CallsInOrder(calls) && StoreCall(env, cfg, calls[n]).Some?
    ensures Position(env, cfg, calls, n) < |Trace(env, cfg, calls)|
    ensures current == CurrentRequest(env, cfg, calls, env.normalize(calls[n].rawEmail).value, n)
    ensures var ops, outs, k := Trace(env, cfg, calls), TraceOutcomes(env, cfg, calls), Position(env, cfg, calls, n);
            && ops[k] == StoreCall(env, cfg, calls[n]).value
            && ReplyTo(env, cfg, calls, n) == ReplyFor(env, cfg, calls[n], LogOutcome(ops, outs, k, StorePolicy(cfg)))
            && Outstanding(ops, outs, ops[k].key, k)
                == (if current.None? then None else Some(Position(env, cfg, calls, current.value)))
    ensures current.Some? ==>
            && Position(env, cfg, calls, current.value) < |Trace(env, cfg, calls)|
              && Trace(env, cfg, calls)[Position(env, cfg, calls, current.value)]
                  == StoreCall(env, cfg, calls[current.value]).value
              && StoreCall(env, cfg, calls[current.value]).value.now == calls[current.value].now
  {
    var ops, outs, k := Trace(env, cfg, calls), TraceOutcomes(env, cfg, calls), Position(env, cfg, calls, n);
    RepliesAreTheOutcomes(env, cfg, calls, n);
    StoreCallKeepsAddress(env, cfg, calls[n]);
    TraceIsInOrder(env, cfg, calls, |calls|);
    OutcomesExplained(ops, StorePolicy(cfg), true);
    assert outs[k] == LogOutcome(ops, outs, k, StorePolicy(cfg));
    current := CurrentRequest(env, cfg, calls, ops[k].key, n);
    CurrentIsOutstanding(env, cfg, calls, ops[k].key, n);
    if current.Some? {
      CallInTrace(env, cfg, calls, current.value);
      StoreCallKeepsAddress(env, cfg, calls[current.value]);
    }
  }

  /** A request for a code is refused exactly while the current code's resend interval and lifetime both run. */
  lemma RequestIsAnswered(env: Environment, cfg: ServiceConfig, calls: seq<Call>, n: nat)
    requires n < |calls| && CallsInOrder(calls) && calls[n].RequestCode? && StoreCall(env, cfg, calls[n]).Some?
    ensures var address := env.normalize(calls[n].rawEmail).value;
            var current := CurrentRequest(env, cfg, calls, address, n);
            ReplyTo(env, cfg, calls, n) ==
              if current.Some? && Blocking(calls[current.value].now, calls[n].now, StorePolicy(cfg))
                  then Refused(TooSoon)
              else if calls[n].delivered then Answered(address, calls[n].now + cfg.codeTtl, cfg.resendAfter)
              else DeliveryFailed
  {
    var _ := OutcomeOfCall(env, cfg, calls, n);
    StoreCallKeepsAddress(env, cfg, calls[n]);
  }

  /** Verifying a code, in every case: it signs in exactly when it is the code of the current request and in time; the
      wrong code that reaches the limit locks out; anything else is an invalid code. */
  lemma VerificationIsAnswered(env: Environment, cfg: ServiceConfig, calls: seq<Call>, n: nat)
    requires SoundAllowlist(cfg.users) && NormalizesToNonEmpty(env) && InjectiveMac(env)
    requires n < |calls| && CallsInOrder(calls) && calls[n].VerifyCode? && StoreCall(env, cfg, calls[n]).Some?
    ensures var address := env.normalize(calls[n].rawEmail).value;
            var current := CurrentRequest(env, cfg, calls, address, n);
            ReplyTo(env, cfg, calls, n) ==
              if current.None? || calls[n].now > calls[current.value].now + cfg.codeTtl then Refused(InvalidCode)
              else if TrimSpace(calls[n].code) == TrimSpace(calls[current.value].drawn)
                  then SignedIn(address, RoleFor(cfg, address))
              else if WrongTries(env, cfg, calls, current.value, n) + 1 >= cfg.maxAttempts then Refused(TooManyAttempts)
              else Refused(InvalidCode)
  {
    var current := OutcomeOfCall(env, cfg, calls, n);
    StoreCallKeepsAddress(env, cfg, calls[n]);
    RolesAreConfigured(env, cfg, calls, n);
    if current.Some? {
      DigestsTellCodes(env, cfg, calls[current.value], calls[n]);
      TriesAreGuesses(env, cfg, calls, current.value, n);
    }
  }

  /** The service is open to the address: it has no allowlist, or the address is on it. */
  ghost predicate MaySignIn(cfg: ServiceConfig, address: string) {
    cfg.users == map[] || exists role :: (address, role) in cfg.users.Items
  }

  /** Every reply to a request for a code, over whole runs. An address nobody knows is answered like one whose code was
      just mailed; only an address that may sign in can learn that codes have no possible length, that it asks too soon,
      or that its mail was not delivered. */
  lemma EveryRequestIsAnswered(env: Environment, cfg: ServiceConfig, calls: seq<Call>, n: nat)
    requires n < |calls| && CallsInOrder(calls) && calls[n].RequestCode?
    ensures env.normalize(calls[n].rawEmail).None? ==> ReplyTo(env, cfg, calls, n) == InvalidEmail
    ensures env.normalize(calls[n].rawEmail).Some? ==>
              var address := env.normalize(calls[n].rawEmail).value;
              var current := CurrentRequest(env, cfg, calls, address, n);
              var mailed := Answered(address, calls[n].now + cfg.codeTtl, cfg.resendAfter);
              ReplyTo(env, cfg, calls, n) ==
                if !MaySignIn(cfg, address) then mailed
                else if cfg.codeLength !in {4, 5, 6, 7, 8, 9, 10, 11, 12} then BadCodeLength
                else if current.Some? && calls[n].now < calls[current.value].now + cfg.resendAfter
                    && calls[n].now <= calls[current.value].now + cfg.codeTtl then Refused(TooSoon)
                else if calls[n].delivered then mailed
                else DeliveryFailed
  {
    if env.normalize(calls[n].rawEmail).Some? {
      var address := env.normalize(calls[n].rawEmail).value;
      RecognizedMaySignIn(cfg, address);
      if Recognizes(cfg, address) && 4 <= cfg.codeLength <= 12 {
        RequestIsAnswered(env, cfg, calls, n);
      }
    }
  }

  lemma RecognizedMaySignIn(cfg: ServiceConfig, address: string)
    ensures Recognizes(cfg, address) <==> MaySignIn(cfg, address)
  {
    if address in cfg.users {
      assert (address, cfg.users[address]) in cfg.users.Items;
    }
  }

  /** A request stores a code only for an address that may sign in, and only if codes have a possible length; any other
      leaves the store as it was. */
  lemma UnknownAddressLeavesNoTrace(env: Environment, cfg: ServiceConfig, calls: seq<Call>, n: nat)
    requires n < |calls| && calls[n].RequestCode?
    requires env.normalize(calls[n].rawEmail).Some? ==>
               !MaySignIn(cfg, env.normalize(calls[n].rawEmail).value) || cfg.codeLength < 4 || cfg.codeLength > 12
    ensures StoreAfterCalls(env, cfg, calls, n + 1) == StoreAfterCalls(env, cfg, calls, n)
    ensures forall address :: !Stores(env, cfg, calls, n, address)
  {
    if env.normalize(calls[n].rawEmail).Some? {
      RecognizedMaySignIn(cfg, env.normalize(calls[n].rawEmail).value);
    }
  }

  /** Nobody can tell from the reply whether an address is on the allowlist: a request for a stranger's address is
      answered, but for the address itself, exactly as one at the same instant for an address that may sign in, if that
      one may have a code and its mail is delivered. */
  lemma StrangersAreAnsweredAlike(env: Environment, cfg: ServiceConfig, calls: seq<Call>, other: seq<Call>, n: nat)
    requires n < |calls| && n < |other| && CallsInOrder(calls) && CallsInOrder(other)
    requires calls[n].RequestCode? && other[n].RequestCode? && calls[n].now == other[n].now && other[n].delivered
    requires env.normalize(calls[n].rawEmail).Some? && env.normalize(other[n].rawEmail).Some?
    requires !MaySignIn(cfg, env.normalize(calls[n].rawEmail).value)
    requires 4 <= cfg.codeLength <= 12
    requires var current := CurrentRequest(env, cfg, other, env.normalize(other[n].rawEmail).value, n);
             current.None? || !Blocking(other[current.value].now, other[n].now, StorePolicy(cfg))
    ensures ReplyTo(env, cfg, calls, n).Answered? && ReplyTo(env, cfg, other, n).Answered?
    ensures ReplyTo(env, cfg, calls, n).expiresAt == ReplyTo(env, cfg, other, n).expiresAt
    ensures ReplyTo(env, cfg, calls, n).resendAfter == ReplyTo(env, cfg, other, n).resendAfter
  {
    EveryRequestIsAnswered(env, cfg, calls, n);
    EveryRequestIsAnswered(env, cfg, other, n);
  }

  /** Every reply to a typed code, over whole runs. */
  lemma EveryVerificationIsAnswered(env: Environment, cfg: ServiceConfig, calls: seq<Call>, n: nat)
    requires SoundAllowlist(cfg.users) && NormalizesToNonEmpty(env) && InjectiveMac(env)
    requires n < |calls| && CallsInOrder(calls) && calls[n].VerifyCode?
    ensures env.normalize(calls[n].rawEmail).None? ==> ReplyTo(env, cfg, calls, n) == InvalidEmail
    ensures env.normalize(calls[n].rawEmail).Some? ==>
              var address := env.normalize(calls[n].rawEmail).value;
              var current := CurrentRequest(env, cfg, calls, address, n);
              ReplyTo(env, cfg, calls, n) ==
                if (forall c | c in calls[n].code :: IsSpace(c)) || current.None?
                    || calls[n].now > calls[current.value].now + cfg.codeTtl then Refused(InvalidCode)
                else if TrimSpace(calls[n].code) == TrimSpace(calls[current.value].drawn)
                    then SignedIn(address, RoleFor(cfg, address))
                else if WrongTries(env, cfg, calls, current.value, n) + 1 >= cfg.maxAttempts
                    then Refused(TooManyAttempts)
                else Refused(InvalidCode)
  {
    BlankExactly(calls[n].code);
    if env.normalize(calls[n].rawEmail).Some? && TrimSpace(calls[n].code) != "" {
      VerificationIsAnswered(env, cfg, calls, n);
    }
  }

  // ----- what holds of every sign-in trace -----

  lemma SignInSpendsItsRequest(env: Environment, cfg: ServiceConfig, calls: seq<Call>, n: nat)
    requires n < |calls| && CallsInOrder(calls) && ReplyTo(env, cfg, calls, n).SignedIn?
    ensures CurrentRequest(env, cfg, calls, ReplyTo(env, cfg, calls, n).email, n).Some?
    ensures Ends(env, cfg, calls, n, ReplyTo(env, cfg, calls, n).email)
  {
    var _ := OutcomeOfCall(env, cfg, calls, n);
  }

  /** Single use: no two sign-ins of a run spend the same request. */
  lemma SignInsSpendDifferentRequests(env: Environment, cfg: ServiceConfig, calls: seq<Call>, m: nat, n: nat)
    requires m < n < |calls| && CallsInOrder(calls)
    requires ReplyTo(env, cfg, calls, m).SignedIn? && ReplyTo(env, cfg, calls, n).SignedIn?
    ensures var first := CurrentRequest(env, cfg, calls, ReplyTo(env, cfg, calls, m).email, m);
            var second := CurrentRequest(env, cfg, calls, ReplyTo(env, cfg, calls, n).email, n);
            first.Some? && second.Some? && first != second
  {
    SignInSpendsItsRequest(env, cfg, calls, m);
    SignInSpendsItsRequest(env, cfg, calls, n);
    CurrentRequestIsLatest(env, cfg, calls, ReplyTo(env, cfg, calls, n).email, n, m);
  }

  /** Attempt limit: fewer wrong codes than the limit have been tried against any current code. */
  lemma WrongTriesStayBelowLimit(env: Environment, cfg: ServiceConfig, calls: seq<Call>, address: string, n: nat)
    requires n <= |calls| && CallsInOrder(calls) && InjectiveMac(env) && cfg.maxAttempts >= 1
    ensures var current := CurrentRequest(env, cfg, calls, address, n);
            current.Some? ==> WrongTries(env, cfg, calls, current.value, n) < cfg.maxAttempts
  {
    var current := CurrentRequest(env, cfg, calls, address, n);
    CurrentIsOutstanding(env, cfg, calls, address, n);
    TraceIsInOrder(env, cfg, calls, |calls|);
    GuessesStayBelowLimit(Trace(env, cfg, calls), Position(env, cfg, calls, n), StorePolicy(cfg), address);
    if current.Some? {
      TriesAreGuesses(env, cfg, calls, current.value, n);
    }
  }

  lemma {:induction false} LatestPutStays(marks: nat -> Mark, i: nat, n: nat)
    requires i < n && marks(i).Puts? && forall m: nat | i < m < n :: !marks(m).Voids?
    ensures LatestPut(marks, n).Some? && i <= LatestPut(marks, n).value
  {
    if n > i + 1 {
      LatestPutStays(marks, i, n - 1);
    }
  }

  lemma StoredStaysCurrent(env: Environment, cfg: ServiceConfig, calls: seq<Call>, i: nat, n: nat, address: string)
    requires i < n <= |calls| && CallsInOrder(calls) && Stores(env, cfg, calls, i, address)
    requires forall m | i < m < n :: !Ends(env, cfg, calls, m, address)
    ensures var current := CurrentRequest(env, cfg, calls, address, n);
            current.Some? && i <= current.value && calls[i].now <= calls[current.value].now
  {
    var marks := MarkOf(env, cfg, calls, address);
    assert marks(i).Puts?;
    LatestPutStays(marks, i, n);
  }

  /** Resend interval: two codes stored for one address, while the first one's interval and lifetime run, have a sign-in
      or a lockout between them. */
  lemma EarlyRequestNeedsEnd(env: Environment, cfg: ServiceConfig, calls: seq<Call>, i: nat, k: nat, address: string)
    requires i < k < |calls| && CallsInOrder(calls)
    requires Stores(env, cfg, calls, i, address) && Stores(env, cfg, calls, k, address)
    requires Blocking(calls[i].now, calls[k].now, StorePolicy(cfg))
    ensures exists m | i < m < k :: Ends(env, cfg, calls, m, address)
  {
    if forall m | i < m < k :: !Ends(env, cfg, calls, m, address) {
      StoredStaysCurrent(env, cfg, calls, i, k, address);
      RequestIsAnswered(env, cfg, calls, k);
    }
  }
}
