/** Whole runs of the stored history, written by the session page and by checklists: how far apart a checklist's credits
    lie from everything recorded before. */
module CreditRuns {
  import opened Options
  import opened Sequences
  import opened Tasks
  import opened TaskHistory
  import opened ChecklistProgress
  import opened PlannerSync
  import Session

  /** A page loads (and prunes) the history, a session's card is finished, or a checklist's links are synchronised. */
  datatype Event =
    | Loaded(now: int)
    | CardFinished(now: int, completionIds: seq<string>)
    | SyncedLinks(now: int, links: seq<Link>, progress: RoomProgress)

  /** A completion as it was recorded, and whether a checklist credited it. */
  datatype Entry = Entry(done: Completion, credited: bool)

  /** The stored history, and everything ever recorded. */
  datatype Ledger = Ledger(history: seq<Completion>, log: seq<Entry>)

  function AsCredit(c: Completion): Entry {
    Entry(c, true)
  }

  function FinishedAt(now: int): string -> Entry {
    (id: string) => Entry(Completion(id, now), false)
  }

  function StepLedger(ledger: Ledger, bank: seq<Task>, e: Event): Ledger {
    match e
    case Loaded(now) => Ledger(PruneTaskHistory(ledger.history, now), ledger.log)
    case CardFinished(now, ids) =>
      Ledger(Session.Record(ledger.history, ids, now), ledger.log + Transform(ids, FinishedAt(now)))
    case SyncedLinks(now, links, progress) =>
      Ledger(Synced(links, progress, bank, ledger.history, now),
             ledger.log + Transform(AddedUpTo(links, |links|, progress, bank, ledger.history, now), AsCredit))
  }

  function LedgerAfter(bank: seq<Task>, events: seq<Event>): Ledger {
    if events == [] then Ledger([], [])
    else StepLedger(LedgerAfter(bank, events[..|events| - 1]), bank, events[|events| - 1])
  }

  ghost predicate ClockMovesOn(events: seq<Event>) {
    && (forall i | 0 <= i < |events| :: events[i].now > 0)
    && forall i, j | 0 <= i < j < |events| :: events[i].now <= events[j].now
  }

  function LastNow(events: seq<Event>): int {
    if events == [] then 0 else events[|events| - 1].now
  }

  /** The gap the history can enforce: the cooldown, or one millisecond past the retention if that is shorter. */
  function EnforcedGap(bank: seq<Task>, taskId: string): int {
    var cooldown := if TaskById(bank, taskId).Some? then CooldownFor(TaskById(bank, taskId).value) * MS_PER_HOUR else 0;
    if cooldown <= RETENTION then cooldown else RETENTION + 1
  }

  ghost predicate FarEnough(earlier: Entry, later: Entry, bank: seq<Task>) {
    later.credited && earlier.done.taskId == later.done.taskId ==>
      later.done.completedAt - earlier.done.completedAt >= EnforcedGap(bank, later.done.taskId)
  }

  ghost predicate Spaced(log: seq<Entry>, bank: seq<Task>) {
    forall i, j | 0 <= i < j < |log| :: FarEnough(log[i], log[j], bank)
  }

  /** What has been recorded is still stored, unless the retention has run out for it. */
  ghost predicate Remembered(history: seq<Completion>, log: seq<Entry>, now: int) {
    forall i | 0 <= i < |log| ::
      0 < log[i].done.completedAt <= now && (log[i].done in history || log[i].done.completedAt < now - RETENTION)
  }

  ghost predicate GoodLedger(ledger: Ledger, bank: seq<Task>, now: int) {
    Spaced(ledger.log, bank) && Remembered(ledger.history, ledger.log, now)
  }

  lemma PruningKeepsLedger(ledger: Ledger, bank: seq<Task>, before: int, now: int)
    requires before <= now && GoodLedger(ledger, bank, before)
    ensures GoodLedger(ledger, bank, now)
              && GoodLedger(ledger.(history := PruneTaskHistory(ledger.history, now)), bank, now)
  {
    forall i | 0 <= i < |ledger.log|
      ensures ledger.log[i].done in PruneTaskHistory(ledger.history, now)
                || ledger.log[i].done.completedAt < now - RETENTION
    {
    }
  }

  /** Recording one more completion keeps the ledger good, if it is no credit or a credit far enough from all before. */
  lemma AddingKeepsLedger(ledger: Ledger, bank: seq<Task>, now: int, e: Entry)
    requires now > 0 && e.done.completedAt == now && GoodLedger(ledger, bank, now)
    requires forall i | 0 <= i < |ledger.log| :: FarEnough(ledger.log[i], e, bank)
    ensures GoodLedger(Ledger(AddTaskCompletion(ledger.history, e.done.taskId, now), ledger.log + [e]), bank, now)
  {
    var longer := Ledger(ledger.history + [e.done], ledger.log + [e]);
    assert e.done in longer.history;
    assert forall c | c in ledger.history :: c in longer.history;
    PruningKeepsLedger(longer, bank, now, now);
  }

  /** A task is only credited when all its recorded completions lie far enough back. */
  lemma CreditIsFarEnough(task: Task, ledger: Ledger, bank: seq<Task>, now: int, i: nat)
    requires Remembered(ledger.history, ledger.log, now) && i < |ledger.log|
    requires TaskById(bank, task.id) == Some(task) && !IsTaskOnCooldown(task.id, CooldownFor(task), ledger.history, now)
    ensures FarEnough(ledger.log[i], Entry(Completion(task.id, now), true), bank)
  {
    OnCooldownMeansRecentCompletion(task.id, CooldownFor(task), ledger.history, now);
  }

  lemma LinkKeepsLedger(link: Link, progress: RoomProgress, bank: seq<Task>, ledger: Ledger, now: int)
    requires now > 0 && GoodLedger(ledger, bank, now)
    ensures GoodLedger(Ledger(AfterLink(link, progress, bank, ledger.history, now),
                              ledger.log + Transform(CreditOf(link, progress, bank, ledger.history, now), AsCredit)),
                                  bank, now)
  {
    var credited := Credited(link, progress, bank, ledger.history, now);
    if credited.None? {
      assert Transform([], AsCredit) == [] && ledger.log + [] == ledger.log;
    } else {
      var task := credited.value;
      forall i | 0 <= i < |ledger.log|
        ensures FarEnough(ledger.log[i], Entry(Completion(task.id, now), true), bank)
      {
        CreditIsFarEnough(task, ledger, bank, now, i);
      }
      AddingKeepsLedger(ledger, bank, now, Entry(Completion(task.id, now), true));
      assert Transform([Completion(task.id, now)], AsCredit) == [Entry(Completion(task.id, now), true)];
    }
  }

  /** The ledger after the first n links of a sync. */
  function SyncLedger(links: seq<Link>, n: nat, progress: RoomProgress, bank: seq<Task>, ledger: Ledger,
                      now: int): Ledger
    requires n <= |links|
  {
    Ledger(SyncedUpTo(links, n, progress, bank, ledger.history, now),
           ledger.log + Transform(AddedUpTo(links, n, progress, bank, ledger.history, now), AsCredit))
  }

  lemma SyncLedgerNext(links: seq<Link>, n: nat, progress: RoomProgress, bank: seq<Task>, ledger: Ledger, now: int)
    requires n < |links|
    ensures var before := SyncLedger(links, n, progress, bank, ledger, now);
            SyncLedger(links, n + 1, progress, bank, ledger, now)
            == Ledger(AfterLink(links[n], progress, bank, before.history, now),
                      before.log + Transform(CreditOf(links[n], progress, bank, before.history, now), AsCredit))
  {
    var before, added := SyncLedger(links, n, progress, bank, ledger, now),
        AddedUpTo(links, n, progress, bank, ledger.history, now);
    var credit := CreditOf(links[n], progress, bank, before.history, now);
    TransformConcat(added, credit, AsCredit);
    ConcatAssociates(ledger.log, Transform(added, AsCredit), Transform(credit, AsCredit));
  }

  lemma {:induction false} SyncKeepsLedger(links: seq<Link>, n: nat, progress: RoomProgress, bank: seq<Task>,
                                           ledger: Ledger, now: int)
    requires n <= |links| && now > 0 && GoodLedger(ledger, bank, now)
    ensures GoodLedger(SyncLedger(links, n, progress, bank, ledger, now), bank, now)
  {
    if n == 0 {
      assert Transform([], AsCredit) == [] && ledger.log + [] == ledger.log;
    } else {
      SyncKeepsLedger(links, n - 1, progress, bank, ledger, now);
      LinkKeepsLedger(links[n - 1], progress, bank, SyncLedger(links, n - 1, progress, bank, ledger, now), now);
      SyncLedgerNext(links, n - 1, progress, bank, ledger, now);
    }
  }

  lemma {:induction false} FinishKeepsLedger(ids: seq<string>, bank: seq<Task>, ledger: Ledger, now: int)
    requires now > 0 && GoodLedger(ledger, bank, now)
    ensures GoodLedger(Ledger(Session.Record(ledger.history, ids, now), ledger.log + Transform(ids, FinishedAt(now))),
              bank, now)
  {
    if ids == [] {
      assert ledger.log + [] == ledger.log;
    } else {
      var front, last := ids[..|ids| - 1], ids[|ids| - 1];
      FinishKeepsLedger(front, bank, ledger, now);
      var before := Ledger(Session.Record(ledger.history, front, now), ledger.log + Transform(front, FinishedAt(now)));
      AddingKeepsLedger(before, bank, now, FinishedAt(now)(last));
      assert ledger.log + Transform(ids, FinishedAt(now)) == before.log + [FinishedAt(now)(last)];
    }
  }

  lemma EventKeepsLedger(e: Event, bank: seq<Task>, ledger: Ledger)
    requires e.now > 0 && GoodLedger(ledger, bank, e.now)
    ensures GoodLedger(StepLedger(ledger, bank, e), bank, e.now)
  {
    match e
    case Loaded(now) => PruningKeepsLedger(ledger, bank, now, now);
    case CardFinished(now, ids) => FinishKeepsLedger(ids, bank, ledger, now);
    case SyncedLinks(now, links, progress) => SyncKeepsLedger(links, |links|, progress, bank, ledger, now);
  }

  lemma {:induction false} RunKeepsLedger(bank: seq<Task>, events: seq<Event>)
    requires ClockMovesOn(events)
    ensures GoodLedger(LedgerAfter(bank, events), bank, LastNow(events))
  {
    if events != [] {
      var front, e := events[..|events| - 1], events[|events| - 1];
      RunKeepsLedger(bank, front);
      PruningKeepsLedger(LedgerAfter(bank, front), bank, LastNow(front), e.now);
      EventKeepsLedger(e, bank, LedgerAfter(bank, front));
    }
  }

  /** Over every run of loads, finished cards and syncs from an empty history, a credit lies at least its task's
      cooldown after every completion of the task recorded before it, finished or credited, as long as the cooldown does
      not outlast the retention (and one millisecond past the retention if it does). */
  lemma CreditsAreSpaced(bank: seq<Task>, events: seq<Event>, i: nat, j: nat)
    requires ClockMovesOn(events) && i < j < |LedgerAfter(bank, events).log|
    ensures FarEnough(LedgerAfter(bank, events).log[i], LedgerAfter(bank, events).log[j], bank)
  {
    RunKeepsLedger(bank, events);
  }

  // ----- exactly up to the retention -----

  /** The entries are of the task, the later one a credit, and its cooldown has passed between them. */
  ghost predicate CooldownHolds(earlier: Entry, later: Entry, task: Task) {
    later.credited && earlier.done.taskId == task.id && later.done.taskId == task.id ==>
      later.done.completedAt - earlier.done.completedAt >= CooldownFor(task) * MS_PER_HOUR
  }

  ghost predicate CooldownHoldsIn(log: seq<Entry>, task: Task) {
    forall i, j | 0 <= i < j < |log| :: CooldownHolds(log[i], log[j], task)
  }

  /** No run credits the task before its cooldown is over. */
  ghost predicate CooldownAlwaysHolds(task: Task, bank: seq<Task>) {
    forall events | ClockMovesOn(events) :: CooldownHoldsIn(LedgerAfter(bank, events).log, task)
  }

  /** The shortest run that credits a task twice too early: credit it, come back after the retention, credit it once
      more. */
  function ReturnAfterRetention(task: Task): seq<Event> {
    [CreditAt(task, 1), Loaded(RETENTION + 2), CreditAt(task, RETENTION + 2)]
  }

  function CreditAt(task: Task, now: int): Event {
    SyncedLinks(now, [LinkTo(task)], map[])
  }

  lemma ReturnMovesOn(task: Task)
    ensures ClockMovesOn(ReturnAfterRetention(task))
  {
  }

  lemma LedgerNext(bank: seq<Task>, events: seq<Event>, e: Event)
    ensures LedgerAfter(bank, events + [e]) == StepLedger(LedgerAfter(bank, events), bank, e)
  {
    assert (events + [e])[..|events|] == events;
  }

  lemma OneLink(link: Link, progress: RoomProgress, bank: seq<Task>, history: seq<Completion>, now: int)
    ensures Synced([link], progress, bank, history, now) == AfterLink(link, progress, bank, history, now)
    ensures AddedUpTo([link], 1, progress, bank, history, now) == CreditOf(link, progress, bank, history, now)
  {
    assert SyncedUpTo([link], 0, progress, bank, history, now) == history;
    assert AddedUpTo([link], 0, progress, bank, history, now) == [];
  }

  lemma CreditsAnIdleTask(task: Task, bank: seq<Task>, log: seq<Entry>, now: int)
    requires TaskById(bank, task.id) == Some(task)
    ensures StepLedger(Ledger([], log), bank, CreditAt(task, now))
            == Ledger([Completion(task.id, now)], log + [Entry(Completion(task.id, now), true)])
  {
    LinkIsCredited(task, bank, [], now);
    OneLink(LinkTo(task), map[], bank, [], now);
    AddIsPrunedAppend([], task.id, now);
    assert [] + [Completion(task.id, now)] == [Completion(task.id, now)];
    assert Transform([Completion(task.id, now)], AsCredit) == [Entry(Completion(task.id, now), true)];
  }

  lemma LoadForgets(bank: seq<Task>, c: Completion, log: seq<Entry>, now: int)
    requires c.completedAt < now - RETENTION
    ensures StepLedger(Ledger([c], log), bank, Loaded(now)) == Ledger([], log)
  {
    FilterNothing([c], (d: Completion) => d.completedAt >= now - RETENTION);
  }

  lemma RunOfThree(bank: seq<Task>, a: Event, b: Event, c: Event)
    ensures LedgerAfter(bank, [a, b, c])
            == StepLedger(StepLedger(StepLedger(Ledger([], []), bank, a), bank, b), bank, c)
  {
    LedgerNext(bank, [], a);
    LedgerNext(bank, [a], b);
    LedgerNext(bank, [a, b], c);
    assert [] + [a] == [a] && [a] + [b] == [a, b] && [a, b] + [c] == [a, b, c];
  }

  lemma ForgottenTaskIsCreditedAgain(task: Task, bank: seq<Task>)
    requires TaskById(bank, task.id) == Some(task)
    ensures LedgerAfter(bank, ReturnAfterRetention(task)).log
            == [Entry(Completion(task.id, 1), true)] + [Entry(Completion(task.id, RETENTION + 2), true)]
  {
    var again := RETENTION + 2;
    var first := [] + [Entry(Completion(task.id, 1), true)];
    RunOfThree(bank, CreditAt(task, 1), Loaded(again), CreditAt(task, again));
    CreditsAnIdleTask(task, bank, [], 1);
    LoadForgets(bank, Completion(task.id, 1), first, again);
    CreditsAnIdleTask(task, bank, first, again);
  }

  lemma EarlyCreditFails(task: Task, bank: seq<Task>, events: seq<Event>)
    requires ClockMovesOn(events) && |LedgerAfter(bank, events).log| == 2
    requires !CooldownHolds(LedgerAfter(bank, events).log[0], LedgerAfter(bank, events).log[1], task)
    ensures !CooldownAlwaysHolds(task, bank)
  {
    assert !CooldownHoldsIn(LedgerAfter(bank, events).log, task);
  }

  lemma LongCooldownFails(task: Task, bank: seq<Task>)
    requires TaskById(bank, task.id) == Some(task) && CooldownFor(task) > RETENTION_DAYS * 24
    ensures !CooldownAlwaysHolds(task, bank)
  {
    ReturnMovesOn(task);
    ForgottenTaskIsCreditedAgain(task, bank);
    EarlyCreditFails(task, bank, ReturnAfterRetention(task));
  }

  lemma FarEnoughIsEnough(earlier: Entry, later: Entry, task: Task, bank: seq<Task>)
    requires TaskById(bank, task.id) == Some(task) && CooldownFor(task) <= RETENTION_DAYS * 24
    requires FarEnough(earlier, later, bank)
    ensures CooldownHolds(earlier, later, task)
  {
  }

  lemma ShortCooldownHolds(task: Task, bank: seq<Task>, events: seq<Event>)
    requires TaskById(bank, task.id) == Some(task) && CooldownFor(task) <= RETENTION_DAYS * 24 && ClockMovesOn(events)
    ensures CooldownHoldsIn(LedgerAfter(bank, events).log, task)
  {
    var log := LedgerAfter(bank, events).log;
    forall i, j | 0 <= i < j < |log|
      ensures CooldownHolds(log[i], log[j], task)
    {
      CreditsAreSpaced(bank, events, i, j);
      FarEnoughIsEnough(log[i], log[j], task, bank);
    }
  }

  /** A task's cooldown is kept by the credits of every run exactly when it does not outlast the 730 days of
      retention. */
  lemma CooldownHoldsExactly(task: Task, bank: seq<Task>)
    requires TaskById(bank, task.id) == Some(task)
    ensures CooldownAlwaysHolds(task, bank) <==> CooldownFor(task) <= RETENTION_DAYS * 24
  {
    if CooldownFor(task) > RETENTION_DAYS * 24 {
      LongCooldownFails(task, bank);
    } else {
      forall events | ClockMovesOn(events)
        ensures CooldownHoldsIn(LedgerAfter(bank, events).log, task)
      {
        ShortCooldownHolds(task, bank, events);
      }
    }
  }
}
