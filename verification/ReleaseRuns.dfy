/** Whole runs of the app's stored state: the clock moves on, schedules are reloaded, tasks are completed and
    the history is pruned. Once a scheduled task is released it stays released. */
module ReleaseRuns {
  import opened Options
  import opened Tasks
  import opened TaskHistory
  import opened TaskSchedule

  datatype World = World(now: nat, history: seq<Completion>, stored: Option<StoredSchedule>)

  datatype Move =
    | Wait(until: nat)
    | Load(tasks: seq<Task>, idLess: (string, string) -> bool)
    | Complete(taskId: string)
    | Reopen

  function Do(w: World, move: Move): World {
    match move
    case Wait(until) => w.(now := if until > w.now then until else w.now)
    case Load(tasks, idLess) => w.(stored := Some(NextSchedule(tasks, w.history, w.now, w.stored, idLess)))
    case Complete(taskId) => w.(history := AddTaskCompletion(w.history, taskId, w.now))
    case Reopen => w.(history := PruneTaskHistory(w.history, w.now))
  }

  function After(w: World, moves: seq<Move>): World {
    if moves == [] then w else Do(After(w, moves[..|moves| - 1]), moves[|moves| - 1])
  }

  function Entries(w: World): seq<ScheduleEntry> {
    if w.stored.Some? then w.stored.value.entries else []
  }

  predicate Released(w: World, taskId: string) {
    IsTaskReleased(taskId, Entries(w), w.history, w.now)
  }

  ghost predicate InBank(tasks: seq<Task>, taskId: string) {
    UniqueIds(tasks) && exists t | t in tasks :: t.id == taskId
  }

  /** Every reload still has the task in its bank. */
  ghost predicate KeepsTask(moves: seq<Move>, taskId: string) {
    forall m | m in moves && m.Load? :: InBank(m.tasks, taskId)
  }

  ghost predicate Scheduled(w: World, taskId: string, due: int) {
    ScheduleEntry(taskId, due) in Entries(w) && forall e | e in Entries(w) && e.taskId == taskId :: e.firstDueAt == due
  }

  /** By the time any completion of the task can be forgotten, the task is due anyway. */
  ghost predicate Secure(w: World, taskId: string, due: int) {
    || due <= w.now
    || (due <= w.now + RETENTION + 1 &&
        forall c | c in w.history && c.taskId == taskId :: due <= c.completedAt + RETENTION + 1)
  }

  lemma LoadKeepsSchedule(w: World, tasks: seq<Task>, idLess: (string, string) -> bool, taskId: string, due: int)
    requires Scheduled(w, taskId, due) && InBank(tasks, taskId)
    ensures Scheduled(Do(w, Load(tasks, idLess)), taskId, due)
  {
    var task :| task in tasks && task.id == taskId;
    LoadingKeepsEntries(tasks, w.history, w.now, w.stored.value, idLess, task);
  }

  lemma StepKeepsRelease(w: World, move: Move, taskId: string, due: int)
    requires Scheduled(w, taskId, due) && Secure(w, taskId, due)
    requires move.Load? ==> InBank(move.tasks, taskId)
    ensures Scheduled(Do(w, move), taskId, due) && Secure(Do(w, move), taskId, due)
    ensures Released(w, taskId) ==> Released(Do(w, move), taskId)
  {
    if move.Load? {
      LoadKeepsSchedule(w, move.tasks, move.idLess, taskId, due);
    } else if move.Complete? || move.Reopen? {
      var kept := Do(w, move).history;
      if c :| c in w.history && c.taskId == taskId {
        assert c in kept || c.completedAt < w.now - RETENTION;
      }
    }
  }

  lemma {:induction false} RunKeepsRelease(w: World, moves: seq<Move>, taskId: string, due: int)
    requires Scheduled(w, taskId, due) && Secure(w, taskId, due) && KeepsTask(moves, taskId)
    ensures Scheduled(After(w, moves), taskId, due) && Secure(After(w, moves), taskId, due)
    ensures Released(w, taskId) ==> Released(After(w, moves), taskId)
  {
    if moves != [] {
      var front, last := moves[..|moves| - 1], moves[|moves| - 1];
      RunKeepsRelease(w, front, taskId, due);
      StepKeepsRelease(After(w, front), last, taskId, due);
    }
  }

  /** No run, however it continues, takes a release back. */
  ghost predicate NeverReverts(w: World, taskId: string) {
    forall a, b | KeepsTask(a, taskId) && KeepsTask(b, taskId) && Released(After(w, a), taskId) ::
      Released(After(After(w, a), b), taskId)
  }

  /** For a task just scheduled and not yet done, release is permanent in every run exactly when its first due
      date lies within the history's retention. */
  lemma ReleaseIsPermanentWithinRetention(w: World, taskId: string, due: int)
    requires Scheduled(w, taskId, due) && !HasHistory(w.history, taskId)
    ensures NeverReverts(w, taskId) <==> due <= w.now + RETENTION + 1
  {
    if due <= w.now + RETENTION + 1 {
      forall a, b | KeepsTask(a, taskId) && KeepsTask(b, taskId) && Released(After(w, a), taskId)
        ensures Released(After(After(w, a), b), taskId)
      {
        RunKeepsRelease(w, a, taskId, due);
        RunKeepsRelease(After(w, a), b, taskId, due);
      }
    } else {
      ForgottenCompletionRevertsRelease(w, taskId, due);
    }
  }

  lemma AfterOne(w: World, move: Move)
    ensures After(w, [move]) == Do(w, move)
  {
    assert [move][..0] == [] && After(w, []) == w;
  }

  lemma AfterTwo(w: World, first: Move, second: Move)
    ensures After(w, [first, second]) == Do(Do(w, first), second)
  {
    AfterOne(w, first);
    assert [first, second][..1] == [first];
  }

  /** A task done now is forgotten by the first prune after the retention. */
  lemma CompletionIsForgotten(w: World, taskId: string)
    requires !HasHistory(w.history, taskId)
    ensures var done := Do(w, Complete(taskId));
            && HasHistory(done.history, taskId)
            && !HasHistory(Do(Do(done, Wait(w.now + RETENTION + 1)), Reopen).history, taskId)
  {
    var done := Do(w, Complete(taskId));
    assert Completion(taskId, w.now) in done.history;
    var kept := Do(Do(done, Wait(w.now + RETENTION + 1)), Reopen).history;
    assert forall c | c in kept :: c in done.history && c.completedAt > w.now;
    assert forall c | c in done.history && c.taskId == taskId :: c == Completion(taskId, w.now);
  }

  lemma HeldBack(w: World, taskId: string, due: int)
    requires Scheduled(w, taskId, due) && !HasHistory(w.history, taskId) && due > w.now
    ensures !Released(w, taskId)
  {
    assert EntryOf(Entries(w), taskId).value.firstDueAt == due;
  }

  lemma KeepsTaskWithoutLoads(moves: seq<Move>, taskId: string)
    requires forall i | 0 <= i < |moves| :: !moves[i].Load?
    ensures KeepsTask(moves, taskId)
  {
  }

  /** The failing family: done at once, and forgotten before the first due date. */
  lemma ForgottenCompletionRevertsRelease(w: World, taskId: string, due: int)
    requires Scheduled(w, taskId, due) && !HasHistory(w.history, taskId) && due > w.now + RETENTION + 1
    ensures var a, b := [Complete(taskId)], [Wait(w.now + RETENTION + 1), Reopen];
            && KeepsTask(a, taskId) && KeepsTask(b, taskId)
            && Released(After(w, a), taskId) && !Released(After(After(w, a), b), taskId)
  {
    var done := Do(w, Complete(taskId));
    KeepsTaskWithoutLoads([Complete(taskId)], taskId);
    KeepsTaskWithoutLoads([Wait(w.now + RETENTION + 1), Reopen], taskId);
    AfterOne(w, Complete(taskId));
    AfterTwo(done, Wait(w.now + RETENTION + 1), Reopen);
    CompletionIsForgotten(w, taskId);
    HeldBack(Do(Do(done, Wait(w.now + RETENTION + 1)), Reopen), taskId, due);
  }

  /** The load that first schedules a task, with at most 105 deep tasks and real months, secures it. */
  lemma FirstLoadSecures(w: World, tasks: seq<Task>, idLess: (string, string) -> bool, task: Task)
    requires UniqueIds(tasks) && task in tasks && SensibleMonths(task) && IsInitiallyScheduled(task)
    requires |DeepTasks(tasks, idLess)| <= MAX_DEEP_INDEX + 1
    requires StoredEntry(Entries(w), task.id).None?
    ensures exists due ::
              Scheduled(Do(w, Load(tasks, idLess)), task.id, due) && Secure(Do(w, Load(tasks, idLess)), task.id, due)
  {
    var deep := DeepTasks(tasks, idLess);
    var e := EntryFor(task, Entries(w), deep, w.history, w.now).value;
    var next := Do(w, Load(tasks, idLess));
    EntryIsTheTasksOwn(tasks, Entries(w), deep, w.history, w.now, task);
    assert e == ScheduleEntry(task.id, e.firstDueAt);
    assert Scheduled(next, task.id, e.firstDueAt);
    FirstDueWithinRetention(task, w.now, DeepIndex(deep, task.id));
    assert Secure(next, task.id, e.firstDueAt);
  }

  /** Release is permanent: from the load that schedules a task, in every run that keeps it in the bank,
      once released it is released ever after, its completion pruned or not. */
  lemma ReleaseIsPermanent(w: World, tasks: seq<Task>, idLess: (string, string) -> bool, task: Task, a: seq<Move>,
                           b: seq<Move>)
    requires UniqueIds(tasks) && task in tasks && SensibleMonths(task) && IsInitiallyScheduled(task)
    requires |DeepTasks(tasks, idLess)| <= MAX_DEEP_INDEX + 1
    requires StoredEntry(Entries(w), task.id).None?
    requires KeepsTask(a, task.id) && KeepsTask(b, task.id)
    ensures var w' := After(Do(w, Load(tasks, idLess)), a);
            Released(w', task.id) ==> Released(After(w', b), task.id)
  {
    FirstLoadSecures(w, tasks, idLess, task);
    var start := Do(w, Load(tasks, idLess));
    var due :| Scheduled(start, task.id, due) && Secure(start, task.id, due);
    RunKeepsRelease(start, a, task.id, due);
    RunKeepsRelease(After(start, a), b, task.id, due);
  }
}
