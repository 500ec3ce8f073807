/** When a task may be suggested at all, told from the bank, the rooms, the schedule and the history alone. */
module Suitability {
  import opened Options
  import opened Tasks
  import opened TaskHistory
  import opened Calendar
  import opened TaskSchedule
  import opened DueTests
  import opened Planner
  import opened PlanProofs
  import opened Ranking

  // ----- rest after a completion -----

  /** The hours a finished task rests: those it names, else its recurrence, else by depth and category. */
  function RestHours(t: Task): int {
    match t.cooldownHours
    case Some(hours) => hours
    case None =>
      match t.recurrenceDays
      case Some(days) => 24 * days
      case None =>
        match t.depth
        case Some(Deep) => 168
        case Some(Quick) => 6
        case _ =>
          match t.category
          case Hygiene | Floor => 36
          case Odor => 6
          case Laundry => 12
          case Visible | Declutter => 18
  }

  /** Doing `done` makes `t` superfluous for a while: it is t, is of its repeat group, or supersedes it. */
  ghost predicate Covers(done: Task, t: Task) {
    || done == t
    || (exists g | done.repeatGroup == Some(g) :: g != "" && t.repeatGroup == Some(g))
    || t.id in done.supersedesTaskIds
  }

  /** The completion c of `done` still makes t superfluous. */
  ghost predicate RestsAfter(t: Task, done: Task, c: Completion, now: int) {
    c.taskId == done.id && Covers(done, t) && now < c.completedAt + RestHours(done) * 3_600_000
  }

  lemma CooldownIsRest(t: Task)
    ensures CooldownFor(t) == RestHours(t)
  {
  }

  lemma BlocksMeansRests(t: Task, tasks: seq<Task>, c: Completion, now: int)
    requires UniqueIds(tasks) && t in tasks
    ensures Blocks(t, tasks, c, now) <==> exists done | done in tasks :: RestsAfter(t, done, c, now)
  {
    FindsItself(tasks, t);
    if done :| done in tasks && RestsAfter(t, done, c, now) {
      FindsItself(tasks, done);
      CooldownIsRest(done);
    }
    if Blocks(t, tasks, c, now) {
      var done := TaskById(tasks, c.taskId).value;
      CooldownIsRest(done);
      assert RestsAfter(t, done, c, now);
    }
  }

  /** A task of the bank cools down exactly while some finished task that covers it rests. */
  lemma CoolingDownExactly(t: Task, tasks: seq<Task>, history: seq<Completion>, now: int)
    requires UniqueIds(tasks) && t in tasks
    ensures IsCoolingDown(t, tasks, history, now)
            <==> exists c, done :: c in history && done in tasks && RestsAfter(t, done, c, now)
  {
    if c :| c in history && Blocks(t, tasks, c, now) {
      BlocksMeansRests(t, tasks, c, now);
    }
    if c, done :| c in history && done in tasks && RestsAfter(t, done, c, now) {
      BlocksMeansRests(t, tasks, c, now);
      assert Blocks(t, tasks, c, now);
    }
  }

  // ----- release -----

  /** Never done, and scheduled for later. */
  ghost predicate HeldBack(id: string, schedule: seq<ScheduleEntry>, history: seq<Completion>, now: int) {
    && (forall c | c in history :: c.taskId != id)
    && exists e | e in schedule :: e.taskId == id && now < e.firstDueAt
  }

  lemma ReleasedExactly(id: string, schedule: seq<ScheduleEntry>, history: seq<Completion>, now: int)
    requires OneEntryPerTask(schedule)
    ensures IsTaskReleased(id, schedule, history, now) <==> !HeldBack(id, schedule, history, now)
  {
  }

  lemma EntryCarriesTheId(t: Task, stored: seq<ScheduleEntry>, deep: seq<Task>, history: seq<Completion>, base: nat)
    ensures EntryFor(t, stored, deep, history, base).Some?
            ==> EntryFor(t, stored, deep, history, base).value.taskId == t.id
  {
  }

  lemma EntriesAreSingle(tasks: seq<Task>, stored: seq<ScheduleEntry>, deep: seq<Task>, history: seq<Completion>,
                         base: nat, a: ScheduleEntry, b: ScheduleEntry)
    requires UniqueIds(tasks) && a.taskId == b.taskId
    requires a in EntriesFor(tasks, stored, deep, history, base) && b in EntriesFor(tasks, stored, deep, history, base)
    ensures a == b
  {
    EntriesHoldExactly(tasks, stored, deep, history, base, a);
    var t :| t in tasks && EntryFor(t, stored, deep, history, base) == Some(a);
    EntryCarriesTheId(t, stored, deep, history, base);
    EntryIsTheTasksOwn(tasks, stored, deep, history, base, t);
    assert EntryFor(t, stored, deep, history, base) == Some(b);
  }

  /** A loaded schedule has at most one entry for any task. */
  lemma LoadedSchedulesAreSingle(tasks: seq<Task>, history: seq<Completion>, now: nat, stored: Option<StoredSchedule>,
                                 idLess: (string, string) -> bool)
    requires UniqueIds(tasks)
    ensures OneEntryPerTask(NextSchedule(tasks, history, now, stored, idLess).entries)
  {
    var kept, deep := if stored.Some? then stored.value.entries else [], DeepTasks(tasks, idLess);
    var entries := NextSchedule(tasks, history, now, stored, idLess).entries;
    forall a, b | a in entries && b in entries && a.taskId == b.taskId
      ensures a == b
    {
      EntriesAreSingle(tasks, kept, deep, history, now, a, b);
    }
  }

  // ----- candidates -----

  ghost predicate RunsInMonth(t: Task, month: int) {
    forall months | t.activeMonths == Some(months) :: month in months
  }

  /** The home has the task's room, and it lies in the focus area if there is one. */
  ghost predicate InFocus(t: Task, input: PlanInput) {
    && (exists room | room in input.rooms :: room.id == t.roomId)
    && forall focus | input.roomIds == Some(focus) :: t.roomId in focus
  }

  /** The session is long enough for the task and for what the task itself asks, a bound of 0 asking nothing. */
  ghost predicate LongEnough(t: Task, minutes: int) {
    && t.durationMinutes <= minutes
    && forall n | t.minimumSessionMinutes == Some(n) :: n == 0 || n <= minutes
  }

  /** The number of participants is within the task's bounds; guests met by one person alone call for tasks made for
      exactly one. */
  ghost predicate RightCompany(t: Task, mode: Mode, people: nat) {
    && (forall n | t.minimumParticipants == Some(n) :: n == 0 || n <= people)
    && (forall n | t.maximumParticipants == Some(n) :: n == 0 || people <= n)
    && (mode == Guests && people == 1 ==> t.maximumParticipants == Some(1))
  }

  ghost predicate Rests(t: Task, input: PlanInput) {
    exists c, done :: c in input.completionHistory && done in input.tasks && RestsAfter(t, done, c, input.now)
  }

  ghost predicate SaneSchedule(input: PlanInput) {
    forall schedule | input.initialSchedule == Some(schedule) :: OneEntryPerTask(schedule)
  }

  /** Suggested in this mode, in season, not reserved for the weekly advice, and not held back by the schedule. */
  ghost predicate IsDue(t: Task, input: PlanInput) {
    && input.mode in t.modes && RunsInMonth(t, DateOf(input.now / MS_PER_DAY).month) && !t.recommendationOnly
    && forall schedule | input.initialSchedule == Some(schedule) ::
         !HeldBack(t.id, schedule, input.completionHistory, input.now)
  }

  lemma RoomsAgree(t: Task, input: PlanInput)
    ensures RoomById(input.rooms, t.roomId).Some? <==> exists room | room in input.rooms :: room.id == t.roomId
  {
    RoomHasItsId(input.rooms, t.roomId);
  }

  /** A task of the bank comes into question exactly when it is due, in focus, fits the time and the company, and no
      finished task that covers it still rests. */
  lemma CandidateExactly(input: PlanInput, t: Task)
    requires UniqueIds(input.tasks) && t in input.tasks && SaneSchedule(input)
    ensures t in Candidates(input) <==>
            && IsDue(t, input) && InFocus(t, input) && LongEnough(t, input.availableMinutes)
            && RightCompany(t, input.mode, |Members(input)|) && !Rests(t, input)
  {
    RoomsAgree(t, input);
    CoolingDownExactly(t, input.tasks, input.completionHistory, input.now);
    if input.initialSchedule.Some? {
      ReleasedExactly(t.id, input.initialSchedule.value, input.completionHistory, input.now);
    }
  }

  /** An eligible task is a candidate that no candidate, not even itself, supersedes or includes. */
  lemma EligibleExactly(input: PlanInput, t: Task)
    ensures t in EligibleTasks(input) <==>
            && t in Candidates(input)
            && forall c | c in Candidates(input) :: t.id !in c.supersedesTaskIds && t.id !in c.includedTaskIds
  {
    EligibleMeansKept(input, t);
  }

  /** No plan assigns a task that is held back, out of season or focus, too long for the session, meant for another
      number of people, resting, or covered by a card that could have been suggested. */
  lemma NothingUnsuitableIsAssigned(input: PlanInput, a: Assignment) returns (t: Task)
    requires Sane(input) && SaneSchedule(input) && a in PlanOf(input).assignments
    ensures t in input.tasks && t.id == a.taskId
    ensures IsDue(t, input) && InFocus(t, input) && LongEnough(t, input.availableMinutes)
    ensures RightCompany(t, input.mode, |Members(input)|) && !Rests(t, input)
    ensures forall c | c in Candidates(input) :: t.id !in c.supersedesTaskIds && t.id !in c.includedTaskIds
  {
    var m;
    t, m := AssignedTasksAreSuitable(input, a);
    CandidateExactly(input, t);
  }
}
