/** How the first load spreads the bank over the coming weeks: hashed days, deep tasks a week apart, the rest at
    once. */
module Staggering {
  import opened Options
  import opened Sequences
  import opened Tasks
  import opened TaskHistory
  import opened Calendar
  import opened TaskSchedule

  // ----- the hashed days -----

  /** The days over which first due dates are spread: the recurrence, but six weeks for anything between that and half a
      year, or without a recurrence, and a year at most. */
  function Horizon(recurrenceDays: Option<int>): (n: nat)
    ensures 1 <= n <= 365
  {
    match recurrenceDays
    case None => 42
    case Some(days) =>
      if days < 1 then 1
      else if days <= 42 || 180 <= days <= 365 then days
      else if days < 180 then 42
      else 365
  }

  /** A task with another name. */
  function Renamed(task: Task, id: string): Task {
    task.(id := id)
  }

  /** What the hash loop returns for the code units of an id. */
  function HashOf(id: string): nat {
    var hash := ToInt32(Polynomial(CodeUnits(id)));
    if hash < 0 then -hash else hash
  }

  lemma OffsetIsHashWithinHorizon(task: Task)
    ensures 1 <= OffsetDays(task) <= Horizon(task.recurrenceDays)
    ensures OffsetDays(task) - 1 == HashOf(task.id) % Horizon(task.recurrenceDays)
  {
  }

  lemma OneLetterHash(n: nat)
    requires n < 0xD800
    ensures HashOf([n as char]) == n
  {
    var id := [n as char];
    assert id[..0] == [] && CodeUnits(id[..0]) == [];
    assert CodeUnits(id) == [] + [n] == [n];
    assert Polynomial([n]) == 31 * Polynomial([n][..0]) + n;
  }

  lemma SmallRemainder(n: nat, m: nat)
    requires n < m
    ensures n % m == n
  {
  }

  /** Every day of the horizon is the first due day of some task of that recurrence: one-letter ids reach them all. */
  lemma EveryDayIsHit(task: Task, n: nat)
    requires 1 <= n <= Horizon(task.recurrenceDays)
    ensures OffsetDays(Renamed(task, [(n - 1) as char])) == n
  {
    OneLetterHash(n - 1);
    OffsetIsHashWithinHorizon(Renamed(task, [(n - 1) as char]));
    SmallRemainder(n - 1, Horizon(task.recurrenceDays));
  }

  // ----- the first dates -----

  /** The midnight that begins the day of an instant. */
  function Midnight(now: nat): nat {
    now - now % MS_PER_DAY
  }

  lemma MidnightOfDay(now: nat, days: nat)
    ensures (now / MS_PER_DAY + days) * MS_PER_DAY == Midnight(now) + days * MS_PER_DAY
  {
  }

  ghost predicate Recurs(task: Task) {
    exists days :: task.recurrenceDays == Some(days) && days != 0
  }

  predicate IsDeep(task: Task) {
    task.depth == Some(Deep) && !task.recommendationOnly
  }

  /** Its date is hashed: it recurs and is neither to be done at once nor a deep task of ordinary sessions. */
  ghost predicate IsHashed(task: Task) {
    Recurs(task) && !task.firstUseDueImmediately && !IsDeep(task)
  }

  function EntriesIn(stored: Option<StoredSchedule>): seq<ScheduleEntry> {
    if stored.Some? then stored.value.entries else []
  }

  ghost predicate IsNewTo(stored: Option<StoredSchedule>, id: string) {
    forall e | e in EntriesIn(stored) :: e.taskId != id
  }

  /** The load gives the task this first due date. */
  ghost predicate FallsDue(tasks: seq<Task>, history: seq<Completion>, now: nat, stored: Option<StoredSchedule>,
                           idLess: (string, string) -> bool, task: Task, due: int) {
    ScheduleEntry(task.id, due) in NextSchedule(tasks, history, now, stored, idLess).entries
  }

  lemma FallsDueAsItsEntry(tasks: seq<Task>, history: seq<Completion>, now: nat, stored: Option<StoredSchedule>,
                           idLess: (string, string) -> bool, task: Task, due: int)
    requires UniqueIds(tasks) && task in tasks
    ensures FallsDue(tasks, history, now, stored, idLess, task, due)
            <==> EntryFor(task, EntriesIn(stored), DeepTasks(tasks, idLess), history, now)
                 == Some(ScheduleEntry(task.id, due))
  {
    EntryIsTheTasksOwn(tasks, EntriesIn(stored), DeepTasks(tasks, idLess), history, now, task);
  }

  lemma ScheduledExactly(task: Task)
    ensures IsInitiallyScheduled(task) <==> task.firstUseDueImmediately || Recurs(task) || IsDeep(task)
  {
    if Truthy(task.recurrenceDays) {
      assert task.recurrenceDays == Some(task.recurrenceDays.value);
    }
  }

  /** A task new to the schedule is given a date exactly when it recurs, is to be done at once, or is deep. */
  lemma NewTaskIsScheduledExactly(tasks: seq<Task>, history: seq<Completion>, now: nat, stored: Option<StoredSchedule>,
                                  idLess: (string, string) -> bool, task: Task)
    requires UniqueIds(tasks) && task in tasks && IsNewTo(stored, task.id)
    ensures (exists due :: FallsDue(tasks, history, now, stored, idLess, task, due))
            <==> task.firstUseDueImmediately || Recurs(task) || IsDeep(task)
  {
    ScheduledExactly(task);
    var entry := EntryFor(task, EntriesIn(stored), DeepTasks(tasks, idLess), history, now);
    if entry.Some? {
      FallsDueAsItsEntry(tasks, history, now, stored, idLess, task, entry.value.firstDueAt);
    }
    forall due | FallsDue(tasks, history, now, stored, idLess, task, due)
      ensures entry.Some?
    {
      FallsDueAsItsEntry(tasks, history, now, stored, idLess, task, due);
    }
  }

  lemma NewEntry(task: Task, kept: seq<ScheduleEntry>, deep: seq<Task>, history: seq<Completion>, now: nat, due: int)
    requires forall e | e in kept :: e.taskId != task.id
    requires EntryFor(task, kept, deep, history, now) == Some(ScheduleEntry(task.id, due))
    ensures HasHistory(history, task.id) ==> due == now
    ensures !HasHistory(history, task.id) ==>
              due == FirstDueDay(task, now / MS_PER_DAY, DeepIndex(deep, task.id)) * MS_PER_DAY
  {
  }

  /** The date of a task new to the schedule: the present if it was done before, otherwise its first due day. */
  lemma NewTaskFallsDue(tasks: seq<Task>, history: seq<Completion>, now: nat, stored: Option<StoredSchedule>,
                        idLess: (string, string) -> bool, task: Task, due: int)
    requires UniqueIds(tasks) && task in tasks && IsNewTo(stored, task.id)
    requires FallsDue(tasks, history, now, stored, idLess, task, due)
    ensures HasHistory(history, task.id) ==> due == now
    ensures !HasHistory(history, task.id) ==>
              due == FirstDueDay(task, now / MS_PER_DAY, DeepIndex(DeepTasks(tasks, idLess), task.id)) * MS_PER_DAY
  {
    FallsDueAsItsEntry(tasks, history, now, stored, idLess, task, due);
    NewEntry(task, EntriesIn(stored), DeepTasks(tasks, idLess), history, now, due);
  }

  lemma UrgentDay(task: Task, now: nat, deepIndex: Option<nat>)
    requires task.firstUseDueImmediately
    ensures FirstDueDay(task, now / MS_PER_DAY, deepIndex) * MS_PER_DAY == Midnight(now)
  {
    MidnightOfDay(now, 0);
  }

  /** What was done before is due at once, first-use work at the midnight just past. */
  lemma UrgentTaskFallsDue(tasks: seq<Task>, history: seq<Completion>, now: nat, stored: Option<StoredSchedule>,
                           idLess: (string, string) -> bool, task: Task, due: int)
    requires UniqueIds(tasks) && task in tasks && IsNewTo(stored, task.id)
    requires FallsDue(tasks, history, now, stored, idLess, task, due)
    ensures (exists c | c in history :: c.taskId == task.id) ==> due == now
    ensures (forall c | c in history :: c.taskId != task.id) && task.firstUseDueImmediately ==> due == Midnight(now)
  {
    NewTaskFallsDue(tasks, history, now, stored, idLess, task, due);
    if task.firstUseDueImmediately {
      UrgentDay(task, now, DeepIndex(DeepTasks(tasks, idLess), task.id));
    }
  }

  lemma DeepIndexOfOther(tasks: seq<Task>, idLess: (string, string) -> bool, task: Task)
    requires UniqueIds(tasks) && task in tasks
    ensures DeepIndex(DeepTasks(tasks, idLess), task.id).Some? <==> IsDeep(task)
    ensures DeepIndex(DeepTasks(tasks, idLess), task.id).Some? ==>
              var i := DeepIndex(DeepTasks(tasks, idLess), task.id).value;
              i < |DeepTasks(tasks, idLess)| && DeepTasks(tasks, idLess)[i] == task
  {
    var deep := DeepTasks(tasks, idLess);
    var chosen := Filter(tasks, (t: Task) => t.depth == Some(Deep) && !t.recommendationOnly);
    FindsItself(tasks, task);
    SortKeepsMembers(chosen, DeepOrder(idLess), task);
    var index := DeepIndex(deep, task.id);
    if index.Some? {
      SortKeepsMembers(chosen, DeepOrder(idLess), deep[index.value]);
      FindsItself(tasks, deep[index.value]);
    }
  }

  lemma HashedEntry(tasks: seq<Task>, history: seq<Completion>, now: nat, stored: Option<StoredSchedule>,
                    idLess: (string, string) -> bool, task: Task, due: int)
    requires UniqueIds(tasks) && task in tasks && IsNewTo(stored, task.id) && IsHashed(task)
    requires forall c | c in history :: c.taskId != task.id
    requires FallsDue(tasks, history, now, stored, idLess, task, due)
    ensures due == FirstDueDay(task, now / MS_PER_DAY, None) * MS_PER_DAY
  {
    NewTaskFallsDue(tasks, history, now, stored, idLess, task, due);
    DeepIndexOfOther(tasks, idLess, task);
  }

  /** A task without a season whose date is hashed, loaded for the first time, falls due one day after the midnight past
      for a hash that its horizon divides, and a day later for each unit of the remainder. */
  lemma HashedTaskFallsDue(tasks: seq<Task>, history: seq<Completion>, now: nat, stored: Option<StoredSchedule>,
                           idLess: (string, string) -> bool, task: Task, due: int)
    requires UniqueIds(tasks) && task in tasks && IsNewTo(stored, task.id) && IsHashed(task)
    requires (forall c | c in history :: c.taskId != task.id)
              && (task.activeMonths == None || task.activeMonths == Some([]))
    requires FallsDue(tasks, history, now, stored, idLess, task, due)
    ensures due == Midnight(now) + (HashOf(task.id) % Horizon(task.recurrenceDays) + 1) * MS_PER_DAY
  {
    HashedEntry(tasks, history, now, stored, idLess, task, due);
    OffsetIsHashWithinHorizon(task);
    MidnightOfDay(now, OffsetDays(task));
  }

  /** `day` is the first day from `from` on that lies in one of the months. */
  ghost predicate IsFirstInSeason(from: nat, day: nat, months: seq<int>) {
    && from <= day && DateOf(day).month in months
    && forall earlier: nat | from <= earlier < day :: DateOf(earlier).month !in months
  }

  lemma ShiftEndsInSeason(from: nat, months: seq<int>)
    requires NamesRealMonth(months)
    ensures IsFirstInSeason(from, from + SeasonShift(DateOf(from), Some(months)), months)
  {
    var m :| m in months && IsReal(m);
    SeasonSearchSucceeds(DateOf(from), months, m);
    var shift := SeasonShift(DateOf(from), Some(months));
    DaysLaterAdds(EPOCH, from, shift);
    forall earlier: nat | from <= earlier < from + shift
      ensures DateOf(earlier).month !in months
    {
      DaysLaterAdds(EPOCH, from, earlier - from);
    }
  }

  /** `day` is the first day in the task's season from its hashed day on. */
  ghost predicate IsSeasonalDay(task: Task, today: nat, day: nat)
    requires task.activeMonths.Some?
  {
    IsFirstInSeason(today + HashOf(task.id) % Horizon(task.recurrenceDays) + 1, day, task.activeMonths.value)
  }

  lemma SeasonalDay(task: Task, today: nat)
    requires !task.firstUseDueImmediately && task.activeMonths.Some? && NamesRealMonth(task.activeMonths.value)
    ensures IsSeasonalDay(task, today, FirstDueDay(task, today, None))
  {
    OffsetIsHashWithinHorizon(task);
    ShiftEndsInSeason(today + OffsetDays(task), task.activeMonths.value);
  }

  /** With a season, the date is that of the first day in season from the hashed day on. */
  lemma SeasonalTaskFallsDue(tasks: seq<Task>, history: seq<Completion>, now: nat, stored: Option<StoredSchedule>,
                             idLess: (string, string) -> bool, task: Task, due: int) returns (day: nat)
    requires UniqueIds(tasks) && task in tasks && IsNewTo(stored, task.id) && IsHashed(task)
    requires (forall c | c in history :: c.taskId != task.id)
    requires task.activeMonths.Some? && NamesRealMonth(task.activeMonths.value)
    requires FallsDue(tasks, history, now, stored, idLess, task, due)
    ensures due == day * MS_PER_DAY && IsSeasonalDay(task, now / MS_PER_DAY, day)
  {
    day := FirstDueDay(task, now / MS_PER_DAY, None);
    assert due == day * MS_PER_DAY by { HashedEntry(tasks, history, now, stored, idLess, task, due); }
    SeasonalDay(task, now / MS_PER_DAY);
  }

  // ----- deep tasks -----

  function BoostOf(task: Task): real {
    match task.priorityBoost
    case Some(boost) => boost
    case None => 1.0
  }

  /** The deep task a comes before b: it is boosted more, or as much and its id comes first. */
  predicate DeepBefore(a: Task, b: Task, idLess: (string, string) -> bool) {
    BoostOf(a) > BoostOf(b) || (BoostOf(a) == BoostOf(b) && idLess(a.id, b.id))
  }

  lemma DeepOrderIsBoost(a: Task, b: Task, idLess: (string, string) -> bool)
    ensures DeepOrder(idLess)(a, b) <==> DeepBefore(a, b, idLess)
  {
  }

  lemma DeepOrderIsStrictWeak(idLess: (string, string) -> bool)
    requires StrictWeakOrder(idLess)
    ensures StrictWeakOrder(DeepOrder(idLess))
  {
    var less := DeepOrder(idLess);
    forall a, b | less(a, b)
      ensures !less(b, a)
    {
      assert idLess(a.id, b.id) ==> !idLess(b.id, a.id);
    }
    forall a, b, c | !less(a, b) && !less(b, c)
      ensures !less(a, c)
    {
      assert !idLess(a.id, b.id) && !idLess(b.id, c.id) ==> !idLess(a.id, c.id);
    }
  }

  lemma DeepTasksAreSorted(tasks: seq<Task>, idLess: (string, string) -> bool)
    requires StrictWeakOrder(idLess)
    ensures SortedBy(DeepTasks(tasks, idLess), DeepOrder(idLess))
  {
    DeepOrderIsStrictWeak(idLess);
    StableSortIsSorted(Filter(tasks, (t: Task) => t.depth == Some(Deep) && !t.recommendationOnly), DeepOrder(idLess));
  }

  lemma DeepIndexFollowsBoost(tasks: seq<Task>, idLess: (string, string) -> bool, a: Task, b: Task)
    requires UniqueIds(tasks) && StrictWeakOrder(idLess) && a in tasks && b in tasks && IsDeep(a) && IsDeep(b)
    requires DeepBefore(a, b, idLess)
    ensures var deep := DeepTasks(tasks, idLess);
            && DeepIndex(deep, a.id).Some? && DeepIndex(deep, b.id).Some?
            && DeepIndex(deep, a.id).value < DeepIndex(deep, b.id).value
  {
    var deep := DeepTasks(tasks, idLess);
    DeepIndexOfOther(tasks, idLess, a);
    DeepIndexOfOther(tasks, idLess, b);
    DeepTasksAreSorted(tasks, idLess);
    DeepOrderIsStrictWeak(idLess);
    DeepOrderIsBoost(a, b, idLess);
    SortedPutsLessFirst(deep, DeepOrder(idLess), DeepIndex(deep, a.id).value, DeepIndex(deep, b.id).value);
  }

  lemma DeepDay(task: Task, now: nat, week: nat)
    requires !task.firstUseDueImmediately
    ensures FirstDueDay(task, now / MS_PER_DAY, Some(week)) * MS_PER_DAY == Midnight(now) + week * 7 * MS_PER_DAY
  {
    MidnightOfDay(now, week * 7);
  }

  /** Deep tasks fall due a week apart, from the midnight past: a whole number of weeks below the number of deep
      tasks. */
  lemma DeepTaskFallsDue(tasks: seq<Task>, history: seq<Completion>, now: nat, stored: Option<StoredSchedule>,
                         idLess: (string, string) -> bool, task: Task, due: int) returns (week: nat)
    requires UniqueIds(tasks) && task in tasks && IsNewTo(stored, task.id)
    requires IsDeep(task) && !task.firstUseDueImmediately && forall c | c in history :: c.taskId != task.id
    requires FallsDue(tasks, history, now, stored, idLess, task, due)
    ensures week < |Filter(tasks, IsDeep)| && due == Midnight(now) + week * 7 * MS_PER_DAY
    ensures DeepIndex(DeepTasks(tasks, idLess), task.id) == Some(week)
  {
    NewTaskFallsDue(tasks, history, now, stored, idLess, task, due);
    DeepIndexOfOther(tasks, idLess, task);
    week := DeepIndex(DeepTasks(tasks, idLess), task.id).value;
    DeepDay(task, now, week);
    DeepTasksAreCounted(tasks, idLess);
  }

  lemma DeepTasksAreCounted(tasks: seq<Task>, idLess: (string, string) -> bool)
    ensures |DeepTasks(tasks, idLess)| == |Filter(tasks, IsDeep)|
  {
    var chosen := Filter(tasks, (t: Task) => t.depth == Some(Deep) && !t.recommendationOnly);
    SortKeepsLength(chosen, DeepOrder(idLess));
    FilterAlike(tasks, (t: Task) => t.depth == Some(Deep) && !t.recommendationOnly, IsDeep);
  }

  lemma {:induction false} FilterAlike(tasks: seq<Task>, p: Task -> bool, q: Task -> bool)
    requires forall t :: p(t) == q(t)
    ensures Filter(tasks, p) == Filter(tasks, q)
  {
    if tasks != [] {
      FilterAlike(tasks[..|tasks| - 1], p, q);
    }
  }

  /** Of two deep tasks loaded together the one boosted more, or with the earlier id if they are boosted alike, falls
      due at least a week earlier. */
  lemma DeepTasksTakeTurns(tasks: seq<Task>, history: seq<Completion>, now: nat, stored: Option<StoredSchedule>,
                           idLess: (string, string) -> bool, a: Task, dueA: int, b: Task, dueB: int)
    requires UniqueIds(tasks) && StrictWeakOrder(idLess) && a in tasks && b in tasks
    requires IsNewTo(stored, a.id) && IsNewTo(stored, b.id)
    requires IsDeep(a) && !a.firstUseDueImmediately && IsDeep(b) && !b.firstUseDueImmediately
    requires forall c | c in history :: c.taskId != a.id && c.taskId != b.id
    requires FallsDue(tasks, history, now, stored, idLess, a, dueA)
    requires FallsDue(tasks, history, now, stored, idLess, b, dueB)
    requires DeepBefore(a, b, idLess)
    ensures dueB >= dueA + 7 * MS_PER_DAY
  {
    var weekA := DeepTaskFallsDue(tasks, history, now, stored, idLess, a, dueA);
    var weekB := DeepTaskFallsDue(tasks, history, now, stored, idLess, b, dueB);
    DeepIndexFollowsBoost(tasks, idLess, a, b);
    WeeksApart(Midnight(now), weekA, weekB);
  }

  lemma WeeksApart(midnight: nat, a: nat, b: nat)
    requires a < b
    ensures midnight + b * 7 * MS_PER_DAY >= midnight + a * 7 * MS_PER_DAY + 7 * MS_PER_DAY
  {
  }
}
