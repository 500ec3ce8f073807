/** First-run release dates: the id hash, the first due date, the stored schedule and the release test. */
module TaskSchedule {
  import opened Options
  import opened Sequences
  import opened Tasks
  import opened TaskHistory
  import opened Calendar

  // ----- the 32-bit hash -----

  const TWO_31 := 0x8000_0000
  const TWO_32 := 0x1_0000_0000

  /** ToInt32 of ECMA-262, section 7.1.6, on integers. */
  function ToInt32(n: int): (r: int)
    ensures -TWO_31 <= r < TWO_31
  {
    var u := n % TWO_32;
    if u >= TWO_31 then u - TWO_32 else u
  }

  /** The left shift of ECMA-262 by five places. */
  function ShiftLeft5(n: int): int {
    ToInt32(ToInt32(n) * 32)
  }

  type CodeUnit = c: int | 0 <= c < 0x1_0000

  /** charCodeAt over a whole string: the UTF-16 encoding. */
  function CodeUnits(s: string): seq<CodeUnit> {
    if s == [] then []
    else
      var u := s[|s| - 1] as int;
      var front := CodeUnits(s[..|s| - 1]);
      if u < 0x1_0000 then front + [u]
      else front + [0xD800 + (u - 0x1_0000) / 0x400, 0xDC00 + (u - 0x1_0000) % 0x400]
  }

  predicate IsHighSurrogate(u: CodeUnit) { 0xD800 <= u < 0xDC00 }

  predicate IsLowSurrogate(u: CodeUnit) { 0xDC00 <= u < 0xE000 }

  function PairedPoint(high: int, low: int): int {
    0x1_0000 + (high - 0xD800) * 0x400 + (low - 0xDC00)
  }

  /** Reads UTF-16 back, from the end: a low surrogate belongs to the high surrogate before it. */
  function CodePoints(units: seq<CodeUnit>): seq<int> {
    if units == [] then []
    else
      var n, last := |units| - 1, units[|units| - 1];
      if n > 0 && IsHighSurrogate(units[n - 1]) && IsLowSurrogate(last)
      then CodePoints(units[..n - 1]) + [PairedPoint(units[n - 1], last)]
      else CodePoints(units[..n]) + [last]
  }

  function CodePoint(c: char): int {
    c as int
  }

  /** The code units are the UTF-16 encoding: read back, they are the characters. */
  lemma {:induction false} CodeUnitsReadBack(s: string)
    ensures CodePoints(CodeUnits(s)) == Transform(s, CodePoint)
  {
    if s != [] {
      var front, u := s[..|s| - 1], s[|s| - 1] as int;
      CodeUnitsReadBack(front);
      var units, before := CodeUnits(s), CodeUnits(front);
      if u < 0x1_0000 {
        assert units[..|before|] == before;
      } else {
        assert units[..|before|] == before && |units| == |before| + 2;
      }
    }
  }

  function Abs(n: int): nat { if n < 0 then -n else n }

  /** The base-31 polynomial of the code units, unbounded. */
  function Polynomial(units: seq<CodeUnit>): int {
    if units == [] then 0 else 31 * Polynomial(units[..|units| - 1]) + units[|units| - 1]
  }

  function StableHash(id: string): nat {
    Abs(ToInt32(Polynomial(CodeUnits(id))))
  }

  lemma ToInt32IsCongruent(n: int)
    ensures (ToInt32(n) - n) % TWO_32 == 0
  {
  }

  lemma ToInt32OfCongruent(a: int, b: int, k: int)
    requires a == b + k * TWO_32
    ensures ToInt32(a) == ToInt32(b)
  {
    assert a % TWO_32 == b % TWO_32;
  }

  /** One turn of the loop multiplies by 31 and adds, modulo 2^32. */
  lemma HashStep(hash: int, p: int, c: CodeUnit)
    requires hash == ToInt32(p)
    ensures ToInt32(ShiftLeft5(hash) - hash + c) == ToInt32(31 * p + c)
  {
    ToInt32IsCongruent(p);
    var k := (hash - p) / TWO_32;
    assert hash == p + k * TWO_32;
    assert ToInt32(hash) == hash;
    ToInt32IsCongruent(hash * 32);
    var m := (ShiftLeft5(hash) - hash * 32) / TWO_32;
    assert ShiftLeft5(hash) == hash * 32 + m * TWO_32;
    ToInt32OfCongruent(ShiftLeft5(hash) - hash + c, 31 * p + c, 31 * k + m);
  }

  /** The loop of the source computes the absolute signed 32-bit residue of the polynomial. */
  method ComputeStableHash(units: seq<CodeUnit>) returns (r: nat)
    ensures var hash := ToInt32(Polynomial(units)); r == if hash < 0 then -hash else hash
  {
    var hash := 0;
    for index := 0 to |units|
      invariant hash == ToInt32(Polynomial(units[..index]))
    {
      assert units[..index + 1][..index] == units[..index];
      HashStep(hash, Polynomial(units[..index]), units[index]);
      hash := ToInt32(ShiftLeft5(hash) - hash + units[index]);
    }
    assert units[..|units|] == units;
    r := Abs(hash);
  }

  // ----- the first due date -----

  datatype ScheduleEntry = ScheduleEntry(taskId: string, firstDueAt: int)

  predicate IsInitiallyScheduled(task: Task) {
    task.firstUseDueImmediately || Truthy(task.recurrenceDays) || (task.depth == Some(Deep) && !task.recommendationOnly)
  }

  /** Days from the release base to the hashed due date, before the season is considered. */
  function OffsetDays(task: Task): (n: nat)
    ensures 1 <= n <= 365
    ensures task.recurrenceDays.Some? && task.recurrenceDays.value >= 1 ==> n <= task.recurrenceDays.value
  {
    var recurrenceDays := if task.recurrenceDays.Some? then task.recurrenceDays.value else 42;
    var horizon := if recurrenceDays >= 365 then 365
                   else if recurrenceDays >= 180 then recurrenceDays
                   else if recurrenceDays < 42 then recurrenceDays else 42;
    var modulus := if horizon > 1 then horizon else 1;
    StableHash(task.id) % modulus + 1
  }

  /** The first due day, for a release base on day `today`. */
  function FirstDueDay(task: Task, today: nat, deepIndex: Option<nat>): nat {
    if task.firstUseDueImmediately then today
    else if deepIndex.Some? then today + deepIndex.value * 7
    else
      var day := today + OffsetDays(task);
      day + SeasonShift(DateOf(day), task.activeMonths)
  }

  function InitialDueDate(task: Task, base: nat, deepIndex: Option<nat>): nat {
    FirstDueDay(task, base / MS_PER_DAY, deepIndex) * MS_PER_DAY
  }

  predicate IsReal(m: int) { 1 <= m <= 12 }

  ghost predicate NamesRealMonth(months: seq<int>) {
    exists m | m in months :: IsReal(m)
  }

  /** With these months, the task first falls due in one of them. */
  ghost predicate FirstDueInMonths(task: Task, today: nat, deepIndex: Option<nat>, months: seq<int>) {
    DateOf(FirstDueDay(task.(activeMonths := Some(months)), today, deepIndex)).month in months
  }

  lemma ShiftedDayIsInSeason(day: nat, months: seq<int>)
    requires NamesRealMonth(months)
    ensures DateOf(day + SeasonShift(DateOf(day), Some(months))).month in months
  {
    var m :| m in months && IsReal(m);
    SeasonSearchSucceeds(DateOf(day), months, m);
    DaysLaterAdds(EPOCH, day, SeasonShift(DateOf(day), Some(months)));
  }

  lemma HashedDateIsInSeason(task: Task, today: nat, months: seq<int>)
    requires !task.firstUseDueImmediately && NamesRealMonth(months)
    ensures FirstDueInMonths(task, today, None, months)
  {
    ShiftedDayIsInSeason(today + OffsetDays(task.(activeMonths := Some(months))), months);
  }

  /** A task first falls due in season, whatever its months, exactly when its date is hashed: tasks due at once and deep
      tasks get their date without a look at the season. */
  lemma FirstDueIsInSeasonExactly(task: Task, today: nat, deepIndex: Option<nat>)
    ensures (forall months | NamesRealMonth(months) :: FirstDueInMonths(task, today, deepIndex, months))
            <==> !task.firstUseDueImmediately && deepIndex.None?
  {
    if !task.firstUseDueImmediately && deepIndex.None? {
      forall months | NamesRealMonth(months)
        ensures FirstDueInMonths(task, today, deepIndex, months)
      {
        HashedDateIsInSeason(task, today, months);
      }
    } else {
      var other := if DateOf(FirstDueDay(task, today, deepIndex)).month == 1 then 2 else 1;
      assert other in [other] && IsReal(other);
      assert NamesRealMonth([other]) && !FirstDueInMonths(task, today, deepIndex, [other]);
    }
  }

  /** The months list is absent, empty, or names a month that exists. */
  ghost predicate SensibleMonths(task: Task) {
    task.activeMonths.None? || task.activeMonths.value == [] || NamesRealMonth(task.activeMonths.value)
  }

  lemma SensibleShiftIsBounded(task: Task, d: Date)
    requires SensibleMonths(task) && Valid(d)
    ensures SeasonShift(d, task.activeMonths) <= 337
  {
    if task.activeMonths.Some? && task.activeMonths.value != [] {
      var m :| m in task.activeMonths.value && IsReal(m);
      SeasonSearchSucceeds(d, task.activeMonths.value, m);
    }
  }

  const MAX_DEEP_INDEX := 104

  lemma FirstDueDayIsNear(task: Task, today: nat, deepIndex: Option<nat>)
    requires SensibleMonths(task)
    ensures deepIndex.None? ==> FirstDueDay(task, today, deepIndex) <= today + 702
    ensures deepIndex.Some? ==> FirstDueDay(task, today, deepIndex) <= today + 7 * deepIndex.value
  {
    SensibleShiftIsBounded(task, DateOf(today + OffsetDays(task)));
  }

  /** No first due date lies beyond the history's retention: hashed dates are at most 702 days off,
      and a deep task's at most 728, its index permitting. */
  lemma FirstDueWithinRetention(task: Task, base: nat, deepIndex: Option<nat>)
    requires SensibleMonths(task)
    requires deepIndex.Some? ==> deepIndex.value <= MAX_DEEP_INDEX
    ensures InitialDueDate(task, base, deepIndex) <= base + 728 * MS_PER_DAY
    ensures deepIndex.None? ==> InitialDueDate(task, base, deepIndex) <= base + 702 * MS_PER_DAY
  {
    FirstDueDayIsNear(task, base / MS_PER_DAY, deepIndex);
  }

  /** With months that do not exist the search falls through, and the date still lies within the retention exactly up
      to an offset of 360 days, or of 361 in the last millisecond of a day. */
  lemma UnrealMonthsWithinRetention(task: Task, base: nat)
    requires !task.firstUseDueImmediately && !SensibleMonths(task)
    ensures InitialDueDate(task, base, None) <= base + RETENTION + 1
            <==> OffsetDays(task) <= 360 || (OffsetDays(task) == 361 && base % MS_PER_DAY == MS_PER_DAY - 1)
  {
    UnrealMonthsFallThrough(task, base / MS_PER_DAY);
    DaysWithinRetention(base, OffsetDays(task));
  }

  lemma UnrealMonthsFallThrough(task: Task, today: nat)
    requires !task.firstUseDueImmediately && !SensibleMonths(task)
    ensures FirstDueDay(task, today, None) == today + OffsetDays(task) + SEARCH_LIMIT
  {
    assert forall m | m in task.activeMonths.value :: !IsReal(m);
    SeasonSearchFallsThrough(DateOf(today + OffsetDays(task)), task.activeMonths.value);
  }

  lemma DaysWithinRetention(base: nat, n: nat)
    ensures (base / MS_PER_DAY + n + SEARCH_LIMIT) * MS_PER_DAY <= base + RETENTION + 1
            <==> n <= 360 || (n == 361 && base % MS_PER_DAY == MS_PER_DAY - 1)
  {
    var today, rest := base / MS_PER_DAY, base % MS_PER_DAY;
    assert base == today * MS_PER_DAY + rest;
  }

  /** The index bound is exact: the 106th deep task would fall due after its completion could be forgotten. */
  lemma DeepIndexBoundIsExact(task: Task, base: nat, index: nat)
    requires !task.firstUseDueImmediately
    ensures InitialDueDate(task, base, Some(index)) <= base + RETENTION + 1 <==> index <= MAX_DEEP_INDEX
  {
    var today := base / MS_PER_DAY;
    assert today * MS_PER_DAY <= base < (today + 1) * MS_PER_DAY;
  }

  // ----- the stored schedule -----

  /** localeCompare on ids, as the strict order `idLess`. */
  function DeepOrder(idLess: (string, string) -> bool): (Task, Task) -> bool {
    (a: Task, b: Task) =>
      var pa, pb := a.priorityBoost, b.priorityBoost;
      var x := if pa.Some? then pa.value else 1.0;
      var y := if pb.Some? then pb.value else 1.0;
      x > y || (x == y && idLess(a.id, b.id))
  }

  function DeepTasks(tasks: seq<Task>, idLess: (string, string) -> bool): seq<Task> {
    StableSort(Filter(tasks, (t: Task) => t.depth == Some(Deep) && !t.recommendationOnly), DeepOrder(idLess))
  }

  /** The position of an id in the deep order; a Map keeps the last of equal ids. */
  function DeepIndex(deep: seq<Task>, id: string): (r: Option<nat>)
    ensures r.Some? ==> r.value < |deep| && deep[r.value].id == id
    ensures r.None? <==> forall t | t in deep :: t.id != id
  {
    if deep == [] then None
    else
      assert deep == deep[..|deep| - 1] + [deep[|deep| - 1]];
      if deep[|deep| - 1].id == id then Some(|deep| - 1) else DeepIndex(deep[..|deep| - 1], id)
  }

  /** The last stored entry for an id, as a Map built from the list keeps it. */
  function StoredEntry(entries: seq<ScheduleEntry>, id: string): (r: Option<ScheduleEntry>)
    ensures r.Some? ==> r.value in entries && r.value.taskId == id
    ensures r.None? <==> forall e | e in entries :: e.taskId != id
  {
    if entries == [] then None
    else
      assert entries == entries[..|entries| - 1] + [entries[|entries| - 1]];
      if entries[|entries| - 1].taskId == id then Some(entries[|entries| - 1])
      else StoredEntry(entries[..|entries| - 1], id)
  }

  /** Of several stored entries for an id the last one counts. */
  lemma {:induction false} StoredEntryIsLast(entries: seq<ScheduleEntry>, id: string) returns (k: nat)
    requires StoredEntry(entries, id).Some?
    ensures k < |entries| && StoredEntry(entries, id) == Some(entries[k])
    ensures forall i | k < i < |entries| :: entries[i].taskId != id
  {
    var n := |entries| - 1;
    if entries[n].taskId == id {
      k := n;
    } else {
      k := StoredEntryIsLast(entries[..n], id);
    }
  }

  predicate HasHistory(history: seq<Completion>, taskId: string) {
    exists c | c in history :: c.taskId == taskId
  }

  /** The entry one task contributes: the stored one, none, due at once if it has history, or its first due date. */
  function EntryFor(task: Task, stored: seq<ScheduleEntry>, deep: seq<Task>, history: seq<Completion>,
                    base: nat): Option<ScheduleEntry> {
    var existing := StoredEntry(stored, task.id);
    if existing.Some? then existing
    else if !IsInitiallyScheduled(task) then None
    else if HasHistory(history, task.id) then Some(ScheduleEntry(task.id, base))
    else Some(ScheduleEntry(task.id, InitialDueDate(task, base, DeepIndex(deep, task.id))))
  }

  function EntriesFor(tasks: seq<Task>, stored: seq<ScheduleEntry>, deep: seq<Task>, history: seq<Completion>,
                      base: nat): seq<ScheduleEntry> {
    if tasks == [] then []
    else
      var front := EntriesFor(tasks[..|tasks| - 1], stored, deep, history, base);
      match EntryFor(tasks[|tasks| - 1], stored, deep, history, base)
      case None => front
      case Some(e) => front + [e]
  }

  datatype StoredSchedule = StoredSchedule(initializedAt: nat, entries: seq<ScheduleEntry>)

  /** The release base is the present either way: on a first run it is also recorded as the start. */
  function NextSchedule(tasks: seq<Task>, history: seq<Completion>, now: nat, stored: Option<StoredSchedule>,
                        idLess: (string, string) -> bool): StoredSchedule {
    var entries := if stored.Some? then stored.value.entries else [];
    StoredSchedule(if stored.Some? then stored.value.initializedAt else now,
                   EntriesFor(tasks, entries, DeepTasks(tasks, idLess), history, now))
  }

  /** The browser storage slot that holds the schedule. */
  class ScheduleStorage {
    var stored: Option<StoredSchedule>

    constructor ()
      ensures stored == None
    {
      stored := None;
    }

    method LoadOrCreateTaskSchedule(tasks: seq<Task>, history: seq<Completion>, now: nat,
                                    idLess: (string, string) -> bool) returns (entries: seq<ScheduleEntry>)
      modifies this
      ensures stored == Some(NextSchedule(tasks, history, now, old(stored), idLess))
      ensures entries == stored.value.entries
      ensures stored.value.initializedAt == if old(stored).Some? then old(stored).value.initializedAt else now
    {
      var initializedAt := if stored.Some? then stored.value.initializedAt else now;
      var releaseBase := if stored.Some? then now else initializedAt;
      var existing := if stored.Some? then stored.value.entries else [];
      var deep := DeepTasks(tasks, idLess);
      entries := [];
      for i := 0 to |tasks|
        invariant entries == EntriesFor(tasks[..i], existing, deep, history, releaseBase)
      {
        assert tasks[..i + 1][..i] == tasks[..i];
        var entry := EntryFor(tasks[i], existing, deep, history, releaseBase);
        if entry.Some? {
          entries := entries + [entry.value];
        }
      }
      assert tasks[..|tasks|] == tasks;
      stored := Some(StoredSchedule(initializedAt, entries));
    }
  }

  lemma {:induction false} EntriesHoldExactly(tasks: seq<Task>, stored: seq<ScheduleEntry>, deep: seq<Task>,
                                              history: seq<Completion>, base: nat, e: ScheduleEntry)
    ensures e in EntriesFor(tasks, stored, deep, history, base)
            <==> exists t | t in tasks :: EntryFor(t, stored, deep, history, base) == Some(e)
  {
    if tasks != [] {
      assert tasks == tasks[..|tasks| - 1] + [tasks[|tasks| - 1]];
      EntriesHoldExactly(tasks[..|tasks| - 1], stored, deep, history, base, e);
    }
  }

  /** With unique task ids, a task's entry in the result is the one it contributes. */
  lemma EntryIsTheTasksOwn(tasks: seq<Task>, stored: seq<ScheduleEntry>, deep: seq<Task>, history: seq<Completion>,
                           base: nat, task: Task)
    requires UniqueIds(tasks) && task in tasks
    ensures forall e: ScheduleEntry | e.taskId == task.id ::
              e in EntriesFor(tasks, stored, deep, history, base)
              <==> EntryFor(task, stored, deep, history, base) == Some(e)
  {
    forall e: ScheduleEntry | e.taskId == task.id
      ensures e in EntriesFor(tasks, stored, deep, history, base)
              <==> EntryFor(task, stored, deep, history, base) == Some(e)
    {
      EntriesHoldExactly(tasks, stored, deep, history, base, e);
      if t :| t in tasks && EntryFor(t, stored, deep, history, base) == Some(e) {
        FindsItself(tasks, t);
        FindsItself(tasks, task);
      }
    }
  }

  /** A reload keeps the stored entry of every task still in the bank, and adds no other for it. */
  lemma LoadingKeepsEntries(tasks: seq<Task>, history: seq<Completion>, now: nat, stored: StoredSchedule,
                            idLess: (string, string) -> bool, task: Task)
    requires UniqueIds(tasks) && task in tasks
    requires StoredEntry(stored.entries, task.id).Some?
    ensures forall e: ScheduleEntry | e.taskId == task.id ::
              e in NextSchedule(tasks, history, now, Some(stored), idLess).entries
              <==> e == StoredEntry(stored.entries, task.id).value
  {
    EntryIsTheTasksOwn(tasks, stored.entries, DeepTasks(tasks, idLess), history, now, task);
  }

  // ----- release -----

  function EntryOf(schedule: seq<ScheduleEntry>, taskId: string): (r: Option<ScheduleEntry>)
    ensures r.Some? ==> r.value in schedule && r.value.taskId == taskId
    ensures r.None? <==> forall e | e in schedule :: e.taskId != taskId
  {
    Find(schedule, (e: ScheduleEntry) => e.taskId == taskId)
  }

  predicate IsTaskReleased(taskId: string, schedule: seq<ScheduleEntry>, history: seq<Completion>, now: int) {
    || HasHistory(history, taskId)
    || EntryOf(schedule, taskId).None?
    || EntryOf(schedule, taskId).value.firstDueAt <= now
  }

  predicate SoonestFirst(a: ScheduleEntry, b: ScheduleEntry) {
    a.firstDueAt < b.firstDueAt
  }

  function NextScheduledRelease(schedule: seq<ScheduleEntry>, history: seq<Completion>,
                                now: int): Option<ScheduleEntry> {
    var waiting := Filter(schedule, (e: ScheduleEntry) => !HasHistory(history, e.taskId) && e.firstDueAt > now);
    var sorted := StableSort(waiting, SoonestFirst);
    if sorted == [] then None else Some(sorted[0])
  }

  ghost predicate OneEntryPerTask(schedule: seq<ScheduleEntry>) {
    forall a, b | a in schedule && b in schedule && a.taskId == b.taskId :: a == b
  }

  /** The announced next release agrees with the release test: it is the soonest task still held back,
      and there is none exactly when nothing is held back. */
  lemma NextReleaseAgrees(schedule: seq<ScheduleEntry>, history: seq<Completion>, now: int)
    requires OneEntryPerTask(schedule)
    ensures var next := NextScheduledRelease(schedule, history, now);
            next.None? <==> forall e | e in schedule :: IsTaskReleased(e.taskId, schedule, history, now)
    ensures var next := NextScheduledRelease(schedule, history, now);
            next.Some? ==>
              && !IsTaskReleased(next.value.taskId, schedule, history, now)
              && forall e | e in schedule && !IsTaskReleased(e.taskId, schedule, history, now) ::
                  next.value.firstDueAt <= e.firstDueAt
  {
    var waiting := Filter(schedule, (e: ScheduleEntry) => !HasHistory(history, e.taskId) && e.firstDueAt > now);
    forall e | e in schedule
      ensures e in waiting <==> !IsTaskReleased(e.taskId, schedule, history, now)
    {
      assert EntryOf(schedule, e.taskId) == Some(e);
    }
    if waiting != [] {
      assert waiting[0] in waiting;
      SortHeadIsFirst(waiting, SoonestFirst);
    }
  }
}
