/** The weekly recommender: the third due test, and the ranking of what is due. */
module Weekly {
  import opened Options
  import opened Sequences
  import opened Tasks
  import opened TaskHistory
  import opened Calendar
  import opened TaskSchedule
  import opened DueTests

  datatype Advice =
    | New(task: Task, score: real)
    | Due(task: Task, score: real, daysSinceCompletion: int, overdueDays: int)

  /** Here a repeat group counts as one activity, but a superseding card does not. */
  predicate CountsFor(task: Task, tasks: seq<Task>, c: Completion) {
    || c.taskId == task.id
    || (TruthyText(task.repeatGroup) &&
        var completed := TaskById(tasks, c.taskId);
        completed.Some? && completed.value.repeatGroup == task.repeatGroup)
  }

  function LatestActivity(task: Task, tasks: seq<Task>, history: seq<Completion>): int {
    LatestTime(Filter(history, (c: Completion) => CountsFor(task, tasks, c)))
  }

  predicate IsEligible(task: Task, schedule: seq<ScheduleEntry>, history: seq<Completion>, now: nat) {
    && Truthy(task.recurrenceDays)
    && (task.recommendationOnly || task.weeklyRecommendation)
    && InSeason(DateOf(now / MS_PER_DAY).month, task.activeMonths)
    && IsTaskReleased(task.id, schedule, history, now)
  }

  function PriorityBonus(task: Task): real {
    (if task.recommendationPriority.Some? then task.recommendationPriority.value else 0) as real / 100.0
  }

  function DaysBetween(from: int, to: int): real {
    (to - from) as real / MS_PER_DAY as real
  }

  function Consider(task: Task, tasks: seq<Task>, history: seq<Completion>, now: nat): Option<Advice>
    requires Truthy(task.recurrenceDays)
  {
    var latest := LatestActivity(task, tasks, history);
    if latest == 0 then Some(New(task, 2.0 + PriorityBonus(task)))
    else
      var days := DaysBetween(latest, now);
      var recurrence := task.recurrenceDays.value as real;
      var dueRatio := days / recurrence;
      if dueRatio < 1.0 then None
      else Some(Due(task, dueRatio + PriorityBonus(task), days.Floor, (days - recurrence).Floor))
  }

  function Candidates(some: seq<Task>, tasks: seq<Task>, history: seq<Completion>, now: nat,
                      schedule: seq<ScheduleEntry>): seq<Advice> {
    if some == [] then []
    else
      var front, task := Candidates(some[..|some| - 1], tasks, history, now, schedule), some[|some| - 1];
      if !IsEligible(task, schedule, history, now) then front
      else
        match Consider(task, tasks, history, now)
        case None => front
        case Some(a) => front + [a]
  }

  /** Highest score first; equal scores by id, in the order `idLess`. */
  function Ahead(idLess: (string, string) -> bool): (Advice, Advice) -> bool {
    (a: Advice, b: Advice) => a.score > b.score || (a.score == b.score && idLess(a.task.id, b.task.id))
  }

  function GetWeeklyRecommendations(tasks: seq<Task>, history: seq<Completion>, now: nat, schedule: seq<ScheduleEntry>,
                                    idLess: (string, string) -> bool): seq<Advice> {
    StableSort(Candidates(tasks, tasks, history, now, schedule), Ahead(idLess))
  }

  function GetWeeklyRecommendation(tasks: seq<Task>, history: seq<Completion>, now: nat, schedule: seq<ScheduleEntry>,
                                   idLess: (string, string) -> bool): Option<Advice> {
    var all := GetWeeklyRecommendations(tasks, history, now, schedule, idLess);
    if all == [] then None else Some(all[0])
  }

  lemma {:induction false} CandidatesAreConsidered(some: seq<Task>, tasks: seq<Task>, history: seq<Completion>,
                                                   now: nat, schedule: seq<ScheduleEntry>, a: Advice)
    ensures a in Candidates(some, tasks, history, now, schedule) <==>
            && a.task in some && IsEligible(a.task, schedule, history, now)
            && Consider(a.task, tasks, history, now) == Some(a)
  {
    if some != [] {
      assert some == some[..|some| - 1] + [some[|some| - 1]];
      CandidatesAreConsidered(some[..|some| - 1], tasks, history, now, schedule, a);
    }
  }

  lemma QuotientBelow(x: real, d: real, bound: real)
    requires d > 0.0
    ensures x / d < bound <==> x < bound * d
  {
    var q := x / d;
    assert q * d == x;
    if q < bound {
      assert (bound - q) * d > 0.0;
    } else {
      assert (q - bound) * d >= 0.0;
    }
  }

  lemma RatioBelowOne(span: int, recurrence: int)
    requires recurrence >= 1
    ensures (span as real / MS_PER_DAY as real) / recurrence as real < 1.0 <==> span < recurrence * MS_PER_DAY
  {
    QuotientBelow(span as real / MS_PER_DAY as real, recurrence as real, 1.0);
    QuotientBelow(span as real, MS_PER_DAY as real, recurrence as real);
  }

  ghost predicate Lists(advice: seq<Advice>, task: Task) {
    exists a | a in advice :: a.task == task
  }

  /** The newest completion that counts is recent exactly when some completion that counts is. */
  lemma LatestActivityIsRecent(task: Task, tasks: seq<Task>, history: seq<Completion>, now: nat, span: int)
    ensures var latest := LatestActivity(task, tasks, history);
            latest > 0 && now - latest < span <==>
            exists c | c in history && CountsFor(task, tasks, c) :: c.completedAt > 0 && now - c.completedAt < span
  {
    var counted := Filter(history, (c: Completion) => CountsFor(task, tasks, c));
    LatestTimeIsMaximum(counted);
    if c :| c in history && CountsFor(task, tasks, c) && c.completedAt > 0 && now - c.completedAt < span {
      assert c in counted;
    }
  }

  lemma ConsideredUnlessRecent(task: Task, tasks: seq<Task>, history: seq<Completion>, now: nat)
    requires task.recurrenceDays.Some? && task.recurrenceDays.value >= 1
    ensures Consider(task, tasks, history, now).None? <==>
            LatestActivity(task, tasks, history) > 0
            && now - LatestActivity(task, tasks, history) < task.recurrenceDays.value * MS_PER_DAY
  {
    LatestTimeIsMaximum(Filter(history, (c: Completion) => CountsFor(task, tasks, c)));
    RatioBelowOne(now - LatestActivity(task, tasks, history), task.recurrenceDays.value);
  }

  /** The recommender's rule in words: an eligible task is listed exactly when nothing that counts for it
      was completed within its recurrence. */
  lemma ListedWhenNothingRecent(task: Task, tasks: seq<Task>, history: seq<Completion>, now: nat,
                                schedule: seq<ScheduleEntry>, idLess: (string, string) -> bool)
    requires task in tasks && IsEligible(task, schedule, history, now) && task.recurrenceDays.value >= 1
    ensures Lists(GetWeeklyRecommendations(tasks, history, now, schedule, idLess), task) <==>
            forall c | c in history && CountsFor(task, tasks, c) && c.completedAt > 0 ::
              now - c.completedAt >= task.recurrenceDays.value * MS_PER_DAY
  {
    ConsideredUnlessRecent(task, tasks, history, now);
    LatestActivityIsRecent(task, tasks, history, now, task.recurrenceDays.value * MS_PER_DAY);
    ConsideredMeansListed(task, tasks, history, now, schedule, idLess);
  }

  lemma ConsideredMeansListed(task: Task, tasks: seq<Task>, history: seq<Completion>, now: nat,
                              schedule: seq<ScheduleEntry>, idLess: (string, string) -> bool)
    requires task in tasks && IsEligible(task, schedule, history, now)
    ensures Lists(GetWeeklyRecommendations(tasks, history, now, schedule, idLess), task)
            <==> Consider(task, tasks, history, now).Some?
  {
    var candidates := Candidates(tasks, tasks, history, now, schedule);
    var considered := Consider(task, tasks, history, now);
    if considered.Some? {
      CandidatesAreConsidered(tasks, tasks, history, now, schedule, considered.value);
      SortKeepsMembers(candidates, Ahead(idLess), considered.value);
    }
    if a :| a in GetWeeklyRecommendations(tasks, history, now, schedule, idLess) && a.task == task {
      SortKeepsMembers(candidates, Ahead(idLess), a);
      CandidatesAreConsidered(tasks, tasks, history, now, schedule, a);
    }
  }

  lemma ListedMeansOffCooldown(task: Task, tasks: seq<Task>, history: seq<Completion>, now: nat,
                               schedule: seq<ScheduleEntry>, idLess: (string, string) -> bool)
    requires task in tasks && IsEligible(task, schedule, history, now) && task.recurrenceDays.value >= 1
    requires !TruthyText(task.repeatGroup)
    ensures Lists(GetWeeklyRecommendations(tasks, history, now, schedule, idLess), task)
            <==> !IsTaskOnCooldown(task.id, task.recurrenceDays.value * 24, history, now)
  {
    var hours := task.recurrenceDays.value * 24;
    assert hours * MS_PER_HOUR == task.recurrenceDays.value * MS_PER_DAY;
    assert forall c: Completion :: CountsFor(task, tasks, c) <==> c.taskId == task.id;
    ListedWhenNothingRecent(task, tasks, history, now, schedule, idLess);
    OnCooldownMeansRecentCompletion(task.id, hours, history, now);
  }

  /** The three due tests agree: an eligible recurring task that nothing else can stand in for is listed exactly
      when the max-based test has it off cooldown, and exactly when the planner's test does. */
  lemma DueTestsAgree(task: Task, tasks: seq<Task>, history: seq<Completion>, now: nat, schedule: seq<ScheduleEntry>,
                      idLess: (string, string) -> bool)
    requires UniqueIds(tasks) && task in tasks && StandsAlone(task, tasks, history)
    requires IsEligible(task, schedule, history, now) && task.recurrenceDays.value >= 1 && task.cooldownHours.None?
    requires forall c | c in history :: 0 < c.completedAt <= now
    ensures var listed := Lists(GetWeeklyRecommendations(tasks, history, now, schedule, idLess), task);
            && (listed <==> !IsTaskOnCooldown(task.id, CooldownFor(task), history, now))
            && (listed <==> !IsCoolingDown(task, tasks, history, now))
  {
    CooldownTestsAgree(task, tasks, history, now);
    ListedMeansOffCooldown(task, tasks, history, now, schedule, idLess);
  }

  /** The one recommendation shown is unbeaten: no listed task scores higher, and there is one whenever any task is
      due. */
  lemma RecommendationIsUnbeaten(tasks: seq<Task>, history: seq<Completion>, now: nat, schedule: seq<ScheduleEntry>,
                                 idLess: (string, string) -> bool)
    requires StrictWeakOrder(idLess)
    ensures SortedBy(GetWeeklyRecommendations(tasks, history, now, schedule, idLess), Ahead(idLess))
    ensures var all, top := GetWeeklyRecommendations(tasks, history, now, schedule, idLess),
              GetWeeklyRecommendation(tasks, history, now, schedule, idLess);
            && (top.None? <==> all == [])
            && (top.Some? ==> forall a | a in all :: a.score <= top.value.score)
  {
    var candidates := Candidates(tasks, tasks, history, now, schedule);
    AheadIsStrictWeak(idLess);
    StableSortIsSorted(candidates, Ahead(idLess));
    var all := GetWeeklyRecommendations(tasks, history, now, schedule, idLess);
    forall a | a in all
      ensures a.score <= all[0].score
    {
      var i :| 0 <= i < |all| && all[i] == a;
      assert i > 0 ==> !Ahead(idLess)(all[i], all[0]);
    }
  }

  lemma AheadIsStrictWeak(idLess: (string, string) -> bool)
    requires StrictWeakOrder(idLess)
    ensures StrictWeakOrder(Ahead(idLess))
  {
    var less := Ahead(idLess);
    forall a, b | less(a, b)
      ensures !less(b, a)
    {
      assert idLess(a.task.id, b.task.id) ==> !idLess(b.task.id, a.task.id);
    }
    forall a, b, c | !less(a, b) && !less(b, c)
      ensures !less(a, c)
    {
      assert !idLess(a.task.id, b.task.id) && !idLess(b.task.id, c.task.id) ==> !idLess(a.task.id, c.task.id);
    }
  }

  /** The dates shown with a due task are consistent: it is never overdue by a negative number of days. */
  lemma OverdueDaysAreConsistent(task: Task, tasks: seq<Task>, history: seq<Completion>, now: nat)
    requires Truthy(task.recurrenceDays) && task.recurrenceDays.value >= 1
    ensures match Consider(task, tasks, history, now)
            case Some(Due(_, _, since, overdue)) => overdue >= 0 && since == task.recurrenceDays.value + overdue
            case _ => true
  {
    var latest := LatestActivity(task, tasks, history);
    var days, recurrence := DaysBetween(latest, now), task.recurrenceDays.value;
    if latest != 0 && !(days / recurrence as real < 1.0) {
      assert days / recurrence as real >= 1.0;
      assert days >= recurrence as real;
      assert (days - recurrence as real).Floor == days.Floor - recurrence;
    }
  }
}
