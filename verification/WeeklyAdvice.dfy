/** What the weekly list says, told from the history: who is on it, with which score, and in which order. */
module WeeklyAdvice {
  import opened Options
  import opened Sequences
  import opened Tasks
  import opened TaskHistory
  import opened Calendar
  import opened TaskSchedule
  import opened Weekly
  import opened Suitability

  ghost predicate SharesGroup(a: Task, b: Task) {
    exists g :: g != "" && a.repeatGroup == Some(g) && b.repeatGroup == Some(g)
  }

  /** The completion is of the task itself, or of a task of the bank in its repeat group. */
  ghost predicate IsSameWork(c: Completion, task: Task, tasks: seq<Task>) {
    c.taskId == task.id || exists done | done in tasks :: done.id == c.taskId && SharesGroup(done, task)
  }

  lemma CountsMeansSameWork(task: Task, tasks: seq<Task>, c: Completion)
    requires UniqueIds(tasks)
    ensures CountsFor(task, tasks, c) <==> IsSameWork(c, task, tasks)
  {
    if done :| done in tasks && done.id == c.taskId && SharesGroup(done, task) {
      FindsItself(tasks, done);
    }
    if TruthyText(task.repeatGroup) && CountsFor(task, tasks, c) && c.taskId != task.id {
      var done := TaskById(tasks, c.taskId).value;
      assert task.repeatGroup == Some(task.repeatGroup.value);
      assert SharesGroup(done, task);
    }
  }

  // ----- who is on the list -----

  /** In season, released, and meant for the weekly advice. */
  ghost predicate IsAdvisable(task: Task, schedule: seq<ScheduleEntry>, history: seq<Completion>, now: nat) {
    && (task.recommendationOnly || task.weeklyRecommendation)
    && RunsInMonth(task, DateOf(now / MS_PER_DAY).month)
    && !HeldBack(task.id, schedule, history, now)
  }

  lemma EligibleMeansAdvisable(task: Task, schedule: seq<ScheduleEntry>, history: seq<Completion>, now: nat)
    requires OneEntryPerTask(schedule)
    ensures IsEligible(task, schedule, history, now)
            <==> IsAdvisable(task, schedule, history, now) && Truthy(task.recurrenceDays)
  {
    ReleasedExactly(task.id, schedule, history, now);
  }

  /** A task of the bank is on the list exactly when it recurs, is meant for it, in season and released, and no
      completion of the same work lies within its recurrence. */
  lemma ListedExactly(task: Task, tasks: seq<Task>, history: seq<Completion>, now: nat, schedule: seq<ScheduleEntry>,
                      idLess: (string, string) -> bool)
    requires UniqueIds(tasks) && task in tasks && OneEntryPerTask(schedule)
    requires forall days | task.recurrenceDays == Some(days) :: days >= 0
    requires forall c | c in history :: c.completedAt > 0
    ensures Lists(GetWeeklyRecommendations(tasks, history, now, schedule, idLess), task) <==>
            && IsAdvisable(task, schedule, history, now)
            && exists days :: task.recurrenceDays == Some(days) && days != 0
                 && forall c | c in history && IsSameWork(c, task, tasks) ::
                      now - c.completedAt >= days * MS_PER_DAY
  {
    EligibleMeansAdvisable(task, schedule, history, now);
    forall c | c in history
      ensures CountsFor(task, tasks, c) <==> IsSameWork(c, task, tasks)
    {
      CountsMeansSameWork(task, tasks, c);
    }
    if IsEligible(task, schedule, history, now) {
      ListedWhenNothingRecent(task, tasks, history, now, schedule, idLess);
    } else {
      ListedMeansEligible(task, tasks, history, now, schedule, idLess);
    }
  }

  lemma ListedMeansEligible(task: Task, tasks: seq<Task>, history: seq<Completion>, now: nat,
                            schedule: seq<ScheduleEntry>, idLess: (string, string) -> bool)
    ensures Lists(GetWeeklyRecommendations(tasks, history, now, schedule, idLess), task)
            ==> IsEligible(task, schedule, history, now)
  {
    if a :| a in GetWeeklyRecommendations(tasks, history, now, schedule, idLess) && a.task == task {
      ListedIsConsidered(tasks, history, now, schedule, idLess, a);
    }
  }

  lemma ListedIsConsidered(tasks: seq<Task>, history: seq<Completion>, now: nat, schedule: seq<ScheduleEntry>,
                           idLess: (string, string) -> bool, a: Advice)
    requires a in GetWeeklyRecommendations(tasks, history, now, schedule, idLess)
    ensures a.task in tasks && IsEligible(a.task, schedule, history, now)
    ensures Consider(a.task, tasks, history, now) == Some(a)
  {
    SortKeepsMembers(Candidates(tasks, tasks, history, now, schedule), Ahead(idLess), a);
    CandidatesAreConsidered(tasks, tasks, history, now, schedule, a);
  }

  // ----- the scores -----

  /** Hundredths of a point for a task's own priority. */
  function PriorityOf(task: Task): int {
    match task.recommendationPriority
    case Some(priority) => priority
    case None => 0
  }

  /** c is the latest completion of the same work. */
  ghost predicate IsLatest(c: Completion, task: Task, tasks: seq<Task>, history: seq<Completion>) {
    && c in history && IsSameWork(c, task, tasks)
    && forall d | d in history && IsSameWork(d, task, tasks) :: d.completedAt <= c.completedAt
  }

  lemma LatestActivityIsLatest(task: Task, tasks: seq<Task>, history: seq<Completion>)
    requires UniqueIds(tasks) && forall c | c in history :: c.completedAt > 0
    ensures LatestActivity(task, tasks, history) == 0 <==>
            forall c | c in history :: !IsSameWork(c, task, tasks)
    ensures LatestActivity(task, tasks, history) != 0 ==>
              exists c :: IsLatest(c, task, tasks, history) && c.completedAt == LatestActivity(task, tasks, history)
  {
    var counted := Filter(history, (c: Completion) => CountsFor(task, tasks, c));
    LatestTimeIsMaximum(counted);
    forall c | c in history
      ensures c in counted <==> IsSameWork(c, task, tasks)
    {
      CountsMeansSameWork(task, tasks, c);
    }
    if LatestActivity(task, tasks, history) != 0 {
      var c :| c in counted && c.completedAt == LatestActivity(task, tasks, history);
      assert IsLatest(c, task, tasks, history);
    }
  }

  lemma NewOrDue(task: Task, tasks: seq<Task>, history: seq<Completion>, now: nat, a: Advice)
    requires Truthy(task.recurrenceDays) && Consider(task, tasks, history, now) == Some(a)
    ensures a.task == task && (a.New? <==> LatestActivity(task, tasks, history) == 0)
    ensures a.New? ==> a.score == 2.0 + PriorityOf(task) as real / 100.0
    ensures a.Due? ==>
              var days := (now - LatestActivity(task, tasks, history)) as real / MS_PER_DAY as real;
              && a.score == days / task.recurrenceDays.value as real + PriorityOf(task) as real / 100.0
              && a.daysSinceCompletion == days.Floor
              && a.overdueDays == (days - task.recurrenceDays.value as real).Floor
  {
  }

  /** The latest completion lies `since` whole days back, `overdue` of them beyond the recurrence. */
  ghost predicate TellsDays(c: Completion, task: Task, now: int, since: int, overdue: int) {
    && since * MS_PER_DAY <= now - c.completedAt < (since + 1) * MS_PER_DAY
    && task.recurrenceDays == Some(since - overdue)
  }

  lemma WholeDaysAreTold(c: Completion, task: Task, now: int, since: int, overdue: int)
    requires task.recurrenceDays.Some?
    requires var days := (now - c.completedAt) as real / MS_PER_DAY as real;
             since == days.Floor && overdue == (days - task.recurrenceDays.value as real).Floor
    ensures TellsDays(c, task, now, since, overdue)
  {
    WholeDays(now - c.completedAt, task.recurrenceDays.value);
  }

  /** What an entry of the list says: new is what was never done; anything else tells the whole days since it was last
      done and the days beyond its recurrence. */
  lemma AdviceTellsTheDays(tasks: seq<Task>, history: seq<Completion>, now: nat, schedule: seq<ScheduleEntry>,
                           idLess: (string, string) -> bool, a: Advice)
    requires UniqueIds(tasks) && forall c | c in history :: c.completedAt > 0
    requires a in GetWeeklyRecommendations(tasks, history, now, schedule, idLess)
    ensures a.New? <==> forall c | c in history :: !IsSameWork(c, a.task, tasks)
    ensures a.Due? ==>
              exists c :: IsLatest(c, a.task, tasks, history)
                && TellsDays(c, a.task, now, a.daysSinceCompletion, a.overdueDays)
  {
    ListedIsConsidered(tasks, history, now, schedule, idLess, a);
    NewOrDue(a.task, tasks, history, now, a);
    LatestActivityIsLatest(a.task, tasks, history);
    if a.Due? {
      var c :| IsLatest(c, a.task, tasks, history) && c.completedAt == LatestActivity(a.task, tasks, history);
      WholeDaysAreTold(c, a.task, now, a.daysSinceCompletion, a.overdueDays);
    }
  }

  lemma WholeDays(span: int, recurrence: int)
    ensures var days := span as real / MS_PER_DAY as real;
            && days.Floor * MS_PER_DAY <= span < (days.Floor + 1) * MS_PER_DAY
            && (days - recurrence as real).Floor == days.Floor - recurrence
  {
    var days := span as real / MS_PER_DAY as real;
    assert days * MS_PER_DAY as real == span as real;
    assert days.Floor as real <= days < days.Floor as real + 1.0;
  }

  // ----- the order -----

  /** The list comes by falling score, equal scores by id. */
  lemma AdviceIsRanked(tasks: seq<Task>, history: seq<Completion>, now: nat, schedule: seq<ScheduleEntry>,
                       idLess: (string, string) -> bool, i: nat, j: nat)
    requires StrictWeakOrder(idLess)
    requires i < j < |GetWeeklyRecommendations(tasks, history, now, schedule, idLess)|
    ensures var all := GetWeeklyRecommendations(tasks, history, now, schedule, idLess);
            || all[i].score > all[j].score
            || (all[i].score == all[j].score && !idLess(all[j].task.id, all[i].task.id))
  {
    RecommendationIsUnbeaten(tasks, history, now, schedule, idLess);
    var all := GetWeeklyRecommendations(tasks, history, now, schedule, idLess);
    assert !Ahead(idLess)(all[j], all[i]);
  }

  /** The time since the completion is `urgency` times the recurrence. */
  ghost predicate HasRun(c: Completion, task: Task, now: int, urgency: real) {
    exists days :: days != 0 && task.recurrenceDays == Some(days)
      && urgency * (days * MS_PER_DAY) as real == (now - c.completedAt) as real
  }

  /** How many times over its recurrence the time since the latest completion has run, new tasks counting as twice. */
  ghost predicate HasUrgency(a: Advice, tasks: seq<Task>, history: seq<Completion>, now: int, urgency: real) {
    if a.New? then urgency == 2.0
    else exists c :: IsLatest(c, a.task, tasks, history) && HasRun(c, a.task, now, urgency)
  }

  lemma RatioOfSpan(span: int, days: int)
    requires days != 0
    ensures span as real / MS_PER_DAY as real / days as real * (days * MS_PER_DAY) as real == span as real
  {
    var x := span as real / MS_PER_DAY as real;
    var q := x / days as real;
    assert q * days as real == x;
    assert x * MS_PER_DAY as real == span as real;
    assert q * (days * MS_PER_DAY) as real == q * days as real * MS_PER_DAY as real;
  }

  lemma RatioHasRun(c: Completion, task: Task, now: int, urgency: real)
    requires Truthy(task.recurrenceDays)
    requires urgency == (now - c.completedAt) as real / MS_PER_DAY as real / task.recurrenceDays.value as real
    ensures HasRun(c, task, now, urgency)
  {
    RatioOfSpan(now - c.completedAt, task.recurrenceDays.value);
    assert task.recurrenceDays == Some(task.recurrenceDays.value);
  }

  /** The score is the urgency and, in hundredths, the task's own priority: an overdue task passes an equally important
      new one once it has been left for more than twice its recurrence. */
  lemma ScoreIsUrgency(tasks: seq<Task>, history: seq<Completion>, now: nat, schedule: seq<ScheduleEntry>,
                       idLess: (string, string) -> bool, a: Advice)
    requires UniqueIds(tasks) && forall c | c in history :: c.completedAt > 0
    requires a in GetWeeklyRecommendations(tasks, history, now, schedule, idLess)
    ensures HasUrgency(a, tasks, history, now, a.score - PriorityOf(a.task) as real / 100.0)
  {
    ListedIsConsidered(tasks, history, now, schedule, idLess, a);
    NewOrDue(a.task, tasks, history, now, a);
    LatestActivityIsLatest(a.task, tasks, history);
    if a.Due? {
      var c :| IsLatest(c, a.task, tasks, history) && c.completedAt == LatestActivity(a.task, tasks, history);
      RatioHasRun(c, a.task, now, a.score - PriorityOf(a.task) as real / 100.0);
    }
  }
}
