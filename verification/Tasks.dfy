/** The planner's task record and its cooldown, shared by planning, history, schedule and weekly advice. */
module Tasks {
  import opened Options
  import opened Sequences

  datatype Category = Visible | Hygiene | Floor | Odor | Laundry | Declutter
  datatype Mode = Daily | Weekend | Guests | DeclutterMode
  datatype Depth = Quick | Standard | Deep

  /** Durations are positive whole minutes. */
  type Minutes = m: int | m > 0 witness 1

  /** Absent lists read as empty lists, as the source does at every use. */
  datatype Task = Task(
    id: string,
    roomId: string,
    category: Category,
    durationMinutes: Minutes,
    modes: seq<Mode>,
    childFriendly: bool,
    minimumSessionMinutes: Option<int>,
    minimumParticipants: Option<int>,
    maximumParticipants: Option<int>,
    depth: Option<Depth>,
    supersedesTaskIds: seq<string>,
    includedTaskIds: seq<string>,
    priorityBoost: Option<real>,
    cooldownHours: Option<int>,
    repeatGroup: Option<string>,
    recommendationOnly: bool,
    recurrenceDays: Option<int>,
    recommendationPriority: Option<int>,
    bundleKey: Option<string>,
    weeklyRecommendation: bool,
    firstUseDueImmediately: bool,
    activeMonths: Option<seq<int>>)

  /** JavaScript truthiness of an optional number and of an optional string. */
  predicate Truthy(n: Option<int>) {
    n.Some? && n.value != 0
  }

  predicate TruthyText(s: Option<string>) {
    s.Some? && s.value != ""
  }

  ghost predicate UniqueIds(tasks: seq<Task>) {
    forall i, j | 0 <= i < j < |tasks| :: tasks[i].id != tasks[j].id
  }

  function TaskById(tasks: seq<Task>, id: string): (r: Option<Task>)
    ensures r.Some? ==> r.value in tasks && r.value.id == id
    ensures r.None? <==> forall t | t in tasks :: t.id != id
  {
    Find(tasks, (t: Task) => t.id == id)
  }

  lemma FindsItself(tasks: seq<Task>, task: Task)
    requires UniqueIds(tasks) && task in tasks
    ensures TaskById(tasks, task.id) == Some(task)
  {
    assert task.id == task.id;
    var found := TaskById(tasks, task.id).value;
    var i :| 0 <= i < |tasks| && tasks[i] == task;
    var j :| 0 <= j < |tasks| && tasks[j] == found;
  }

  /** Hours before the same activity should be suggested again. */
  function CooldownFor(task: Task): int {
    if task.cooldownHours.Some? then task.cooldownHours.value
    else if task.recurrenceDays.Some? then task.recurrenceDays.value * 24
    else if task.depth == Some(Deep) then 7 * 24
    else if task.depth == Some(Quick) then 6
    else if task.category == Hygiene || task.category == Floor then 36
    else if task.category == Odor then 6
    else if task.category == Laundry then 12
    else 18
  }
}
