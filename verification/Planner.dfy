/** The cleaning planner: candidates, supersession, scoring, and the greedy assignment loop. */
module Planner {
  import opened Options
  import opened Sequences
  import opened Tasks
  import opened TaskHistory
  import opened Calendar
  import opened TaskSchedule
  import opened DueTests

  datatype Freshness = Freshness(visible: real, hygiene: real, floor: real, odor: real)
  datatype Room = Room(id: string, visibilityWeight: real, freshness: Freshness, isPrivate: bool)
  datatype MemberRole = Adult | Child
  datatype Member = Member(id: string, role: MemberRole, willingToHelp: bool, preferredRoomIds: seq<string>)
  datatype Assignment = Assignment(id: string, taskId: string, memberId: string)
  datatype TaskPlan = TaskPlan(assignments: seq<Assignment>, unassignedTaskIds: seq<string>, totalMinutes: int)

  datatype PlanInput = PlanInput(
    mode: Mode,
    availableMinutes: int,
    participantIds: seq<string>,
    rooms: seq<Room>,
    tasks: seq<Task>,
    members: seq<Member>,
    completionHistory: seq<Completion>,
    now: nat,
    roomIds: Option<seq<string>>,
    initialSchedule: Option<seq<ScheduleEntry>>)

  // ----- who takes part, and which cards come into question -----

  function MemberById(members: seq<Member>, id: string): Option<Member> {
    Find(members, (m: Member) => m.id == id)
  }

  predicate TakesPart(member: Member) {
    member.role == Adult || member.willingToHelp
  }

  function Participants(input: PlanInput, ids: seq<string>): seq<Member> {
    if ids == [] then []
    else
      var front := Participants(input, ids[..|ids| - 1]);
      match MemberById(input.members, ids[|ids| - 1])
      case None => front
      case Some(member) => if TakesPart(member) then front + [member] else front
  }

  function Members(input: PlanInput): seq<Member> {
    Participants(input, input.participantIds)
  }

  /** A Map built from the rooms keeps the last of equal ids. */
  function RoomById(rooms: seq<Room>, id: string): Option<Room> {
    if rooms == [] then None
    else if rooms[|rooms| - 1].id == id then Some(rooms[|rooms| - 1])
    else RoomById(rooms[..|rooms| - 1], id)
  }

  predicate IsCandidate(task: Task, input: PlanInput) {
    var participantCount := |Members(input)|;
    && input.mode in task.modes
    && RoomById(input.rooms, task.roomId).Some?
    && (input.roomIds.Some? ==> task.roomId in input.roomIds.value)
    && InSeason(DateOf(input.now / MS_PER_DAY).month, task.activeMonths)
    && (input.initialSchedule.Some?
        ==> IsTaskReleased(task.id, input.initialSchedule.value, input.completionHistory, input.now))
    && !task.recommendationOnly
    && task.durationMinutes <= input.availableMinutes
    && (Truthy(task.minimumSessionMinutes) ==> input.availableMinutes >= task.minimumSessionMinutes.value)
    && (Truthy(task.minimumParticipants) ==> participantCount >= task.minimumParticipants.value)
    && (Truthy(task.maximumParticipants) ==> participantCount <= task.maximumParticipants.value)
    && !IsCoolingDown(task, input.tasks, input.completionHistory, input.now)
    && (input.mode == Guests && participantCount == 1 ==> task.maximumParticipants == Some(1))
  }

  function Candidates(input: PlanInput): seq<Task> {
    Filter(input.tasks, (t: Task) => IsCandidate(t, input))
  }

  /** `card` replaces `id`: it supersedes it or includes it. */
  predicate Replaces(card: Task, id: string) {
    id in card.supersedesTaskIds || id in card.includedTaskIds
  }

  predicate IsSuperseded(id: string, candidates: seq<Task>) {
    exists t | t in candidates :: Replaces(t, id)
  }

  function Kept(candidates: seq<Task>): seq<Task> {
    Filter(candidates, (t: Task) => !IsSuperseded(t.id, candidates))
  }

  // ----- scoring -----

  function CategoryWeight(mode: Mode, category: Category): real {
    match mode
    case Daily => (
      match category
      case Visible => 1.15 case Hygiene => 1.3 case Floor => 1.0 case Odor => 1.1
      case Laundry => 1.0 case Declutter => 0.5)
    case Weekend => (
      match category
      case Visible => 1.0 case Hygiene => 1.15 case Floor => 1.1 case Odor => 1.0
      case Laundry => 1.0 case Declutter => 0.8)
    case Guests => (
      match category
      case Visible => 2.2 case Hygiene => 1.8 case Floor => 1.2 case Odor => 0.5
      case Laundry => 0.0 case Declutter => 0.1)
    case DeclutterMode => (
      match category
      case Visible => 0.4 case Hygiene => 0.2 case Floor => 0.2 case Odor => 0.2
      case Laundry => 0.4 case Declutter => 2.5)
  }

  function Score(task: Task, mode: Mode, room: Room): real {
    var freshness := match task.category
      case Visible | Laundry | Declutter => room.freshness.visible
      case Hygiene => room.freshness.hygiene
      case Floor => room.freshness.floor
      case Odor => room.freshness.odor;
    var need := 1.0 - freshness;
    room.visibilityWeight * CategoryWeight(mode, task.category) * (1.0 + need) / task.durationMinutes as real
  }

  predicate IsUnfinishedKickstart(id: string, input: PlanInput) {
    var candidate := TaskById(input.tasks, id);
    candidate.Some? && candidate.value.firstUseDueImmediately && !HasHistory(input.completionHistory, id)
  }

  /** Candidates always have a room; without one there is nothing to score. */
  function SelectionScore(task: Task, input: PlanInput): real {
    var room := RoomById(input.rooms, task.roomId);
    if room.None? then 0.0
    else
      var depthBoost := if task.depth == Some(Deep) && input.availableMinutes >= 45 then 30.0 else 1.0;
      var kickstartIds := [task.id] + task.includedTaskIds;
      var hasUnfinishedKickstart := exists id | id in kickstartIds :: IsUnfinishedKickstart(id, input);
      var kickstartBoost := if hasUnfinishedKickstart then 16.0 else 1.0;
      var priorityBoost := if task.priorityBoost.Some? then task.priorityBoost.value else 1.0;
      Score(task, input.mode, room.value) * depthBoost * kickstartBoost * priorityBoost
  }

  function MoreUseful(input: PlanInput): (Task, Task) -> bool {
    (a: Task, b: Task) => SelectionScore(a, input) > SelectionScore(b, input)
  }

  function EligibleTasks(input: PlanInput): seq<Task> {
    StableSort(Kept(Candidates(input)), MoreUseful(input))
  }

  // ----- the assignment loop -----

  type Loads = map<string, int>

  function Load(minutes: Loads, id: string): int {
    if id in minutes then minutes[id] else 0
  }

  function MemberScore(member: Member, task: Task, minutes: Loads, rooms: seq<Room>): int {
    var room := RoomById(rooms, task.roomId);
    var isPrivate := room.Some? && room.value.isPrivate;
    var privateRoomBonus := if isPrivate && task.roomId in member.preferredRoomIds then 10 else 0;
    var adultBonus := if member.role == Adult && !isPrivate then 2 else 0;
    var childBonus := if member.role == Child && task.childFriendly && isPrivate then 5 else 0;
    privateRoomBonus + adultBonus + childBonus - Load(minutes, member.id)
  }

  predicate Admissible(member: Member, task: Task) {
    member.role == Adult || task.childFriendly
  }

  predicate Fits(member: Member, task: Task, minutes: Loads, available: int) {
    Load(minutes, member.id) + task.durationMinutes <= available
  }

  function Suitable(task: Task, members: seq<Member>, minutes: Loads, available: int): seq<Member> {
    Filter(Filter(members, (m: Member) => Admissible(m, task)), (m: Member) => Fits(m, task, minutes, available))
  }

  function BetterPlaced(task: Task, minutes: Loads, rooms: seq<Room>): (Member, Member) -> bool {
    (a: Member, b: Member) => MemberScore(a, task, minutes, rooms) > MemberScore(b, task, minutes, rooms)
  }

  function PickMember(task: Task, members: seq<Member>, minutes: Loads, input: PlanInput): Option<Member> {
    var sorted := StableSort(Suitable(task, members, minutes, input.availableMinutes),
        BetterPlaced(task, minutes, input.rooms));
    if sorted == [] then None else Some(sorted[0])
  }

  datatype Progress = Progress(assignments: seq<Assignment>, minutes: Loads, assignedIds: set<string>,
                               odorTaskAssigned: bool)

  function NoMinutes(members: seq<Member>): Loads {
    map m | m in members :: m.id := 0
  }

  function Start(members: seq<Member>): Progress {
    Progress([], NoMinutes(members), {}, false)
  }

  function NewAssignment(member: Member, task: Task): Assignment {
    Assignment(member.id + "-" + task.id, task.id, member.id)
  }

  function AddMinutes(minutes: Loads, member: Member, task: Task): Loads {
    minutes[member.id := Load(minutes, member.id) + task.durationMinutes]
  }

  function Assign(p: Progress, task: Task, member: Member): Progress {
    Progress(p.assignments + [NewAssignment(member, task)],
             AddMinutes(p.minutes, member, task),
             p.assignedIds + {task.id},
             p.odorTaskAssigned || task.category == Odor)
  }

  function Consider(p: Progress, task: Task, members: seq<Member>, input: PlanInput): Progress {
    if task.category == Odor && p.odorTaskAssigned then p
    else
      match PickMember(task, members, p.minutes, input)
      case None => p
      case Some(member) => Assign(p, task, member)
  }

  /** The loop's state after the given tasks. */
  function After(tasks: seq<Task>, members: seq<Member>, input: PlanInput): Progress {
    if tasks == [] then Start(members)
    else Consider(After(tasks[..|tasks| - 1], members, input), tasks[|tasks| - 1], members, input)
  }

  function Final(input: PlanInput): Progress {
    After(EligibleTasks(input), Members(input), input)
  }

  function DurationOf(tasks: seq<Task>, id: string): int {
    var task := TaskById(tasks, id);
    if task.Some? then task.value.durationMinutes else 0
  }

  function AssignedMinutes(tasks: seq<Task>): Assignment -> int {
    (a: Assignment) => DurationOf(tasks, a.taskId)
  }

  function NotAssigned(eligible: seq<Task>, assignedIds: set<string>): seq<Task> {
    Filter(eligible, (t: Task) => t.id !in assignedIds)
  }

  function IdsOf(tasks: seq<Task>): seq<string> {
    Transform(tasks, (t: Task) => t.id)
  }

  function PlanOf(input: PlanInput): TaskPlan {
    TaskPlan(Final(input).assignments,
             IdsOf(NotAssigned(EligibleTasks(input), Final(input).assignedIds)),
             SumBy(Final(input).assignments, AssignedMinutes(input.tasks)))
  }

  method BuildPlan(input: PlanInput) returns (plan: TaskPlan)
    ensures plan == PlanOf(input)
  {
    var members := Members(input);
    var eligible := EligibleTasks(input);
    var assignments, assignedTaskIds := AssignGreedily(eligible, members, input);
    plan := TaskPlan(assignments, IdsOf(NotAssigned(eligible, assignedTaskIds)),
        SumBy(assignments, AssignedMinutes(input.tasks)));
  }

  /** The loop over the eligible tasks, most useful first. */
  method AssignGreedily(eligible: seq<Task>, members: seq<Member>, input: PlanInput)
    returns (assignments: seq<Assignment>, assignedTaskIds: set<string>)
    ensures assignments == After(eligible, members, input).assignments
    ensures assignedTaskIds == After(eligible, members, input).assignedIds
  {
    assignments, assignedTaskIds := [], {};
    var minutesByMember := NoMinutes(members);
    var odorTaskAssigned := false;
    ghost var p := Start(members);
    for i := 0 to |eligible|
      invariant p == After(eligible[..i], members, input)
      invariant assignments == p.assignments && minutesByMember == p.minutes
      invariant assignedTaskIds == p.assignedIds && odorTaskAssigned == p.odorTaskAssigned
    {
      var task := eligible[i];
      AfterNext(eligible, i, members, input);
      p := Consider(p, task, members, input);
      if task.category == Odor && odorTaskAssigned {
        continue;
      }
      var member := PickMember(task, members, minutesByMember, input);
      if member.None? {
        continue;
      }
      assignments := assignments + [NewAssignment(member.value, task)];
      minutesByMember := AddMinutes(minutesByMember, member.value, task);
      assignedTaskIds := assignedTaskIds + {task.id};
      if task.category == Odor {
        odorTaskAssigned := true;
      }
    }
    assert eligible[..|eligible|] == eligible;
  }

  lemma AfterNext(tasks: seq<Task>, i: nat, members: seq<Member>, input: PlanInput)
    requires i < |tasks|
    ensures After(tasks[..i + 1], members, input)
            == Consider(After(tasks[..i], members, input), tasks[i], members, input)
  {
    assert tasks[..i + 1][..i] == tasks[..i];
  }
}
