/** What every plan keeps: capacity, conservation, one odour task, greedy maximality and balance. */
module PlanProofs {
  import opened Options
  import opened Sequences
  import opened Tasks
  import opened DueTests
  import opened Planner

  ghost predicate UniqueMembers(members: seq<Member>) {
    forall i, j | 0 <= i < j < |members| :: members[i].id != members[j].id
  }

  /** Participant ids are chosen once each: everyone chosen who is known and willing takes part, once, and nobody
      else. */
  lemma {:induction false} ParticipantsAreUnique(input: PlanInput, ids: seq<string>)
    requires Distinct(ids)
    ensures UniqueMembers(Participants(input, ids))
    ensures forall m | m in Participants(input, ids) :: m.id in ids && m in input.members && TakesPart(m)
    ensures forall id | id in ids && MemberById(input.members, id).Some?
            && TakesPart(MemberById(input.members, id).value) ::
              MemberById(input.members, id).value in Participants(input, ids)
  {
    if ids != [] {
      var front := ids[..|ids| - 1];
      assert ids == front + [ids[|ids| - 1]];
      ParticipantsAreUnique(input, front);
    }
  }

  // ----- the eligible tasks -----

  lemma EligibleMeansKept(input: PlanInput, t: Task)
    ensures t in EligibleTasks(input) <==> t in Kept(Candidates(input))
  {
    SortKeepsMembers(Kept(Candidates(input)), MoreUseful(input), t);
  }

  lemma EligibleTasksAreUnique(input: PlanInput)
    requires UniqueIds(input.tasks)
    ensures UniqueIds(EligibleTasks(input))
  {
    FilterKeepsDistinct(input.tasks, (t: Task) => IsCandidate(t, input));
    KeptAreDistinct(Candidates(input));
    var eligible := EligibleTasks(input);
    PermutationKeepsDistinct(Kept(Candidates(input)), eligible);
    forall i, j | 0 <= i < j < |eligible|
      ensures eligible[i].id != eligible[j].id
    {
      EligibleMeansKept(input, eligible[i]);
      EligibleMeansKept(input, eligible[j]);
      FindsItself(input.tasks, eligible[i]);
      FindsItself(input.tasks, eligible[j]);
    }
  }

  lemma KeptAreDistinct(candidates: seq<Task>)
    requires Distinct(candidates)
    ensures Distinct(Kept(candidates))
  {
    FilterKeepsDistinct(candidates, (t: Task) => !IsSuperseded(t.id, candidates));
  }

  /** The most useful card comes first: no eligible task scores above one placed before it. */
  lemma EligibleAreRanked(input: PlanInput, i: nat, j: nat)
    requires i < j < |EligibleTasks(input)|
    ensures SelectionScore(EligibleTasks(input)[i], input) >= SelectionScore(EligibleTasks(input)[j], input)
  {
    StableSortIsSorted(Kept(Candidates(input)), MoreUseful(input));
    assert !MoreUseful(input)(EligibleTasks(input)[j], EligibleTasks(input)[i]);
  }

  /** Ranking keeps the kept candidates, each once, and equally useful ones in the order of the bank. */
  lemma RankingKeepsTiesInOrder(input: PlanInput, x: real)
    ensures multiset(EligibleTasks(input)) == multiset(Kept(Candidates(input)))
    ensures Filter(EligibleTasks(input), ScoresExactly(input, x))
            == Filter(Kept(Candidates(input)), ScoresExactly(input, x))
  {
    StableSortIsStable(Kept(Candidates(input)), MoreUseful(input), ScoresExactly(input, x));
  }

  function ScoresExactly(input: PlanInput, x: real): Task -> bool {
    (t: Task) => SelectionScore(t, input) == x
  }

  // ----- one choice of member -----

  predicate CanTake(m: Member, task: Task, minutes: Loads, available: int) {
    Admissible(m, task) && Fits(m, task, minutes, available)
  }

  /** The chosen member can take the task and nobody who can has a higher score; none is chosen only if nobody can. */
  lemma PickIsBest(task: Task, members: seq<Member>, minutes: Loads, input: PlanInput)
    ensures PickMember(task, members, minutes, input).None? <==>
            forall m | m in members :: !CanTake(m, task, minutes, input.availableMinutes)
    ensures match PickMember(task, members, minutes, input)
            case None => true
            case Some(best) =>
              && best in members && CanTake(best, task, minutes, input.availableMinutes)
              && forall m | m in members && CanTake(m, task, minutes, input.availableMinutes) ::
                   MemberScore(m, task, minutes, input.rooms) <= MemberScore(best, task, minutes, input.rooms)
  {
    var suitable := Filter(members, CanTakeIt(task, minutes, input.availableMinutes));
    var less := BetterPlaced(task, minutes, input.rooms);
    SuitableMeansCanTake(task, members, minutes, input.availableMinutes);
    SortKeepsLength(suitable, less);
    assert forall m | m in members && CanTake(m, task, minutes, input.availableMinutes) :: m in suitable;
    if suitable != [] {
      SortHeadIsFirst(suitable, less);
      var best := StableSort(suitable, less)[0];
      assert forall m | m in suitable :: !less(m, best);
    }
  }

  function CanTakeIt(task: Task, minutes: Loads, available: int): Member -> bool {
    (m: Member) => CanTake(m, task, minutes, available)
  }

  lemma SuitableMeansCanTake(task: Task, members: seq<Member>, minutes: Loads, available: int)
    ensures Suitable(task, members, minutes, available) == Filter(members, CanTakeIt(task, minutes, available))
  {
    FilterTwice(members, (m: Member) => Admissible(m, task), (m: Member) => Fits(m, task, minutes, available),
                CanTakeIt(task, minutes, available));
  }

  /** Between members who would score the same, the one listed first gets the task. */
  lemma TiesGoToTheFirst(task: Task, members: seq<Member>, minutes: Loads, input: PlanInput) returns (k: nat)
    requires PickMember(task, members, minutes, input).Some?
    ensures k < |members| && PickMember(task, members, minutes, input) == Some(members[k])
    ensures forall i | 0 <= i < k && CanTake(members[i], task, minutes, input.availableMinutes) ::
              MemberScore(members[i], task, minutes, input.rooms) < MemberScore(members[k], task, minutes, input.rooms)
  {
    SuitableMeansCanTake(task, members, minutes, input.availableMinutes);
    var suits, less := CanTakeIt(task, minutes, input.availableMinutes), BetterPlaced(task, minutes, input.rooms);
    SortKeepsLength(Filter(members, suits), less);
    k := FirstOfBest(members, suits, less);
    forall i | 0 <= i < k && CanTake(members[i], task, minutes, input.availableMinutes)
      ensures less(members[k], members[i])
    {
      assert suits(members[i]);
    }
  }

  /** One turn of the loop either changes nothing or assigns the task to a member who can take it. */
  lemma Turn(tasks: seq<Task>, members: seq<Member>, input: PlanInput) returns (before: Progress, taker: Option<Member>)
    requires tasks != []
    ensures var task := tasks[|tasks| - 1];
            && before == After(tasks[..|tasks| - 1], members, input)
            && (taker.None? ==> After(tasks, members, input) == before)
            && (taker.Some? ==>
                  && taker.value in members && CanTake(taker.value, task, before.minutes, input.availableMinutes)
                  && !(task.category == Odor && before.odorTaskAssigned)
                  && After(tasks, members, input) == Assign(before, task, taker.value))
  {
    var task := tasks[|tasks| - 1];
    before := After(tasks[..|tasks| - 1], members, input);
    PickIsBest(task, members, before.minutes, input);
    taker := if task.category == Odor && before.odorTaskAssigned then None
             else PickMember(task, members, before.minutes, input);
  }

  // ----- the ledger -----

  predicate Has(assignments: seq<Assignment>, taskId: string) {
    exists a | a in assignments :: a.taskId == taskId
  }

  /** The assignment gives one of the tasks to a participant who may do it. */
  ghost predicate Gives(a: Assignment, tasks: seq<Task>, members: seq<Member>) {
    exists t, m :: t in tasks && m in members && t.id == a.taskId && m.id == a.memberId && Admissible(m, t)
  }

  /** Each assignment gives one of the tasks to a participant who may do it, and no task is given twice. */
  ghost predicate Ledger(p: Progress, tasks: seq<Task>, members: seq<Member>) {
    && (forall id :: id in p.assignedIds <==> Has(p.assignments, id))
    && (forall a | a in p.assignments :: Gives(a, tasks, members))
    && (forall i, j | 0 <= i < j < |p.assignments| :: p.assignments[i].taskId != p.assignments[j].taskId)
  }

  lemma {:induction false} LedgerIsKept(tasks: seq<Task>, members: seq<Member>, input: PlanInput)
    requires UniqueIds(tasks)
    ensures Ledger(After(tasks, members, input), tasks, members)
  {
    if tasks != [] {
      var front, task := tasks[..|tasks| - 1], tasks[|tasks| - 1];
      LedgerIsKept(front, members, input);
      var before, taker := Turn(tasks, members, input);
      assert front + [task] == tasks;
      LedgerTakesMoreTasks(before, front, members, task);
      if taker.Some? {
        AssigningExtendsLedger(before, tasks, members, task, taker.value);
      }
    }
  }

  lemma NotYetGiven(p: Progress, tasks: seq<Task>, members: seq<Member>, task: Task)
    requires Ledger(p, tasks, members) && UniqueIds(tasks + [task])
    ensures !Has(p.assignments, task.id)
  {
    forall t | t in tasks
      ensures t.id != task.id
    {
      var i :| 0 <= i < |tasks| && tasks[i] == t;
      assert (tasks + [task])[i] == t && (tasks + [task])[|tasks|] == task;
    }
  }

  lemma LedgerTakesMoreTasks(p: Progress, tasks: seq<Task>, members: seq<Member>, task: Task)
    requires Ledger(p, tasks, members) && UniqueIds(tasks + [task])
    ensures Ledger(p, tasks + [task], members) && !Has(p.assignments, task.id)
  {
    NotYetGiven(p, tasks, members, task);
    forall a | a in p.assignments
      ensures Gives(a, tasks + [task], members)
    {
      var t, m :| t in tasks && m in members && t.id == a.taskId && m.id == a.memberId && Admissible(m, t);
      assert t in tasks + [task];
    }
  }

  lemma AssigningExtendsLedger(p: Progress, tasks: seq<Task>, members: seq<Member>, task: Task, member: Member)
    requires Ledger(p, tasks, members) && !Has(p.assignments, task.id)
    requires task in tasks && member in members && Admissible(member, task)
    ensures Ledger(Assign(p, task, member), tasks, members)
  {
    var a, after := NewAssignment(member, task), Assign(p, task, member);
    assert Gives(a, tasks, members);
    forall id
      ensures id in after.assignedIds <==> Has(after.assignments, id)
    {
      HasAppend(p.assignments, a, id);
    }
    assert forall b | b in p.assignments :: b.taskId != task.id;
  }

  lemma HasAppend(assignments: seq<Assignment>, a: Assignment, id: string)
    ensures Has(assignments + [a], id) <==> Has(assignments, id) || a.taskId == id
  {
    if b :| b in assignments && b.taskId == id {
      assert b in assignments + [a];
    }
    assert a in assignments + [a];
  }

  // ----- capacity and conservation -----

  predicate OwnedBy(a: Assignment, id: string) {
    a.memberId == id
  }

  /** A member's minutes, added up from the plan itself. */
  function MinutesOf(assignments: seq<Assignment>, tasks: seq<Task>, memberId: string): int {
    SumBy(Filter(assignments, (a: Assignment) => OwnedBy(a, memberId)), AssignedMinutes(tasks))
  }

  lemma MinutesOfAppend(assignments: seq<Assignment>, a: Assignment, tasks: seq<Task>, memberId: string)
    ensures MinutesOf(assignments + [a], tasks, memberId)
            == MinutesOf(assignments, tasks, memberId)
                + (if a.memberId == memberId then DurationOf(tasks, a.taskId) else 0)
  {
    var own := Filter(assignments, (x: Assignment) => OwnedBy(x, memberId));
    assert (assignments + [a])[..|assignments|] == assignments;
    assert (own + [a])[..|own|] == own;
  }

  /** The running table holds exactly the minutes of the assignments, and nobody exceeds the session. */
  lemma {:induction false} LoadsAreMinutes(tasks: seq<Task>, members: seq<Member>, input: PlanInput, m: Member)
    requires UniqueIds(input.tasks) && (forall t | t in tasks :: t in input.tasks)
    requires m in members && input.availableMinutes >= 0
    ensures var p := After(tasks, members, input);
            Load(p.minutes, m.id) == MinutesOf(p.assignments, input.tasks, m.id) <= input.availableMinutes
  {
    if tasks != [] {
      var front, task := tasks[..|tasks| - 1], tasks[|tasks| - 1];
      LoadsAreMinutes(front, members, input, m);
      var before, taker := Turn(tasks, members, input);
      if taker.Some? {
        MinutesOfAppend(before.assignments, NewAssignment(taker.value, task), input.tasks, m.id);
        FindsItself(input.tasks, task);
      }
    }
  }

  function LoadOf(minutes: Loads): Member -> int {
    (m: Member) => Load(minutes, m.id)
  }

  lemma {:induction false} RaisingOneLoad(members: seq<Member>, before: Loads, member: Member, task: Task)
    requires UniqueMembers(members)
    ensures SumBy(members, LoadOf(AddMinutes(before, member, task)))
            == SumBy(members, LoadOf(before))
                + (if exists m | m in members :: m.id == member.id then task.durationMinutes else 0)
  {
    if members != [] {
      var front, last := members[..|members| - 1], members[|members| - 1];
      RaisingOneLoad(front, before, member, task);
      assert members == front + [last];
      assert last.id == member.id ==> forall m | m in front :: m.id != member.id;
    }
  }

  lemma {:induction false} TotalIsSumOfLoads(tasks: seq<Task>, members: seq<Member>, input: PlanInput)
    requires UniqueIds(input.tasks) && (forall t | t in tasks :: t in input.tasks) && UniqueMembers(members)
    ensures var p := After(tasks, members, input);
            SumBy(p.assignments, AssignedMinutes(input.tasks)) == SumBy(members, LoadOf(p.minutes))
  {
    if tasks == [] {
      NoLoadsSumToZero(members, members);
    } else {
      var front, task := tasks[..|tasks| - 1], tasks[|tasks| - 1];
      TotalIsSumOfLoads(front, members, input);
      var before, taker := Turn(tasks, members, input);
      if taker.Some? {
        RaisingOneLoad(members, before.minutes, taker.value, task);
        SumByAppend(before.assignments, NewAssignment(taker.value, task), AssignedMinutes(input.tasks));
        FindsItself(input.tasks, task);
      }
    }
  }

  lemma {:induction false} NoLoadsSumToZero(some: seq<Member>, members: seq<Member>)
    ensures SumBy(some, LoadOf(NoMinutes(members))) == 0
  {
    if some != [] {
      NoLoadsSumToZero(some[..|some| - 1], members);
    }
  }

  // ----- the plan -----

  /** What the planner assumes of its inputs: unique task ids, each participant named once, a real session. */
  ghost predicate Sane(input: PlanInput) {
    UniqueIds(input.tasks) && Distinct(input.participantIds) && input.availableMinutes >= 0
  }

  lemma SanePlan(input: PlanInput)
    requires Sane(input)
    ensures UniqueIds(EligibleTasks(input)) && UniqueMembers(Members(input))
    ensures forall t | t in EligibleTasks(input) :: t in input.tasks && IsCandidate(t, input)
    ensures Ledger(Final(input), EligibleTasks(input), Members(input))
  {
    EligibleTasksAreUnique(input);
    ParticipantsAreUnique(input, input.participantIds);
    forall t | t in EligibleTasks(input)
      ensures t in input.tasks && IsCandidate(t, input)
    {
      EligibleMeansKept(input, t);
    }
    LedgerIsKept(EligibleTasks(input), Members(input), input);
  }

  /** Nobody is given more than the session, and the announced total is the sum over the participants. */
  lemma PlanStaysWithinCapacity(input: PlanInput)
    requires Sane(input)
    ensures var plan := PlanOf(input);
            && (forall m | m in Members(input) ::
                  0 <= MinutesOf(plan.assignments, input.tasks, m.id) <= input.availableMinutes)
            && plan.totalMinutes == SumBy(Members(input), MemberMinutes(plan.assignments, input.tasks))
  {
    SanePlan(input);
    var members, eligible := Members(input), EligibleTasks(input);
    forall m | m in members
      ensures MinutesOf(Final(input).assignments, input.tasks, m.id) == Load(Final(input).minutes, m.id)
              <= input.availableMinutes
      ensures MinutesOf(Final(input).assignments, input.tasks, m.id) >= 0
    {
      LoadsAreMinutes(eligible, members, input, m);
      MinutesAreNotNegative(Final(input).assignments, input.tasks, m.id);
    }
    TotalIsSumOfLoads(eligible, members, input);
    SumsAgree(members, LoadOf(Final(input).minutes), MemberMinutes(Final(input).assignments, input.tasks));
  }

  function MemberMinutes(assignments: seq<Assignment>, tasks: seq<Task>): Member -> int {
    (m: Member) => MinutesOf(assignments, tasks, m.id)
  }

  lemma {:induction false} SumsAgree(members: seq<Member>, f: Member -> int, g: Member -> int)
    requires forall m | m in members :: f(m) == g(m)
    ensures SumBy(members, f) == SumBy(members, g)
  {
    if members != [] {
      assert members == members[..|members| - 1] + [members[|members| - 1]];
      SumsAgree(members[..|members| - 1], f, g);
    }
  }

  lemma {:induction false} MinutesAreNotNegative(assignments: seq<Assignment>, tasks: seq<Task>, memberId: string)
    ensures MinutesOf(assignments, tasks, memberId) >= 0
  {
    if assignments != [] {
      var front, last := assignments[..|assignments| - 1], assignments[|assignments| - 1];
      MinutesAreNotNegative(front, tasks, memberId);
      MinutesOfAppend(front, last, tasks, memberId);
      assert assignments == front + [last];
    }
  }

  /** Every eligible task is either assigned or listed as unassigned, never both, never twice, and nothing else is. */
  lemma PlanPartitionsEligible(input: PlanInput)
    requires Sane(input)
    ensures var plan := PlanOf(input);
            && (forall t | t in EligibleTasks(input) ::
                  Has(plan.assignments, t.id) <==> t.id !in plan.unassignedTaskIds)
            && (forall a | a in plan.assignments :: exists t | t in EligibleTasks(input) :: t.id == a.taskId)
            && (forall id | id in plan.unassignedTaskIds :: exists t | t in EligibleTasks(input) :: t.id == id)
            && (forall i, j | 0 <= i < j < |plan.assignments| ::
                plan.assignments[i].taskId != plan.assignments[j].taskId)
            && Distinct(plan.unassignedTaskIds)
  {
    SanePlan(input);
    var eligible, ids := EligibleTasks(input), Final(input).assignedIds;
    var rest := NotAssigned(eligible, ids);
    UniqueFilter(eligible, (t: Task) => t.id !in ids);
    forall t | t in eligible
      ensures t.id in IdsOf(rest) <==> t.id !in ids
    {
      NotAssignedIds(eligible, ids, t);
    }
    forall a | a in Final(input).assignments
      ensures exists t | t in eligible :: t.id == a.taskId
    {
      assert Gives(a, eligible, Members(input));
    }
    forall id | id in IdsOf(rest)
      ensures exists t | t in eligible :: t.id == id
    {
      var i :| 0 <= i < |rest| && IdsOf(rest)[i] == id;
      assert rest[i] in rest;
    }
  }

  lemma NotAssignedIds(eligible: seq<Task>, ids: set<string>, t: Task)
    requires t in eligible
    ensures t.id in IdsOf(NotAssigned(eligible, ids)) <==> t.id !in ids
  {
    var rest := NotAssigned(eligible, ids);
    if t.id in IdsOf(rest) {
      var i :| 0 <= i < |rest| && IdsOf(rest)[i] == t.id;
      assert rest[i] in rest;
    }
    if t in rest {
      var i :| 0 <= i < |rest| && rest[i] == t;
      assert IdsOf(rest)[i] == t.id;
    }
  }

  lemma {:induction false} UniqueFilter(tasks: seq<Task>, p: Task -> bool)
    requires UniqueIds(tasks)
    ensures UniqueIds(Filter(tasks, p))
  {
    if tasks != [] {
      var front, last := tasks[..|tasks| - 1], tasks[|tasks| - 1];
      UniqueFilter(front, p);
      assert forall t | t in Filter(front, p) :: t in front && t.id != last.id;
    }
  }

  /** Every assigned task may be suggested now (released, in season, off cooldown, short enough), replaces and is
      replaced by no other, and is given to a participant who is an adult or may do it as a child. */
  lemma AssignedTasksAreSuitable(input: PlanInput, a: Assignment) returns (t: Task, m: Member)
    requires Sane(input) && a in PlanOf(input).assignments
    ensures t in input.tasks && t.id == a.taskId && IsCandidate(t, input)
    ensures !IsCoolingDown(t, input.tasks, input.completionHistory, input.now)
    ensures !IsSuperseded(t.id, Candidates(input))
    ensures m in input.members && m.id == a.memberId && m.id in input.participantIds
    ensures m.role == Adult || (m.willingToHelp && t.childFriendly)
  {
    SanePlan(input);
    ParticipantsAreUnique(input, input.participantIds);
    assert Gives(a, EligibleTasks(input), Members(input));
    t, m :| t in EligibleTasks(input) && m in Members(input) && t.id == a.taskId && m.id == a.memberId
        && Admissible(m, t);
    EligibleMeansKept(input, t);
  }

  // ----- one odour task -----

  ghost predicate IsOdor(tasks: seq<Task>, a: Assignment) {
    var t := TaskById(tasks, a.taskId);
    t.Some? && t.value.category == Odor
  }

  /** The flag is up exactly when an odour task is assigned, and no two are. */
  ghost predicate OdorFlag(flag: bool, assignments: seq<Assignment>, tasks: seq<Task>) {
    && (flag <==> exists i | 0 <= i < |assignments| :: IsOdor(tasks, assignments[i]))
    && (forall i, j | 0 <= i < j < |assignments| :: !(IsOdor(tasks, assignments[i]) && IsOdor(tasks, assignments[j])))
  }

  ghost predicate OdorFlagHolds(p: Progress, tasks: seq<Task>) {
    OdorFlag(p.odorTaskAssigned, p.assignments, tasks)
  }

  lemma AddingKeepsOdorFlag(flag: bool, assignments: seq<Assignment>, a: Assignment, tasks: seq<Task>)
    requires OdorFlag(flag, assignments, tasks) && !(IsOdor(tasks, a) && flag)
    ensures OdorFlag(flag || IsOdor(tasks, a), assignments + [a], tasks)
  {
    var longer := assignments + [a];
    if flag {
      var i :| 0 <= i < |assignments| && IsOdor(tasks, assignments[i]);
      assert IsOdor(tasks, longer[i]);
    }
    if IsOdor(tasks, a) {
      assert IsOdor(tasks, longer[|assignments|]);
    }
  }

  lemma AssigningKeepsOdorFlag(p: Progress, task: Task, member: Member, tasks: seq<Task>)
    requires OdorFlagHolds(p, tasks) && UniqueIds(tasks) && task in tasks
    requires !(task.category == Odor && p.odorTaskAssigned)
    ensures OdorFlagHolds(Assign(p, task, member), tasks)
  {
    FindsItself(tasks, task);
    AddingKeepsOdorFlag(p.odorTaskAssigned, p.assignments, NewAssignment(member, task), tasks);
  }

  lemma {:induction false} OdorFlagIsTrue(tasks: seq<Task>, members: seq<Member>, input: PlanInput)
    requires UniqueIds(input.tasks) && forall t | t in tasks :: t in input.tasks
    ensures OdorFlagHolds(After(tasks, members, input), input.tasks)
  {
    if tasks != [] {
      OdorFlagIsTrue(tasks[..|tasks| - 1], members, input);
      var before, taker := Turn(tasks, members, input);
      if taker.Some? {
        AssigningKeepsOdorFlag(before, tasks[|tasks| - 1], taker.value, input.tasks);
      }
    }
  }

  /** One source-removal action per plan is enough. */
  lemma AtMostOneOdorTask(input: PlanInput)
    requires Sane(input)
    ensures var plan := PlanOf(input);
            forall i, j | 0 <= i < j < |plan.assignments| ::
              !(IsOdor(input.tasks, plan.assignments[i]) && IsOdor(input.tasks, plan.assignments[j]))
  {
    SanePlan(input);
    OdorFlagIsTrue(EligibleTasks(input), Members(input), input);
  }

  // ----- greedy maximality -----

  /** Loads only grow, and an assigned odour task stays assigned. */
  lemma {:induction false} ProgressGrows(tasks: seq<Task>, n: nat, members: seq<Member>, input: PlanInput)
    requires n <= |tasks|
    ensures var earlier, later := After(tasks[..n], members, input), After(tasks, members, input);
            && (forall id :: Load(earlier.minutes, id) <= Load(later.minutes, id))
            && (earlier.odorTaskAssigned ==> later.odorTaskAssigned)
            && earlier.assignedIds <= later.assignedIds
    decreases |tasks|
  {
    if n == |tasks| {
      assert tasks[..n] == tasks;
    } else {
      var front := tasks[..|tasks| - 1];
      ProgressGrows(front, n, members, input);
      assert front[..n] == tasks[..n];
      var _, _ := Turn(tasks, members, input);
    }
  }

  /** A task left over at the end was passed over in its turn, for one of two reasons. */
  lemma LeftOverWasPassedOver(tasks: seq<Task>, i: nat, members: seq<Member>, input: PlanInput)
    requires i < |tasks| && tasks[i].id !in After(tasks, members, input).assignedIds
    ensures var before := After(tasks[..i], members, input);
            || (tasks[i].category == Odor && before.odorTaskAssigned)
            || forall m | m in members :: !CanTake(m, tasks[i], before.minutes, input.availableMinutes)
  {
    AfterNext(tasks, i, members, input);
    ProgressGrows(tasks, i + 1, members, input);
    PickIsBest(tasks[i], members, After(tasks[..i], members, input).minutes, input);
  }

  /** At the end of the plan, an eligible task is left over only if it is a second odour task, or fits in no
      admissible participant's remaining time. */
  lemma PlanIsMaximal(input: PlanInput, t: Task)
    requires Sane(input) && t in EligibleTasks(input) && t.id in PlanOf(input).unassignedTaskIds
    ensures var plan := PlanOf(input);
            || (t.category == Odor && exists a | a in plan.assignments :: IsOdor(input.tasks, a))
            || forall m | m in Members(input) && (m.role == Adult || t.childFriendly) ::
                 MinutesOf(plan.assignments, input.tasks, m.id) + t.durationMinutes > input.availableMinutes
  {
    SanePlan(input);
    var eligible, members := EligibleTasks(input), Members(input);
    var i :| 0 <= i < |eligible| && eligible[i] == t;
    assert t.id !in Final(input).assignedIds by { PlanPartitionsEligible(input); }
    LeftOverWasPassedOver(eligible, i, members, input);
    ProgressGrows(eligible, i, members, input);
    OdorFlagIsTrue(eligible, members, input);
    forall m | m in members
      ensures Load(Final(input).minutes, m.id) == MinutesOf(Final(input).assignments, input.tasks, m.id)
    {
      LoadsAreMinutes(eligible, members, input, m);
    }
  }

  // ----- balance -----

  function Longer(a: int, b: int): int { if a < b then b else a }

  /** The longest task assigned so far. */
  function Longest(assignments: seq<Assignment>, tasks: seq<Task>): int {
    if assignments == [] then 0
    else Longer(Longest(assignments[..|assignments| - 1], tasks),
        DurationOf(tasks, assignments[|assignments| - 1].taskId))
  }

  predicate SamePreferences(a: Member, b: Member) {
    && (forall r | r in a.preferredRoomIds :: r in b.preferredRoomIds)
    && forall r | r in b.preferredRoomIds :: r in a.preferredRoomIds
  }

  /** How much more than b, beyond one task, a may be given. Adults may outdo children without bound,
      since some work is for adults only. */
  function Slack(a: Member, b: Member): int
    requires a.role == b.role || a.role == Child
  {
    if a.role == b.role then (if SamePreferences(a, b) then 0 else 10) else 15
  }

  predicate Comparable(a: Member, b: Member) {
    a.role == b.role || a.role == Child
  }

  ghost predicate Balanced(p: Progress, members: seq<Member>, tasks: seq<Task>) {
    forall a, b | a in members && b in members && Comparable(a, b) ::
      Load(p.minutes, a.id) - Load(p.minutes, b.id) <= Longest(p.assignments, tasks) + Slack(a, b)
  }

  /** The bonuses that separate two scores never exceed the slack. */
  lemma BonusesAreBounded(a: Member, b: Member, task: Task, minutes: Loads, rooms: seq<Room>)
    requires Comparable(a, b)
    ensures MemberScore(a, task, minutes, rooms) + Load(minutes, a.id)
            <= MemberScore(b, task, minutes, rooms) + Load(minutes, b.id) + Slack(a, b)
  {
  }

  /** The chosen member was, up to the bonuses, among the least loaded of those compared with them. */
  lemma ChosenIsLeastLoaded(task: Task, members: seq<Member>, minutes: Loads, input: PlanInput, other: Member)
    requires PickMember(task, members, minutes, input).Some? && other in members
    requires Comparable(PickMember(task, members, minutes, input).value, other)
    ensures var chosen := PickMember(task, members, minutes, input).value;
            Load(minutes, chosen.id) <= Load(minutes, other.id) + Slack(chosen, other)
  {
    PickIsBest(task, members, minutes, input);
    var chosen := PickMember(task, members, minutes, input).value;
    if CanTake(other, task, minutes, input.availableMinutes) {
      BonusesAreBounded(chosen, other, task, minutes, input.rooms);
    }
  }

  lemma StepKeepsBalance(p: Progress, task: Task, members: seq<Member>, input: PlanInput)
    requires Balanced(p, members, input.tasks) && UniqueMembers(members) && UniqueIds(input.tasks)
             && task in input.tasks
    ensures Balanced(Planner.Consider(p, task, members, input), members, input.tasks)
  {
    var q := Planner.Consider(p, task, members, input);
    if q != p {
      var chosen := PickMember(task, members, p.minutes, input).value;
      FindsItself(input.tasks, task);
      assert q.assignments[..|p.assignments|] == p.assignments;
      assert Longest(q.assignments, input.tasks) == Longer(Longest(p.assignments, input.tasks), task.durationMinutes);
      forall a, b | a in members && b in members && Comparable(a, b)
        ensures Load(q.minutes, a.id) - Load(q.minutes, b.id) <= Longest(q.assignments, input.tasks) + Slack(a, b)
      {
        PickIsBest(task, members, p.minutes, input);
        if a.id == chosen.id {
          assert a == chosen;
          ChosenIsLeastLoaded(task, members, p.minutes, input, b);
        }
      }
    }
  }

  lemma {:induction false} BalanceIsKept(tasks: seq<Task>, members: seq<Member>, input: PlanInput)
    requires UniqueIds(input.tasks) && UniqueMembers(members) && forall t | t in tasks :: t in input.tasks
    ensures Balanced(After(tasks, members, input), members, input.tasks)
  {
    if tasks != [] {
      var front, task := tasks[..|tasks| - 1], tasks[|tasks| - 1];
      BalanceIsKept(front, members, input);
      StepKeepsBalance(After(front, members, input), task, members, input);
    }
  }

  /** After every step of the loop, two participants of the same role differ by at most the longest task assigned,
      plus 10 if their preferred rooms differ, and no child exceeds an adult by more than that task plus 15. */
  lemma PlanIsBalancedThroughout(input: PlanInput, n: nat)
    requires Sane(input) && n <= |EligibleTasks(input)|
    ensures Balanced(After(EligibleTasks(input)[..n], Members(input), input), Members(input), input.tasks)
  {
    SanePlan(input);
    BalanceIsKept(EligibleTasks(input)[..n], Members(input), input);
  }

  /** The finished plan, measured from its own assignments. */
  lemma PlanIsBalanced(input: PlanInput, a: Member, b: Member)
    requires Sane(input) && a in Members(input) && b in Members(input) && Comparable(a, b)
    ensures var plan := PlanOf(input);
            MinutesOf(plan.assignments, input.tasks, a.id) - MinutesOf(plan.assignments, input.tasks, b.id)
            <= Longest(plan.assignments, input.tasks) + Slack(a, b)
  {
    SanePlan(input);
    BalanceIsKept(EligibleTasks(input), Members(input), input);
    LoadsAreMinutes(EligibleTasks(input), Members(input), input, a);
    LoadsAreMinutes(EligibleTasks(input), Members(input), input, b);
  }
}
