/** From assignments to the cards of a session: small tasks of one member and one bundle share a card. */
module DisplayPlan {
  import opened Options
  import opened Sequences
  import opened Tasks
  import opened Planner
  import opened PlanProofs

  /** A card, with the ids that finishing it records. `assignedTo` is the member whose name it shows. */
  datatype Card = Card(id: string, completionIds: seq<string>, minutes: int, assignedTo: Option<string>)

  datatype Entry = Entry(task: Task, assignment: Assignment)

  /** Assignments whose task the bank does not know are skipped. */
  function EntriesOf(assignments: seq<Assignment>, bank: seq<Task>): seq<Entry> {
    if assignments == [] then []
    else
      var front, a := EntriesOf(assignments[..|assignments| - 1], bank), assignments[|assignments| - 1];
      match TaskById(bank, a.taskId)
      case None => front
      case Some(task) => front + [Entry(task, a)]
  }

  function CardKey(e: Entry): string {
    if TruthyText(e.task.bundleKey) then e.assignment.memberId + ":" + e.task.bundleKey.value else e.assignment.id
  }

  function CardGroups(assignments: seq<Assignment>, bank: seq<Task>): seq<seq<Entry>> {
    Groups(EntriesOf(assignments, bank), CardKey)
  }

  function EntryMinutes(e: Entry): int {
    e.task.durationMinutes
  }

  function EntryId(e: Entry): string {
    e.task.id
  }

  function Join(ids: seq<string>, sep: char): string {
    if ids == [] then "" else if |ids| == 1 then ids[0] else ids[0] + [sep] + Join(ids[1..], sep)
  }

  /** The card of a single task, as the planner's bonus list uses it too. */
  function ToDisplayTask(task: Task, assignedTo: Option<string>): Card {
    Card(task.id, [task.id] + task.includedTaskIds, task.durationMinutes, assignedTo)
  }

  function ToCard(showNames: bool): seq<Entry> -> Card {
    (group: seq<Entry>) =>
      if group == [] then Card("", [], 0, None)
      else
        var assignedTo := if showNames then Some(group[0].assignment.memberId) else None;
        if |group| == 1 then ToDisplayTask(group[0].task, assignedTo)
        else
          var ids := Transform(group, EntryId);
          Card("bundle:" + Join(ids, '+'), ids, SumBy(group, EntryMinutes), assignedTo)
  }

  function CardsOf(assignments: seq<Assignment>, showNames: bool, bank: seq<Task>): seq<Card> {
    Transform(CardGroups(assignments, bank), ToCard(showNames))
  }

  method ToDisplayPlan(assignments: seq<Assignment>, showNames: bool, bank: seq<Task>) returns (cards: seq<Card>)
    ensures cards == CardsOf(assignments, showNames, bank)
  {
    var entries: seq<Entry> := [];
    for i := 0 to |assignments|
      invariant entries == EntriesOf(assignments[..i], bank)
    {
      assert assignments[..i + 1][..i] == assignments[..i];
      var task := TaskById(bank, assignments[i].taskId);
      if task.Some? {
        entries := entries + [Entry(task.value, assignments[i])];
      }
    }
    assert assignments[..|assignments|] == assignments;
    var groups := GroupInOrder(entries, CardKey);
    cards := Transform(groups, ToCard(showNames));
  }

  // ----- conservation -----

  function CardMinutes(c: Card): int {
    c.minutes
  }

  lemma {:induction false} EntriesKeepMinutes(assignments: seq<Assignment>, bank: seq<Task>)
    ensures SumBy(EntriesOf(assignments, bank), EntryMinutes) == SumBy(assignments, AssignedMinutes(bank))
  {
    if assignments != [] {
      var front, a := assignments[..|assignments| - 1], assignments[|assignments| - 1];
      EntriesKeepMinutes(front, bank);
      match TaskById(bank, a.taskId)
      case None =>
      case Some(task) => SumByAppend(EntriesOf(front, bank), Entry(task, a), EntryMinutes);
    }
  }

  lemma CardKeepsMinutes(group: seq<Entry>, showNames: bool)
    requires group != []
    ensures CardMinutes(ToCard(showNames)(group)) == SumOfGroup(EntryMinutes)(group)
  {
    if |group| == 1 {
      assert group == [group[0]] && SumBy(group, EntryMinutes) == EntryMinutes(group[0]);
    }
  }

  lemma GroupsAreNotEmpty(assignments: seq<Assignment>, bank: seq<Task>)
    ensures forall g | g in CardGroups(assignments, bank) :: g != []
  {
    var groups := CardGroups(assignments, bank);
    forall g | g in groups
      ensures g != []
    {
      var i :| 0 <= i < |groups| && groups[i] == g;
      GroupsAreFaithful(EntriesOf(assignments, bank), CardKey, i);
    }
  }

  /** The minutes on the cards are the minutes of the assignments. */
  lemma CardMinutesAddUp(assignments: seq<Assignment>, showNames: bool, bank: seq<Task>)
    ensures SumBy(CardsOf(assignments, showNames, bank), CardMinutes) == SumBy(assignments, AssignedMinutes(bank))
  {
    var groups := CardGroups(assignments, bank);
    GroupsAreNotEmpty(assignments, bank);
    forall g | g in groups
      ensures CardMinutes(ToCard(showNames)(g)) == SumOfGroup(EntryMinutes)(g)
    {
      CardKeepsMinutes(g, showNames);
    }
    SumByTransform(groups, ToCard(showNames), CardMinutes, SumOfGroup(EntryMinutes));
    GroupsKeepSum(EntriesOf(assignments, bank), CardKey, EntryMinutes);
    EntriesKeepMinutes(assignments, bank);
  }

  /** The announced total of a plan is the sum of the minutes on its cards. */
  lemma PlanTotalIsOnItsCards(input: PlanInput, showNames: bool)
    ensures SumBy(CardsOf(PlanOf(input).assignments, showNames, input.tasks), CardMinutes) == PlanOf(input).totalMinutes
  {
    CardMinutesAddUp(PlanOf(input).assignments, showNames, input.tasks);
  }

  /** Each assignment is of a task of the bank, and no two are of the same task. */
  ghost predicate OwnTasks(assignments: seq<Assignment>, bank: seq<Task>) {
    && (forall a | a in assignments :: TaskById(bank, a.taskId).Some?)
    && forall i, j | 0 <= i < j < |assignments| :: assignments[i].taskId != assignments[j].taskId
  }

  lemma PlanOwnsItsTasks(input: PlanInput)
    requires Sane(input)
    ensures OwnTasks(PlanOf(input).assignments, input.tasks)
  {
    PlanPartitionsEligible(input);
    forall a | a in PlanOf(input).assignments
      ensures TaskById(input.tasks, a.taskId).Some?
    {
      var t, _ := AssignedTasksAreSuitable(input, a);
      FindsItself(input.tasks, t);
    }
  }

  lemma {:induction false} EntriesMatchAssignments(assignments: seq<Assignment>, bank: seq<Task>)
    requires forall a | a in assignments :: TaskById(bank, a.taskId).Some?
    ensures |EntriesOf(assignments, bank)| == |assignments|
    ensures forall i | 0 <= i < |assignments| ::
              EntriesOf(assignments, bank)[i].assignment == assignments[i]
                  && TaskById(bank, assignments[i].taskId) == Some(EntriesOf(assignments, bank)[i].task)
  {
    if assignments != [] {
      assert assignments == assignments[..|assignments| - 1] + [assignments[|assignments| - 1]];
      EntriesMatchAssignments(assignments[..|assignments| - 1], bank);
    }
  }

  /** Every assignment is on exactly one card, and every card holds at least one. */
  lemma CardsPartitionAssignments(assignments: seq<Assignment>, bank: seq<Task>)
    requires OwnTasks(assignments, bank)
    ensures var entries, groups := EntriesOf(assignments, bank), CardGroups(assignments, bank);
            && |entries| == |assignments|
            && (forall i | 0 <= i < |entries| ::
                  entries[i].assignment == assignments[i] && entries[i].task.id == assignments[i].taskId)
            && multiset(Flatten(groups)) == multiset(entries)
            && forall g | g in groups :: g != []
  {
    EntriesMatchAssignments(assignments, bank);
    GroupsPartition(EntriesOf(assignments, bank), CardKey);
    GroupsAreNotEmpty(assignments, bank);
  }

  // ----- one member per card -----

  predicate Separator(c: char) {
    c == '-' || c == ':'
  }

  /** `longer` is `shorter`, a separator, and something more or nothing: the two can be mistaken in a card key. */
  predicate Extends(longer: string, shorter: string) {
    |shorter| < |longer| && longer[..|shorter|] == shorter && Separator(longer[|shorter|])
  }

  /** Two different member ids can yield one key, for some task or bundle names, exactly when one extends the other. */
  lemma KeysClashExactly(a: string, b: string)
    requires a != b
    ensures (exists s, x, t, y :: Separator(s) && Separator(t) && a + [s] + x == b + [t] + y)
            <==> Extends(a, b) || Extends(b, a)
  {
    if s, x, t, y :| Separator(s) && Separator(t) && a + [s] + x == b + [t] + y {
      PrefixClash(a, s, x, b, t, y);
    }
    if Extends(a, b) {
      assert a + ['-'] + [] == b + [a[|b|]] + (a[|b| + 1..] + ['-']);
    }
    if Extends(b, a) {
      assert a + [b[|a|]] + (b[|a| + 1..] + ['-']) == b + ['-'] + [];
    }
  }

  lemma PrefixClash(a: string, s: char, x: string, b: string, t: char, y: string)
    requires a != b && Separator(s) && Separator(t) && a + [s] + x == b + [t] + y
    ensures Extends(a, b) || Extends(b, a)
  {
    var key := a + [s] + x;
    assert key[..|a|] == a && key[|a|] == s;
    assert key[..|b|] == b && key[|b|] == t;
    if |a| < |b| {
      assert b[..|a|] == key[..|b|][..|a|] == a && b[|a|] == key[..|b|][|a|];
    } else if |b| < |a| {
      assert a[..|b|] == key[..|a|][..|b|] == b && a[|b|] == key[..|a|][|b|];
    }
  }

  /** As the planner names its assignments. */
  predicate WellNamed(e: Entry) {
    e.assignment.id == e.assignment.memberId + "-" + e.task.id && e.assignment.taskId == e.task.id
  }

  lemma SameKeySameMember(d: Entry, e: Entry)
    requires WellNamed(d) && WellNamed(e) && CardKey(d) == CardKey(e)
    requires !Extends(d.assignment.memberId, e.assignment.memberId)
             && !Extends(e.assignment.memberId, d.assignment.memberId)
    ensures d.assignment.memberId == e.assignment.memberId
  {
    if d.assignment.memberId != e.assignment.memberId {
      var s, x := KeyParts(d);
      var t, y := KeyParts(e);
      PrefixClash(d.assignment.memberId, s, x, e.assignment.memberId, t, y);
    }
  }

  lemma KeyParts(e: Entry) returns (s: char, x: string)
    requires WellNamed(e)
    ensures Separator(s) && CardKey(e) == e.assignment.memberId + [s] + x
    ensures if TruthyText(e.task.bundleKey) then s == ':' && x == e.task.bundleKey.value else s == '-' && x == e.task.id
  {
    if TruthyText(e.task.bundleKey) {
      s, x := ':', e.task.bundleKey.value;
    } else {
      s, x := '-', e.task.id;
    }
  }

  /** Every card of the list belongs to one member. */
  ghost predicate OneMemberPerCard(entries: seq<Entry>) {
    forall d, e | d in entries && e in entries && CardKey(d) == CardKey(e) ::
        d.assignment.memberId == e.assignment.memberId
  }

  ghost predicate Separable(memberIds: set<string>) {
    forall a, b | a in memberIds && b in memberIds :: !Extends(a, b)
  }

  /** Cards never mix members, whatever the tasks and bundles are called, exactly when no member id is another's
      followed by '-' or ':'. The household's own ids satisfy this. */
  lemma CardsBelongToOneMemberExactly(memberIds: set<string>)
    ensures (forall entries: seq<Entry> |
               (forall e | e in entries :: WellNamed(e) && e.assignment.memberId in memberIds) ::
               OneMemberPerCard(entries))
            <==> Separable(memberIds)
  {
    if Separable(memberIds) {
      forall entries: seq<Entry> | (forall e | e in entries :: WellNamed(e) && e.assignment.memberId in memberIds)
        ensures OneMemberPerCard(entries)
      {
        forall d, e | d in entries && e in entries && CardKey(d) == CardKey(e)
          ensures d.assignment.memberId == e.assignment.memberId
        {
          SameKeySameMember(d, e);
        }
      }
    } else {
      var a, b :| a in memberIds && b in memberIds && Extends(a, b);
      var entries := MixedCard(a, b);
      assert forall e | e in entries :: WellNamed(e) && e.assignment.memberId in memberIds;
      assert entries[0] in entries && entries[1] in entries;
      assert !OneMemberPerCard(entries);
    }
  }

  function NamedTask(id: string, bundleKey: Option<string>): Task {
    Task(id, "", Visible, 1, [], true, None, None, None, None, [], [], None, None, None, false, None, None, bundleKey,
        false, false, None)
  }

  function EntryFor(task: Task, memberId: string): Entry {
    Entry(task, Assignment(memberId + "-" + task.id, task.id, memberId))
  }

  /** The failing family: a plain task of the longer-named member shares a key with a task or bundle of the other. */
  lemma MixedCard(a: string, b: string) returns (entries: seq<Entry>)
    requires Extends(a, b)
    ensures |entries| == 2 && WellNamed(entries[0]) && WellNamed(entries[1])
    ensures entries[0].assignment.memberId == a && entries[1].assignment.memberId == b && a != b
    ensures CardKey(entries[0]) == CardKey(entries[1])
  {
    var rest := a[|b| + 1..] + "-t";
    var other := if a[|b|] == '-' then NamedTask(rest, None) else NamedTask("u", Some(rest));
    entries := [EntryFor(NamedTask("t", None), a), EntryFor(other, b)];
    assert a == b + [a[|b|]] + a[|b| + 1..];
    assert a + "-" + "t" == b + [a[|b|]] + rest;
    if a[|b|] == '-' {
      assert b + "-" + rest == b + [a[|b|]] + rest;
    } else {
      assert b + ":" + rest == b + [a[|b|]] + rest;
    }
  }

  /** Within one member, tasks share a card exactly when they share a bundle, or are the same task. */
  lemma SameMemberSharesByBundle(d: Entry, e: Entry)
    requires WellNamed(d) && WellNamed(e) && d.assignment.memberId == e.assignment.memberId
    ensures CardKey(d) == CardKey(e) <==>
            if TruthyText(d.task.bundleKey) then d.task.bundleKey == e.task.bundleKey
            else !TruthyText(e.task.bundleKey) && d.task.id == e.task.id
  {
    var m := d.assignment.memberId;
    var s, x := KeyParts(d);
    var t, y := KeyParts(e);
    assert (m + [s] + x)[|m|] == s && (m + [t] + y)[|m|] == t;
    assert (m + [s] + x)[|m| + 1..] == x && (m + [t] + y)[|m| + 1..] == y;
  }

  lemma {:induction false} LoopNamesAssignments(tasks: seq<Task>, members: seq<Member>, input: PlanInput)
    ensures forall a | a in After(tasks, members, input).assignments :: a.id == a.memberId + "-" + a.taskId
  {
    if tasks != [] {
      LoopNamesAssignments(tasks[..|tasks| - 1], members, input);
      var _, _ := Turn(tasks, members, input);
    }
  }

  /** With separable member ids, every card of a plan is for one member. */
  lemma PlanCardsBelongToOneMember(input: PlanInput)
    requires Sane(input) && Separable(set a | a in PlanOf(input).assignments :: a.memberId)
    ensures OneMemberPerCard(EntriesOf(PlanOf(input).assignments, input.tasks))
  {
    var assignments := PlanOf(input).assignments;
    var entries := EntriesOf(assignments, input.tasks);
    var memberIds := set a | a in assignments :: a.memberId;
    PlanOwnsItsTasks(input);
    EntriesMatchAssignments(assignments, input.tasks);
    LoopNamesAssignments(EligibleTasks(input), Members(input), input);
    forall e | e in entries
      ensures WellNamed(e) && e.assignment.memberId in memberIds
    {
      var k :| 0 <= k < |entries| && entries[k] == e;
      assert assignments[k] in assignments;
    }
    CardsBelongToOneMemberExactly(memberIds);
  }
}
