/** Condensing: a section's tasks become rows, and the rows stand for exactly those tasks. */
module Condense {
  import opened Options
  import opened Sequences
  import opened Checklist

  // ----- grouping -----

  /** Outside the cleaning phase the three floor topics collapse into two. */
  function EffectiveTopic(phase: Phase, topic: Topic): Topic {
    if (topic.FloorDry? || topic.FloorWet? || topic.FloorTreatment?) && phase != Clean
    then (if phase == Prepare then FloorDry else FloorWet)
    else topic
  }

  function KeyOf(cls: Classifier, sectionTitle: string): ChecklistTask -> Key {
    (t: ChecklistTask) =>
      var phase := cls.phaseOf(t.title);
      Key(phase, EffectiveTopic(phase, cls.topicOf(t.title, sectionTitle)))
  }

  datatype TaskGroup = TaskGroup(firstIndex: nat, key: Key, tasks: seq<ChecklistTask>)

  function GroupTasks(g: TaskGroup): seq<ChecklistTask> {
    g.tasks
  }

  /** groups.get(key): the entry with that key among the first n, or -1. */
  function PositionAmong(groups: seq<TaskGroup>, n: nat, key: Key): (i: int)
    requires n <= |groups|
    ensures -1 <= i < n
    ensures i >= 0 ==> groups[i].key == key
    ensures i < 0 ==> forall k | 0 <= k < n :: groups[k].key != key
  {
    if n == 0 then -1 else if groups[n - 1].key == key then n - 1 else PositionAmong(groups, n - 1, key)
  }

  function PositionOfKey(groups: seq<TaskGroup>, key: Key): int {
    PositionAmong(groups, |groups|, key)
  }

  /** The Map of the source, as the list of its entries in insertion order: a task joins the group of its key,
      or opens one that remembers where it began. */
  function AddTask(groups: seq<TaskGroup>, index: nat, task: ChecklistTask, key: Key): seq<TaskGroup> {
    var i := PositionOfKey(groups, key);
    if i >= 0 then groups[i := groups[i].(tasks := groups[i].tasks + [task])]
    else groups + [TaskGroup(index, key, [task])]
  }

  function TaskGroups(tasks: seq<ChecklistTask>, keyOf: ChecklistTask -> Key): seq<TaskGroup> {
    if tasks == [] then []
    else
      var n := |tasks| - 1;
      AddTask(TaskGroups(tasks[..n], keyOf), n, tasks[n], keyOf(tasks[n]))
  }

  // ----- ordering -----

  function PhaseRank(phase: Phase, sectionTitle: string, cls: Classifier): nat {
    if cls.isFinishSection(sectionTitle) then
      (match phase case Restore => 0 case Inspect => 1 case Clean => 2 case Prepare => 3)
    else if cls.isControlSection(sectionTitle) then
      (match phase case Prepare => 0 case Inspect => 1 case Clean => 2 case Restore => 3)
    else
      (match phase case Prepare => 0 case Clean => 1 case Restore => 2 case Inspect => 3)
  }

  function Earlier(sectionTitle: string, cls: Classifier): (TaskGroup, TaskGroup) -> bool {
    (a: TaskGroup, b: TaskGroup) =>
      var ra, rb := PhaseRank(a.key.phase, sectionTitle, cls), PhaseRank(b.key.phase, sectionTitle, cls);
      ra < rb || (ra == rb && a.firstIndex < b.firstIndex)
  }

  function OrderedGroups(section: Section, cls: Classifier): seq<TaskGroup> {
    StableSort(TaskGroups(section.tasks, KeyOf(cls, section.title)), Earlier(section.title, cls))
  }

  // ----- merging -----

  function ConditionOf(t: ChecklistTask): string {
    t.condition
  }

  function CombinedCondition(tasks: seq<ChecklistTask>): string {
    var conditions := KeysInOrder(tasks, ConditionOf);
    if exists t | t in tasks :: t.condition == "always" then "always"
    else if |conditions| == 1 then conditions[0]
    else "if_applicable"
  }

  predicate IsNoted(t: ChecklistTask) {
    t.safety.Some? && t.safety.value != ""
  }

  function SafetyOf(t: ChecklistTask): Option<string> {
    t.safety
  }

  function UniqueSafeties(tasks: seq<ChecklistTask>): seq<Option<string>> {
    KeysInOrder(Filter(tasks, IsNoted), SafetyOf)
  }

  function ToRow(sectionId: string, sectionTitle: string, cls: Classifier): TaskGroup -> ChecklistTask {
    (g: TaskGroup) =>
      if |g.tasks| == 1 then g.tasks[0]
      else ChecklistTask(cls.rowId(sectionId, g.key), cls.rowTitle(sectionTitle, g.key), CombinedCondition(g.tasks),
                         if |UniqueSafeties(g.tasks)| == 1 then UniqueSafeties(g.tasks)[0] else None,
                         Some(Transform(g.tasks, TaskId)), g.tasks)
  }

  function Condensed(section: Section, cls: Classifier): seq<ChecklistTask> {
    Transform(OrderedGroups(section, cls), ToRow(section.id, section.title, cls))
  }

  method CondenseSection(section: Section, cls: Classifier) returns (rows: seq<ChecklistTask>)
    ensures rows == Condensed(section, cls)
  {
    var groups := CollectGroups(section.tasks, KeyOf(cls, section.title));
    rows := Transform(StableSort(groups, Earlier(section.title, cls)), ToRow(section.id, section.title, cls));
  }

  method CollectGroups(tasks: seq<ChecklistTask>, keyOf: ChecklistTask -> Key) returns (groups: seq<TaskGroup>)
    ensures groups == TaskGroups(tasks, keyOf)
  {
    groups := [];
    for index := 0 to |tasks|
      invariant groups == TaskGroups(tasks[..index], keyOf)
    {
      assert tasks[..index + 1][..index] == tasks[..index];
      groups := AddTask(groups, index, tasks[index], keyOf(tasks[index]));
    }
    assert tasks[..|tasks|] == tasks;
  }

  function SectionsForChecklist(d: Definition, cls: Classifier): seq<Section> {
    if d.listId == cls.bedroomListId then d.sections
    else Transform(Rehomed(d.sections, cls), CondensedSection(cls))
  }

  function CondensedSection(cls: Classifier): Section -> Section {
    (s: Section) => s.(tasks := Condensed(s, cls))
  }

  /** The rows on display, section after section. */
  function Rows(d: Definition, cls: Classifier): seq<ChecklistTask> {
    AllTasks(SectionsForChecklist(d, cls))
  }

  function TaskCountForChecklist(d: Definition, cls: Classifier): nat {
    |Rows(d, cls)|
  }

  function SourceTaskIdsForTask(row: ChecklistTask): seq<string> {
    if row.sourceTaskIds.Some? then row.sourceTaskIds.value else [row.id]
  }

  // ----- the rows stand for exactly the source tasks -----

  /** Checklists as they are written: no task is itself a condensed row. */
  ghost predicate Raw(tasks: seq<ChecklistTask>) {
    forall t | t in tasks :: t.sourceTaskIds.None?
  }

  /** A group holds the tasks of its key in the section's order and remembers where the key first appears. */
  ghost predicate IsGroup(g: TaskGroup, tasks: seq<ChecklistTask>, keyOf: ChecklistTask -> Key) {
    g.tasks == GroupOf(tasks, keyOf, g.key) && StartsAt(g.firstIndex, g.key, tasks, keyOf)
  }

  ghost predicate StartsAt(i: nat, key: Key, tasks: seq<ChecklistTask>, keyOf: ChecklistTask -> Key) {
    i < |tasks| && keyOf(tasks[i]) == key && forall k | 0 <= k < i :: keyOf(tasks[k]) != key
  }

  ghost predicate InOrderOfAppearance(gs: seq<TaskGroup>) {
    forall i, j | 0 <= i < j < |gs| :: gs[i].firstIndex < gs[j].firstIndex && gs[i].key != gs[j].key
  }

  ghost predicate AllGroups(gs: seq<TaskGroup>, tasks: seq<ChecklistTask>, keyOf: ChecklistTask -> Key) {
    forall i | 0 <= i < |gs| :: IsGroup(gs[i], tasks, keyOf)
  }

  ghost predicate KeysKnown(gs: seq<TaskGroup>, tasks: seq<ChecklistTask>, keyOf: ChecklistTask -> Key) {
    forall i | 0 <= i < |tasks| :: HasKey(gs, keyOf(tasks[i]))
  }

  ghost predicate HasKey(gs: seq<TaskGroup>, key: Key) {
    exists i | 0 <= i < |gs| :: gs[i].key == key
  }

  ghost predicate AreGroups(gs: seq<TaskGroup>, tasks: seq<ChecklistTask>, keyOf: ChecklistTask -> Key) {
    InOrderOfAppearance(gs) && AllGroups(gs, tasks, keyOf) && KeysKnown(gs, tasks, keyOf)
  }

  lemma GroupGrows(g: TaskGroup, tasks: seq<ChecklistTask>, keyOf: ChecklistTask -> Key, x: ChecklistTask)
    requires IsGroup(g, tasks, keyOf)
    ensures keyOf(x) != g.key ==> IsGroup(g, tasks + [x], keyOf)
    ensures keyOf(x) == g.key ==> IsGroup(g.(tasks := g.tasks + [x]), tasks + [x], keyOf)
  {
    GroupOfAppend(tasks, x, keyOf, g.key);
  }

  lemma GroupOpens(tasks: seq<ChecklistTask>, keyOf: ChecklistTask -> Key, x: ChecklistTask)
    requires forall k | 0 <= k < |tasks| :: keyOf(tasks[k]) != keyOf(x)
    ensures IsGroup(TaskGroup(|tasks|, keyOf(x), [x]), tasks + [x], keyOf)
  {
    GroupOfMissing(tasks, keyOf, keyOf(x));
    GroupOfAppend(tasks, x, keyOf, keyOf(x));
  }

  lemma KeysStayKnown(before: seq<TaskGroup>, after: seq<TaskGroup>, tasks: seq<ChecklistTask>,
                      keyOf: ChecklistTask -> Key, x: ChecklistTask)
    requires |before| <= |after| && forall i | 0 <= i < |before| :: before[i].key == after[i].key
    requires KeysKnown(before, tasks, keyOf) && HasKey(after, keyOf(x))
    ensures KeysKnown(after, tasks + [x], keyOf)
  {
    forall k | 0 <= k < |tasks|
      ensures HasKey(after, keyOf(tasks[k]))
    {
      var i :| 0 <= i < |before| && before[i].key == keyOf(tasks[k]);
      assert after[i].key == keyOf(tasks[k]);
    }
  }

  lemma JoiningKeepsGroups(gs: seq<TaskGroup>, p: nat, tasks: seq<ChecklistTask>, keyOf: ChecklistTask -> Key,
                           x: ChecklistTask)
    requires AreGroups(gs, tasks, keyOf) && p < |gs| && gs[p].key == keyOf(x)
    ensures AreGroups(gs[p := gs[p].(tasks := gs[p].tasks + [x])], tasks + [x], keyOf)
  {
    var after := gs[p := gs[p].(tasks := gs[p].tasks + [x])];
    forall i | 0 <= i < |after|
      ensures IsGroup(after[i], tasks + [x], keyOf)
    {
      GroupGrows(gs[i], tasks, keyOf, x);
    }
    assert after[p].key == keyOf(x);
    KeysStayKnown(gs, after, tasks, keyOf, x);
  }

  lemma OpeningKeepsGroups(gs: seq<TaskGroup>, tasks: seq<ChecklistTask>, keyOf: ChecklistTask -> Key, x: ChecklistTask)
    requires AreGroups(gs, tasks, keyOf) && !HasKey(gs, keyOf(x))
    ensures AreGroups(gs + [TaskGroup(|tasks|, keyOf(x), [x])], tasks + [x], keyOf)
  {
    var after := gs + [TaskGroup(|tasks|, keyOf(x), [x])];
    forall i | 0 <= i < |gs|
      ensures IsGroup(after[i], tasks + [x], keyOf)
    {
      GroupGrows(gs[i], tasks, keyOf, x);
    }
    GroupOpens(tasks, keyOf, x);
    assert after[|gs|].key == keyOf(x);
    KeysStayKnown(gs, after, tasks, keyOf, x);
  }

  /** The Map holds the classes of the key, in order of first appearance. */
  lemma {:induction false} TaskGroupsAreGroups(tasks: seq<ChecklistTask>, keyOf: ChecklistTask -> Key)
    ensures AreGroups(TaskGroups(tasks, keyOf), tasks, keyOf)
  {
    if tasks != [] {
      var front, x := tasks[..|tasks| - 1], tasks[|tasks| - 1];
      assert tasks == front + [x];
      TaskGroupsAreGroups(front, keyOf);
      var gs := TaskGroups(front, keyOf);
      var p := PositionOfKey(gs, keyOf(x));
      if p >= 0 {
        JoiningKeepsGroups(gs, p, front, keyOf, x);
      } else {
        OpeningKeepsGroups(gs, front, keyOf, x);
      }
    }
  }

  lemma AddTaskContents(gs: seq<TaskGroup>, index: nat, x: ChecklistTask, key: Key)
    ensures multiset(Flatten(Transform(AddTask(gs, index, x, key), GroupTasks)))
            == multiset(Flatten(Transform(gs, GroupTasks))) + multiset{x}
  {
    var i := PositionOfKey(gs, key);
    assert Transform(AddTask(gs, index, x, key), GroupTasks) == Grown(Transform(gs, GroupTasks), i, x);
    GrownContents(Transform(gs, GroupTasks), i, x);
  }

  lemma {:induction false} TaskGroupsContents(tasks: seq<ChecklistTask>, keyOf: ChecklistTask -> Key)
    ensures multiset(Flatten(Transform(TaskGroups(tasks, keyOf), GroupTasks))) == multiset(tasks)
  {
    if tasks != [] {
      var front, x := tasks[..|tasks| - 1], tasks[|tasks| - 1];
      assert tasks == front + [x];
      TaskGroupsContents(front, keyOf);
      var gs := TaskGroups(front, keyOf);
      AddTaskContents(gs, |front|, x, keyOf(x));
      assert TaskGroups(tasks, keyOf) == AddTask(gs, |front|, x, keyOf(x));
    }
  }

  /** The groups are the non-empty classes of the key, each in the section's order, and lose no task. */
  lemma GroupsHoldTheTasks(tasks: seq<ChecklistTask>, keyOf: ChecklistTask -> Key)
    ensures var gs := TaskGroups(tasks, keyOf);
            && (forall g | g in gs :: g.tasks == GroupOf(tasks, keyOf, g.key) != [])
            && multiset(Flatten(Transform(gs, GroupTasks))) == multiset(tasks)
  {
    TaskGroupsAreGroups(tasks, keyOf);
    TaskGroupsContents(tasks, keyOf);
    forall g | g in TaskGroups(tasks, keyOf)
      ensures g.tasks == GroupOf(tasks, keyOf, g.key) != []
    {
      assert tasks[g.firstIndex] in GroupOf(tasks, keyOf, g.key);
    }
  }

  lemma {:induction false} InsertKeepsContents<T, U>(x: T, s: seq<T>, less: (T, T) -> bool, f: T -> seq<U>)
    ensures multiset(Flatten(Transform(Insert(x, s, less), f))) == multiset(Flatten(Transform(s, f))) + multiset(f(x))
  {
    var r := Insert(x, s, less);
    if s != [] && less(x, s[|s| - 1]) {
      InsertKeepsContents(x, s[..|s| - 1], less, f);
      assert Transform(s, f)[..|s| - 1] == Transform(s[..|s| - 1], f);
    }
    assert Transform(r, f)[..|r| - 1] == Transform(r[..|r| - 1], f);
    assert s != [] && less(x, s[|s| - 1]) ==> r[..|r| - 1] == Insert(x, s[..|s| - 1], less);
    assert s == [] || !less(x, s[|s| - 1]) ==> r[..|r| - 1] == s;
  }

  /** Sorting containers moves their contents about, nothing more. */
  lemma {:induction false} SortKeepsContents<T, U>(s: seq<T>, less: (T, T) -> bool, f: T -> seq<U>)
    ensures multiset(Flatten(Transform(StableSort(s, less), f))) == multiset(Flatten(Transform(s, f)))
  {
    if s != [] {
      var front := s[..|s| - 1];
      SortKeepsContents(front, less, f);
      InsertKeepsContents(s[|s| - 1], StableSort(front, less), less, f);
      assert Transform(s, f)[..|s| - 1] == Transform(front, f);
    }
  }

  /** A row's source ids are the ids of its group's tasks, in their order. */
  lemma RowRemembersItsTasks(g: TaskGroup, sectionId: string, title: string, cls: Classifier)
    requires Raw(g.tasks)
    ensures SourceTaskIdsForTask(ToRow(sectionId, title, cls)(g)) == Transform(g.tasks, TaskId)
  {
  }

  lemma CombinedConditionIsShared(tasks: seq<ChecklistTask>)
    requires tasks != []
    ensures var c := CombinedCondition(tasks);
            && (c == "always" <==> exists t | t in tasks :: t.condition == "always")
            && (c == "always" || c == "if_applicable" || forall t | t in tasks :: t.condition == c)
            && ((forall t | t in tasks :: t.condition == tasks[0].condition) ==> c == tasks[0].condition)
  {
    OneKeyMeansAllAlike(tasks, ConditionOf);
    assert tasks[0] in tasks && ConditionOf(tasks[0]) == tasks[0].condition;
    assert forall t | t in tasks :: ConditionOf(t) == t.condition;
  }

  lemma SafetyNoteIsShared(tasks: seq<ChecklistTask>, note: string)
    ensures |UniqueSafeties(tasks)| == 1 && UniqueSafeties(tasks)[0] == Some(note) <==>
              (exists t | t in tasks :: IsNoted(t)) && forall t | t in tasks && IsNoted(t) :: t.safety == Some(note)
  {
    var noted := Filter(tasks, IsNoted);
    OneKeyMeansAllAlike(noted, SafetyOf);
    assert forall t | t in tasks && IsNoted(t) :: t in noted;
    assert noted != [] ==> noted[0] in noted;
    assert forall t | t in noted :: SafetyOf(t) == t.safety;
  }

  /** A merged row speaks for its tasks: it is unconditional exactly when one of them is, any condition but the vague
      one is that of every task, a condition they all share is kept, and it shows a safety note exactly when all its
      noted tasks carry that very note. */
  lemma MergedRowSpeaksForItsTasks(g: TaskGroup, sectionId: string, title: string, cls: Classifier, note: string)
    requires |g.tasks| >= 2
    ensures var row := ToRow(sectionId, title, cls)(g);
            && (row.condition == "always" <==> exists t | t in g.tasks :: t.condition == "always")
            && (row.condition == "always" || row.condition == "if_applicable"
                || forall t | t in g.tasks :: t.condition == row.condition)
            && ((forall t | t in g.tasks :: t.condition == g.tasks[0].condition)
                ==> row.condition == g.tasks[0].condition)
            && (row.safety == Some(note) <==>
                  && (exists t | t in g.tasks :: IsNoted(t))
                  && forall t | t in g.tasks && IsNoted(t) :: t.safety == Some(note))
  {
    CombinedConditionIsShared(g.tasks);
    SafetyNoteIsShared(g.tasks, note);
  }

  lemma {:induction false} FlattenIds(groups: seq<TaskGroup>, f: TaskGroup -> ChecklistTask)
    requires forall g | g in groups :: SourceTaskIdsForTask(f(g)) == Transform(g.tasks, TaskId)
    ensures Flatten(Transform(Transform(groups, f), SourceTaskIdsForTask))
            == Transform(Flatten(Transform(groups, GroupTasks)), TaskId)
  {
    if groups != [] {
      var n := |groups| - 1;
      var front, last := groups[..n], groups[n];
      assert groups == front + [last];
      FlattenIds(front, f);
      assert Transform(Transform(groups, f), SourceTaskIdsForTask)[..n]
          == Transform(Transform(front, f), SourceTaskIdsForTask);
      assert Transform(groups, GroupTasks)[..n] == Transform(front, GroupTasks);
      TransformConcat(Flatten(Transform(front, GroupTasks)), last.tasks, TaskId);
    }
  }

  /** The source ids of a section's rows are the ids of its tasks: none lost, none twice. */
  lemma CondensingKeepsIds(section: Section, cls: Classifier)
    requires Raw(section.tasks)
    ensures multiset(Flatten(Transform(Condensed(section, cls), SourceTaskIdsForTask)))
            == multiset(Transform(section.tasks, TaskId))
  {
    var keyOf := KeyOf(cls, section.title);
    var gs, ordered := TaskGroups(section.tasks, keyOf), OrderedGroups(section, cls);
    GroupsHoldTheTasks(section.tasks, keyOf);
    SortKeepsContents(gs, Earlier(section.title, cls), GroupTasks);
    forall g | g in ordered
      ensures SourceTaskIdsForTask(ToRow(section.id, section.title, cls)(g)) == Transform(g.tasks, TaskId)
    {
      SortKeepsMembers(gs, Earlier(section.title, cls), g);
      RowRemembersItsTasks(g, section.id, section.title, cls);
    }
    FlattenIds(ordered, ToRow(section.id, section.title, cls));
    TransformPermutation(Flatten(Transform(ordered, GroupTasks)), section.tasks, TaskId);
  }

  // ----- the whole checklist -----

  function IdsOnDisplay(rows: seq<ChecklistTask>): seq<string> {
    Flatten(Transform(rows, SourceTaskIdsForTask))
  }

  lemma {:induction false} IdsOfRawTasks(tasks: seq<ChecklistTask>)
    requires Raw(tasks)
    ensures IdsOnDisplay(tasks) == Transform(tasks, TaskId)
  {
    if tasks != [] {
      var n := |tasks| - 1;
      assert tasks == tasks[..n] + [tasks[n]];
      IdsOfRawTasks(tasks[..n]);
      assert Transform(tasks, SourceTaskIdsForTask)[..n] == Transform(tasks[..n], SourceTaskIdsForTask);
    }
  }

  lemma IdsOnDisplayConcat(a: seq<ChecklistTask>, b: seq<ChecklistTask>)
    ensures IdsOnDisplay(a + b) == IdsOnDisplay(a) + IdsOnDisplay(b)
  {
    TransformConcat(a, b, SourceTaskIdsForTask);
    FlattenConcat(Transform(a, SourceTaskIdsForTask), Transform(b, SourceTaskIdsForTask));
  }

  lemma RawParts(a: seq<ChecklistTask>, b: seq<ChecklistTask>)
    requires Raw(a + b)
    ensures Raw(a) && Raw(b)
  {
    assert forall t | t in a :: t in a + b;
    assert forall t | t in b :: t in a + b;
  }

  lemma DisplayOneMoreSection(sections: seq<Section>, last: Section, cls: Classifier)
    ensures IdsOnDisplay(AllTasks(Transform(sections + [last], CondensedSection(cls))))
            == IdsOnDisplay(AllTasks(Transform(sections, CondensedSection(cls)))) + IdsOnDisplay(Condensed(last, cls))
  {
    TransformConcat(sections, [last], CondensedSection(cls));
    assert Transform([last], CondensedSection(cls)) == [CondensedSection(cls)(last)];
    AllTasksAppend(Transform(sections, CondensedSection(cls)), CondensedSection(cls)(last));
    IdsOnDisplayConcat(AllTasks(Transform(sections, CondensedSection(cls))), Condensed(last, cls));
  }

  lemma {:induction false} CondensingSectionsKeepsIds(sections: seq<Section>, cls: Classifier)
    requires Raw(AllTasks(sections))
    ensures multiset(IdsOnDisplay(AllTasks(Transform(sections, CondensedSection(cls)))))
            == multiset(Transform(AllTasks(sections), TaskId))
  {
    if sections != [] {
      var n := |sections| - 1;
      var front, last := sections[..n], sections[n];
      assert sections == front + [last];
      AllTasksAppend(front, last);
      RawParts(AllTasks(front), last.tasks);
      CondensingSectionsKeepsIds(front, cls);
      CondensingKeepsIds(last, cls);
      DisplayOneMoreSection(front, last, cls);
      TransformConcat(AllTasks(front), last.tasks, TaskId);
    }
  }

  /** The rows on display stand for exactly the checklist's tasks: no source id is lost, none is shown twice. */
  lemma DisplayKeepsIds(d: Definition, cls: Classifier)
    requires Raw(AllTasks(d.sections))
    ensures multiset(IdsOnDisplay(Rows(d, cls))) == multiset(TaskIdsForChecklist(d))
  {
    if d.listId == cls.bedroomListId {
      IdsOfRawTasks(AllTasks(d.sections));
    } else {
      var rehomed := Rehomed(d.sections, cls);
      RehomingPermutesTasks(d.sections, cls);
      forall t | t in AllTasks(rehomed)
        ensures t.sourceTaskIds.None?
      {
        assert t in multiset(AllTasks(rehomed));
      }
      CondensingSectionsKeepsIds(rehomed, cls);
      TransformPermutation(AllTasks(rehomed), AllTasks(d.sections), TaskId);
    }
  }

  // ----- the order of rows -----

  lemma EarlierIsStrictWeakOrder(title: string, cls: Classifier)
    ensures StrictWeakOrder(Earlier(title, cls))
  {
  }

  function FirstIndex(g: TaskGroup): nat {
    g.firstIndex
  }

  /** Rows come phase by phase, and inside a phase in the order in which their tasks first appear. */
  lemma RowsFollowPhases(section: Section, cls: Classifier)
    ensures var gs := OrderedGroups(section, cls);
            forall i, j | 0 <= i < j < |gs| ::
              var ri, rj := PhaseRank(gs[i].key.phase, section.title, cls),
                  PhaseRank(gs[j].key.phase, section.title, cls);
              ri < rj || (ri == rj && gs[i].firstIndex < gs[j].firstIndex)
  {
    var keyOf, less := KeyOf(cls, section.title), Earlier(section.title, cls);
    var unsorted, gs := TaskGroups(section.tasks, keyOf), OrderedGroups(section, cls);
    TaskGroupsAreGroups(section.tasks, keyOf);
    EarlierIsStrictWeakOrder(section.title, cls);
    StableSortIsSorted(unsorted, less);
    TransformPermutation(unsorted, gs, FirstIndex);
    PermutationKeepsDistinct(Transform(unsorted, FirstIndex), Transform(gs, FirstIndex));
    forall i, j | 0 <= i < j < |gs|
      ensures less(gs[i], gs[j])
    {
      assert !less(gs[j], gs[i]);
      assert Transform(gs, FirstIndex)[i] != Transform(gs, FirstIndex)[j];
    }
  }

  /** Each row of a section is one non-empty class of tasks that share phase and topic, in the section's order. */
  lemma RowsAreClasses(section: Section, cls: Classifier, i: nat)
    requires Raw(section.tasks) && i < |Condensed(section, cls)|
    ensures var g := OrderedGroups(section, cls)[i];
            var members := GroupOf(section.tasks, KeyOf(cls, section.title), g.key);
            members != [] && SourceTaskIdsForTask(Condensed(section, cls)[i]) == Transform(members, TaskId)
  {
    var keyOf := KeyOf(cls, section.title);
    var gs, g := TaskGroups(section.tasks, keyOf), OrderedGroups(section, cls)[i];
    SortKeepsMembers(gs, Earlier(section.title, cls), g);
    GroupsHoldTheTasks(section.tasks, keyOf);
    assert Raw(g.tasks);
    RowRemembersItsTasks(g, section.id, section.title, cls);
  }
}
