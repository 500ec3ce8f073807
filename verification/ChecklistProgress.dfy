/** Checklist progress: stored per source task, shown per row. */
module ChecklistProgress {
  import opened Options
  import opened Sequences
  import opened Checklist
  import opened Condense

  datatype ItemStatus = Completed | Skipped

  type RoomProgress = map<string, ItemStatus>

  function Lookup(progress: RoomProgress, id: string): Option<ItemStatus> {
    if id in progress then Some(progress[id]) else None
  }

  function TaskStatusFromProgress(row: ChecklistTask, progress: RoomProgress): Option<ItemStatus> {
    var ids := SourceTaskIdsForTask(row);
    if exists id | id in ids :: id !in progress then None
    else if forall id | id in ids :: Lookup(progress, id) == Some(Completed) then Some(Completed)
    else Some(Skipped)
  }

  /** A row is open while one of its tasks is, done when all of them were completed, and otherwise skipped. */
  lemma StatusExactly(row: ChecklistTask, progress: RoomProgress)
    ensures var ids, status := SourceTaskIdsForTask(row), TaskStatusFromProgress(row, progress);
            && (status == None <==> exists id | id in ids :: id !in progress)
            && (status == Some(Completed) <==> forall id | id in ids :: (id, Completed) in progress.Items)
            && (status == Some(Skipped) <==>
                  (forall id | id in ids :: id in progress) && exists id | id in ids :: (id, Skipped) in progress.Items)
  {
    var ids := SourceTaskIdsForTask(row);
    assert forall id | id in ids :: Lookup(progress, id) == Some(Completed) <==> (id, Completed) in progress.Items;
    assert forall id | id in ids :: Lookup(progress, id) == Some(Skipped) <==> (id, Skipped) in progress.Items;
    assert forall id | id in ids && id in progress :: progress[id] == Completed || progress[id] == Skipped;
  }

  function IsResolved(progress: RoomProgress): ChecklistTask -> bool {
    (row: ChecklistTask) => TaskStatusFromProgress(row, progress).Some?
  }

  function ResolvedTaskCountForChecklist(d: Definition, cls: Classifier, progress: RoomProgress): nat {
    |Filter(Rows(d, cls), IsResolved(progress))|
  }

  function Unresolved(progress: RoomProgress): string -> bool {
    (id: string) => id !in progress
  }

  function RemainingSourceTaskCount(d: Definition, cls: Classifier, progress: RoomProgress): nat {
    |Filter(IdsOnDisplay(Rows(d, cls)), Unresolved(progress))|
  }

  // ----- rows and source tasks tell the same story -----

  lemma IdsOfRows(rows: seq<ChecklistTask>, id: string)
    ensures id in IdsOnDisplay(rows) <==> exists row | row in rows :: id in SourceTaskIdsForTask(row)
  {
    var ids := Transform(rows, SourceTaskIdsForTask);
    FlattenMembers(ids, id);
    if row :| row in rows && id in SourceTaskIdsForTask(row) {
      var i :| 0 <= i < |rows| && rows[i] == row;
      assert id in ids[i];
    }
  }

  /** Every displayed row is resolved exactly when every task of the checklist is. */
  lemma RowsResolvedMeansTasksResolved(d: Definition, cls: Classifier, progress: RoomProgress)
    requires Raw(AllTasks(d.sections))
    ensures (forall row | row in Rows(d, cls) :: IsResolved(progress)(row))
            <==> (forall id | id in TaskIdsForChecklist(d) :: id in progress)
  {
    DisplayKeepsIds(d, cls);
    var shown, all := IdsOnDisplay(Rows(d, cls)), TaskIdsForChecklist(d);
    RowsResolvedMeansIdsResolved(Rows(d, cls), progress);
    assert forall id :: id in multiset(shown) <==> id in multiset(all);
    assert forall id :: id in shown <==> id in multiset(shown);
    assert forall id :: id in all <==> id in multiset(all);
  }

  lemma RowsResolvedMeansIdsResolved(rows: seq<ChecklistTask>, progress: RoomProgress)
    ensures (forall row | row in rows :: IsResolved(progress)(row))
            <==> (forall id | id in IdsOnDisplay(rows) :: id in progress)
  {
    forall id
      ensures id in IdsOnDisplay(rows) <==> exists row | row in rows :: id in SourceTaskIdsForTask(row)
    {
      IdsOfRows(rows, id);
    }
  }

  lemma {:induction false} FullCount<T>(s: seq<T>, p: T -> bool)
    ensures |Filter(s, p)| == |s| <==> forall x | x in s :: p(x)
  {
    if s != [] {
      assert s == s[..|s| - 1] + [s[|s| - 1]];
      FullCount(s[..|s| - 1], p);
    }
  }

  /** The progress bar is full exactly when every task of the checklist is resolved. */
  lemma FullBarMeansTasksResolved(d: Definition, cls: Classifier, progress: RoomProgress)
    requires Raw(AllTasks(d.sections))
    ensures ResolvedTaskCountForChecklist(d, cls, progress) == TaskCountForChecklist(d, cls)
            <==> forall id | id in TaskIdsForChecklist(d) :: id in progress
  {
    FullCount(Rows(d, cls), IsResolved(progress));
    RowsResolvedMeansTasksResolved(d, cls, progress);
  }

  lemma {:induction false} CountOfPermutation<T>(a: seq<T>, b: seq<T>, p: T -> bool)
    requires multiset(a) == multiset(b)
    ensures |Filter(a, p)| == |Filter(b, p)|
    decreases |a|
  {
    assert |a| == |multiset(a)| == |multiset(b)| == |b|;
    if a != [] {
      var n := |a| - 1;
      assert a[n] in multiset(b);
      var i :| 0 <= i < |b| && b[i] == a[n];
      var restA := RemoveAt(a, n);
      var restB := RemoveAt(b, i);
      OmittingRemoves(restA, a, n);
      OmittingRemoves(restB, b, i);
      CountOfPermutation(restA, restB, p);
      CountOmits(restA, a, n, p);
      CountOmits(restB, b, i, p);
    }
  }

  lemma {:induction false} CountOmits<T>(rest: seq<T>, s: seq<T>, i: nat, p: T -> bool)
    requires i < |s| && Omits(rest, s, i)
    ensures |Filter(s, p)| == |Filter(rest, p)| + (if p(s[i]) then 1 else 0)
  {
    if i == |s| - 1 {
      assert rest == s[..i];
    } else {
      CountOmits(rest[..|rest| - 1], s[..|s| - 1], i, p);
    }
  }

  /** The remaining-work estimate, taken over the rows, counts the unresolved tasks of the checklist itself. */
  lemma RemainingCountsTasks(d: Definition, cls: Classifier, progress: RoomProgress)
    requires Raw(AllTasks(d.sections))
    ensures RemainingSourceTaskCount(d, cls, progress) == |Filter(TaskIdsForChecklist(d), Unresolved(progress))|
  {
    DisplayKeepsIds(d, cls);
    CountOfPermutation(IdsOnDisplay(Rows(d, cls)), TaskIdsForChecklist(d), Unresolved(progress));
  }

  // ----- setting a row -----

  /** The progress with every given id set to the status, or cleared when there is none. */
  function Updated(progress: RoomProgress, ids: seq<string>, status: Option<ItemStatus>): (r: RoomProgress)
    ensures forall id :: Lookup(r, id) == if id in ids then status else Lookup(progress, id)
  {
    if status.Some? then progress + (map id | id in ids :: status.value)
    else map id | id in progress && id !in ids :: progress[id]
  }

  lemma UniformRow(row: ChecklistTask, progress: RoomProgress, status: Option<ItemStatus>)
    requires SourceTaskIdsForTask(row) != []
    requires forall id | id in SourceTaskIdsForTask(row) :: Lookup(progress, id) == status
    ensures TaskStatusFromProgress(row, progress) == status
  {
    var ids := SourceTaskIdsForTask(row);
    assert ids[0] in ids && Lookup(progress, ids[0]) == status;
    match status {
      case None => assert ids[0] !in progress;
      case Some(Completed) =>
      case Some(Skipped) => assert Lookup(progress, ids[0]) != Some(Completed);
    }
  }

  /** The row reads back exactly what was set, unless it stands for no task at all: such a row always counts as
      completed. */
  lemma RowReadsBack(row: ChecklistTask, progress: RoomProgress, status: Option<ItemStatus>)
    ensures TaskStatusFromProgress(row, Updated(progress, SourceTaskIdsForTask(row), status)) == status
            <==> SourceTaskIdsForTask(row) != [] || status == Some(Completed)
  {
    var ids, after := SourceTaskIdsForTask(row), Updated(progress, SourceTaskIdsForTask(row), status);
    if ids != [] {
      UniformRow(row, after, status);
    }
  }

  /** Rows that share no source task do not affect each other. */
  lemma OtherRowUnchanged(row: ChecklistTask, other: ChecklistTask, progress: RoomProgress, status: Option<ItemStatus>)
    requires forall id | id in SourceTaskIdsForTask(other) :: id !in SourceTaskIdsForTask(row)
    ensures TaskStatusFromProgress(other, Updated(progress, SourceTaskIdsForTask(row), status))
            == TaskStatusFromProgress(other, progress)
  {
    var after := Updated(progress, SourceTaskIdsForTask(row), status);
    assert forall id | id in SourceTaskIdsForTask(other) :: Lookup(after, id) == Lookup(progress, id);
  }

  /** Rows in which every source id stands once and every row has some. */
  ghost predicate ProperRows(rows: seq<ChecklistTask>) {
    Distinct(IdsOnDisplay(rows)) && forall i | 0 <= i < |rows| :: SourceTaskIdsForTask(rows[i]) != []
  }

  lemma ProperRowsAreApart(rows: seq<ChecklistTask>, i: nat, j: nat)
    requires ProperRows(rows) && i < |rows| && j < |rows| && i != j
    ensures forall id | id in SourceTaskIdsForTask(rows[i]) :: id !in SourceTaskIdsForTask(rows[j])
  {
    var ids := Transform(rows, SourceTaskIdsForTask);
    forall id | id in SourceTaskIdsForTask(rows[i])
      ensures id !in SourceTaskIdsForTask(rows[j])
    {
      assert id in ids[i];
      FlattenApart(ids, i, j, id);
    }
  }

  /** One update, seen from every row: the chosen row takes the status and no other row moves. */
  lemma UpdateIsLocal(rows: seq<ChecklistTask>, i: nat, k: nat, progress: RoomProgress, status: Option<ItemStatus>)
    requires ProperRows(rows) && i < |rows| && k < |rows|
    ensures TaskStatusFromProgress(rows[k], Updated(progress, SourceTaskIdsForTask(rows[i]), status))
            == if k == i then status else TaskStatusFromProgress(rows[k], progress)
  {
    if k == i {
      RowReadsBack(rows[i], progress, status);
    } else {
      ProperRowsAreApart(rows, k, i);
      OtherRowUnchanged(rows[i], rows[k], progress, status);
    }
  }

  lemma {:induction false} CountChangesAt<T>(s: seq<T>, i: nat, p: T -> bool, q: T -> bool)
    requires i < |s| && forall k | 0 <= k < |s| && k != i :: p(s[k]) == q(s[k])
    ensures |Filter(s, q)| == |Filter(s, p)| - (if p(s[i]) then 1 else 0) + (if q(s[i]) then 1 else 0)
  {
    var front := s[..|s| - 1];
    assert s == front + [s[|s| - 1]];
    if i < |front| {
      CountChangesAt(front, i, p, q);
    } else {
      SameCount(front, p, q);
    }
  }

  lemma {:induction false} SameCount<T>(s: seq<T>, p: T -> bool, q: T -> bool)
    requires forall k | 0 <= k < |s| :: p(s[k]) == q(s[k])
    ensures |Filter(s, p)| == |Filter(s, q)|
  {
    if s != [] {
      SameCount(s[..|s| - 1], p, q);
    }
  }

  /** The resolved count moves by exactly what happens to the one row: up, down or not at all. */
  lemma CountMovesWithTheRow(rows: seq<ChecklistTask>, i: nat, progress: RoomProgress, status: Option<ItemStatus>)
    requires ProperRows(rows) && i < |rows|
    ensures var after := Updated(progress, SourceTaskIdsForTask(rows[i]), status);
            |Filter(rows, IsResolved(after))| - |Filter(rows, IsResolved(progress))|
            == (if status.Some? then 1 else 0) - (if IsResolved(progress)(rows[i]) then 1 else 0)
  {
    var after := Updated(progress, SourceTaskIdsForTask(rows[i]), status);
    forall k | 0 <= k < |rows|
      ensures IsResolved(after)(rows[k]) == if k == i then status.Some? else IsResolved(progress)(rows[k])
    {
      UpdateIsLocal(rows, i, k, progress, status);
    }
    CountChangesAt(rows, i, IsResolved(progress), IsResolved(after));
  }

  // ----- the rows of a checklist are proper -----

  lemma {:induction false} RowsComeFromSections(sections: seq<Section>, row: ChecklistTask) returns (i: nat)
    requires row in AllTasks(sections)
    ensures i < |sections| && row in sections[i].tasks
  {
    FlattenMembers(Transform(sections, TasksOf), row);
    i :| 0 <= i < |sections| && row in Transform(sections, TasksOf)[i];
  }

  lemma TasksOfSectionsAreTasks(sections: seq<Section>, i: nat, t: ChecklistTask)
    requires i < |sections| && t in sections[i].tasks
    ensures t in AllTasks(sections)
  {
    FlattenMembers(Transform(sections, TasksOf), t);
    assert t in Transform(sections, TasksOf)[i];
  }

  lemma RowsStandForTasks(d: Definition, cls: Classifier, row: ChecklistTask)
    requires Raw(AllTasks(d.sections)) && row in Rows(d, cls)
    ensures SourceTaskIdsForTask(row) != []
  {
    if d.listId != cls.bedroomListId {
      var rehomed := Rehomed(d.sections, cls);
      var i := RowsComeFromSections(SectionsForChecklist(d, cls), row);
      forall t | t in rehomed[i].tasks
        ensures t.sourceTaskIds.None?
      {
        TasksOfSectionsAreTasks(rehomed, i, t);
        RehomingPermutesTasks(d.sections, cls);
        assert t in multiset(AllTasks(rehomed));
      }
      var k :| 0 <= k < |Condensed(rehomed[i], cls)| && Condensed(rehomed[i], cls)[k] == row;
      RowsAreClasses(rehomed[i], cls, k);
    }
  }

  /** Unique task ids are all a checklist needs for its rows to be proper. */
  lemma ChecklistRowsAreProper(d: Definition, cls: Classifier)
    requires Raw(AllTasks(d.sections)) && Distinct(TaskIdsForChecklist(d))
    ensures ProperRows(Rows(d, cls))
  {
    DisplayKeepsIds(d, cls);
    PermutationKeepsDistinct(TaskIdsForChecklist(d), IdsOnDisplay(Rows(d, cls)));
    forall i | 0 <= i < |Rows(d, cls)|
      ensures SourceTaskIdsForTask(Rows(d, cls)[i]) != []
    {
      RowsStandForTasks(d, cls, Rows(d, cls)[i]);
    }
  }

  // ----- whole runs of updates -----

  datatype Update = Update(row: nat, status: Option<ItemStatus>)

  function ProgressAfter(start: RoomProgress, rows: seq<ChecklistTask>, updates: seq<Update>): RoomProgress
    requires forall u | u in updates :: u.row < |rows|
  {
    if updates == [] then start
    else
      var n := |updates| - 1;
      assert updates[n] in updates;
      Updated(ProgressAfter(start, rows, updates[..n]), SourceTaskIdsForTask(rows[updates[n].row]), updates[n].status)
  }

  /** What the updates last set on a row, or `start` if they never touch it. */
  function LastSet(start: Option<ItemStatus>, updates: seq<Update>, row: nat): Option<ItemStatus> {
    if updates == [] then start
    else if updates[|updates| - 1].row == row then updates[|updates| - 1].status
    else LastSet(start, updates[..|updates| - 1], row)
  }

  /** From any stored progress, however the rows are set, cleared and set again, every row shows what was last set on
      it, and a row never set shows what it showed at the start. */
  lemma {:induction false} EveryRowShowsItsLastStatus(start: RoomProgress, rows: seq<ChecklistTask>,
                                                      updates: seq<Update>, k: nat)
    requires ProperRows(rows) && k < |rows| && forall u | u in updates :: u.row < |rows|
    ensures TaskStatusFromProgress(rows[k], ProgressAfter(start, rows, updates))
            == LastSet(TaskStatusFromProgress(rows[k], start), updates, k)
  {
    if updates != [] {
      var front, last := updates[..|updates| - 1], updates[|updates| - 1];
      assert last in updates;
      EveryRowShowsItsLastStatus(start, rows, front, k);
      UpdateIsLocal(rows, last.row, k, ProgressAfter(start, rows, front), last.status);
    }
  }
}
