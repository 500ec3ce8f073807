/** The checklist condenser: floor tasks are re-homed to the floor section, then each section's tasks are grouped,
    ordered and merged into rows that remember their source tasks. */
module Checklist {
  import opened Options
  import opened Sequences

  datatype ChecklistTask = ChecklistTask(
    id: string,
    title: string,
    condition: string,
    safety: Option<string>,
    sourceTaskIds: Option<seq<string>>,
    includedTasks: seq<ChecklistTask>)

  datatype Section = Section(id: string, title: string, tasks: seq<ChecklistTask>)

  datatype Definition = Definition(listId: string, sections: seq<Section>)

  datatype Phase = Prepare | Clean | Inspect | Restore

  datatype Topic =
    | Main | Lighting | Drain | Textiles | Windows | Plants | Electronics | Pet | Trim
    | FloorDry | FloorWet | FloorTreatment

  datatype Key = Key(phase: Phase, topic: Topic)

  /** The title classifiers of the source, taken as arbitrary total functions. */
  datatype Classifier = Classifier(
    phaseOf: string -> Phase,
    topicOf: (string, string) -> Topic,
    isFloorSection: string -> bool,
    hidesFloor: string -> bool,
    isFinishSection: string -> bool,
    isControlSection: string -> bool,
    rowId: (string, Key) -> string,
    rowTitle: (string, Key) -> string,
    bedroomListId: string)

  function TasksOf(s: Section): seq<ChecklistTask> {
    s.tasks
  }

  function AllTasks(sections: seq<Section>): seq<ChecklistTask> {
    Flatten(Transform(sections, TasksOf))
  }

  function TaskId(t: ChecklistTask): string {
    t.id
  }

  function TaskIdsForChecklist(d: Definition): seq<string> {
    Transform(AllTasks(d.sections), TaskId)
  }

  // ----- re-homing -----

  /** The last floor section, or -1. */
  function FloorSectionIndex(sections: seq<Section>, cls: Classifier): (i: int)
    ensures -1 <= i < |sections|
    ensures i >= 0 ==> cls.isFloorSection(sections[i].title)
    ensures forall k | i < k < |sections| :: !cls.isFloorSection(sections[k].title)
  {
    if sections == [] then -1
    else if cls.isFloorSection(sections[|sections| - 1].title) then |sections| - 1
    else FloorSectionIndex(sections[..|sections| - 1], cls)
  }

  function Moves(cls: Classifier): ChecklistTask -> bool {
    (t: ChecklistTask) => cls.hidesFloor(t.title)
  }

  function Stays(cls: Classifier): ChecklistTask -> bool {
    (t: ChecklistTask) => !cls.hidesFloor(t.title)
  }

  function Leaving(section: Section, isFloor: bool, cls: Classifier): seq<ChecklistTask> {
    if isFloor then [] else Filter(section.tasks, Moves(cls))
  }

  function LeavingAt(sections: seq<Section>, floor: int, cls: Classifier): nat -> seq<ChecklistTask> {
    (i: nat) => if i < |sections| then Leaving(sections[i], i == floor, cls) else []
  }

  /** The tasks that leave the sections from `from` up to n, in order, the floor section excepted. */
  function Moved(sections: seq<Section>, from: nat, n: nat, floor: int, cls: Classifier): seq<ChecklistTask> {
    Gather(LeavingAt(sections, floor, cls), from, n)
  }

  function MovedTasks(sections: seq<Section>, floor: int, cls: Classifier): seq<ChecklistTask> {
    Moved(sections, 0, |sections|, floor, cls)
  }

  function ThinnedSection(section: Section, isFloor: bool, cls: Classifier): Section {
    if isFloor then section else section.(tasks := Filter(section.tasks, Stays(cls)))
  }

  function ThinnedUpTo(sections: seq<Section>, n: nat, floor: int, cls: Classifier): (r: seq<Section>)
    requires n <= |sections|
    ensures |r| == n
  {
    if n == 0 then []
    else ThinnedUpTo(sections, n - 1, floor, cls) + [ThinnedSection(sections[n - 1], n - 1 == floor, cls)]
  }

  /** The sections without the tasks that leave. */
  function Thinned(sections: seq<Section>, floor: int, cls: Classifier): seq<Section> {
    ThinnedUpTo(sections, |sections|, floor, cls)
  }

  lemma {:induction false} ThinnedAt(sections: seq<Section>, n: nat, floor: int, cls: Classifier)
    requires n <= |sections|
    ensures forall i | 0 <= i < n ::
              ThinnedUpTo(sections, n, floor, cls)[i] == ThinnedSection(sections[i], i == floor, cls)
  {
    if n > 0 {
      ThinnedAt(sections, n - 1, floor, cls);
    }
  }

  function PutFirst(sections: seq<Section>, i: nat, tasks: seq<ChecklistTask>): seq<Section>
    requires i < |sections|
  {
    sections[i := sections[i].(tasks := tasks + sections[i].tasks)]
  }

  function Rehomed(sections: seq<Section>, cls: Classifier): seq<Section> {
    var floor := FloorSectionIndex(sections, cls);
    if floor < 0 then sections else PutFirst(Thinned(sections, floor, cls), floor, MovedTasks(sections, floor, cls))
  }

  method RehomeHiddenFloorTasks(sections: seq<Section>, cls: Classifier) returns (r: seq<Section>)
    ensures r == Rehomed(sections, cls)
  {
    var floorSectionIndex := -1;
    for index := 0 to |sections|
      invariant floorSectionIndex == FloorSectionIndex(sections[..index], cls)
    {
      assert sections[..index + 1][..index] == sections[..index];
      if cls.isFloorSection(sections[index].title) {
        floorSectionIndex := index;
      }
    }
    assert sections[..|sections|] == sections;
    if floorSectionIndex < 0 {
      return sections;
    }
    var movedTasks, nextSections := TakeOutHiddenFloorTasks(sections, floorSectionIndex, cls);
    r := PutFirst(nextSections, floorSectionIndex, movedTasks);
  }

  method TakeOutHiddenFloorTasks(sections: seq<Section>, floorSectionIndex: int, cls: Classifier)
    returns (movedTasks: seq<ChecklistTask>, nextSections: seq<Section>)
    ensures movedTasks == MovedTasks(sections, floorSectionIndex, cls)
    ensures nextSections == Thinned(sections, floorSectionIndex, cls)
  {
    movedTasks, nextSections := [], [];
    for i := 0 to |sections|
      invariant movedTasks == Moved(sections, 0, i, floorSectionIndex, cls)
      invariant nextSections == ThinnedUpTo(sections, i, floorSectionIndex, cls)
    {
      var moved, kept := SplitSection(sections[i], i == floorSectionIndex, cls);
      movedTasks := movedTasks + moved;
      nextSections := nextSections + [kept];
    }
  }

  method SplitSection(section: Section, isFloor: bool, cls: Classifier)
    returns (moved: seq<ChecklistTask>, kept: Section)
    ensures moved == Leaving(section, isFloor, cls) && kept == ThinnedSection(section, isFloor, cls)
  {
    if isFloor {
      return [], section;
    }
    var keptTasks;
    moved, keptTasks := SplitTasks(section.tasks, cls);
    kept := section.(tasks := keptTasks);
  }

  /** The filter callback of the source, which also collects what it drops. */
  method SplitTasks(tasks: seq<ChecklistTask>, cls: Classifier)
    returns (moved: seq<ChecklistTask>, kept: seq<ChecklistTask>)
    ensures moved == Filter(tasks, Moves(cls)) && kept == Filter(tasks, Stays(cls))
  {
    moved, kept := [], [];
    for i := 0 to |tasks|
      invariant moved == Filter(tasks[..i], Moves(cls)) && kept == Filter(tasks[..i], Stays(cls))
    {
      assert tasks[..i + 1][..i] == tasks[..i];
      if cls.hidesFloor(tasks[i].title) {
        moved := moved + [tasks[i]];
      } else {
        kept := kept + [tasks[i]];
      }
    }
    assert tasks[..|tasks|] == tasks;
  }

  // ----- re-homing moves, and does nothing else -----

  lemma {:induction false} SplitKeepsTasks(tasks: seq<ChecklistTask>, cls: Classifier)
    ensures multiset(Filter(tasks, Moves(cls))) + multiset(Filter(tasks, Stays(cls))) == multiset(tasks)
  {
    if tasks != [] {
      assert tasks == tasks[..|tasks| - 1] + [tasks[|tasks| - 1]];
      SplitKeepsTasks(tasks[..|tasks| - 1], cls);
    }
  }

  lemma AllTasksAppend(sections: seq<Section>, last: Section)
    ensures AllTasks(sections + [last]) == AllTasks(sections) + last.tasks
  {
    assert Transform(sections + [last], TasksOf)[..|sections|] == Transform(sections, TasksOf);
  }

  /** What moved and what was kept are together what there was. */
  ghost predicate AreParts<T>(moved: seq<T>, kept: seq<T>, all: seq<T>) {
    multiset(moved) + multiset(kept) == multiset(all)
  }

  lemma SplittingKeepsTasks(section: Section, isFloor: bool, cls: Classifier)
    ensures AreParts(Leaving(section, isFloor, cls), ThinnedSection(section, isFloor, cls).tasks, section.tasks)
  {
    SplitKeepsTasks(section.tasks, cls);
  }

  ghost predicate Extended<T>(longer: seq<T>, s: seq<T>, more: seq<T>) {
    longer == s + more
  }

  lemma PartsExtend<T>(moved: seq<T>, kept: seq<T>, all: seq<T>, moreMoved: seq<T>, moreKept: seq<T>, more: seq<T>,
                       allMoved: seq<T>, allKept: seq<T>, longer: seq<T>)
    requires AreParts(moved, kept, all) && AreParts(moreMoved, moreKept, more)
    requires Extended(allMoved, moved, moreMoved) && Extended(allKept, kept, moreKept) && Extended(longer, all, more)
    ensures AreParts(allMoved, allKept, longer)
  {
  }

  lemma ThinnedNext(sections: seq<Section>, n: nat, floor: int, cls: Classifier)
    requires n < |sections|
    ensures Extended(Moved(sections, 0, n + 1, floor, cls), Moved(sections, 0, n, floor, cls),
                     Leaving(sections[n], n == floor, cls))
    ensures Extended(AllTasks(ThinnedUpTo(sections, n + 1, floor, cls)), AllTasks(ThinnedUpTo(sections, n, floor, cls)),
                     ThinnedSection(sections[n], n == floor, cls).tasks)
    ensures Extended(AllTasks(sections[..n + 1]), AllTasks(sections[..n]), sections[n].tasks)
  {
    AllTasksAppend(ThinnedUpTo(sections, n, floor, cls), ThinnedSection(sections[n], n == floor, cls));
    AllTasksAppend(sections[..n], sections[n]);
    TakeNext(sections, n);
  }

  /** The tasks of the first n sections are those that left them and those that stayed. */
  ghost predicate ThinningKeeps(sections: seq<Section>, n: nat, floor: int, cls: Classifier)
    requires n <= |sections|
  {
    AreParts(Moved(sections, 0, n, floor, cls), AllTasks(ThinnedUpTo(sections, n, floor, cls)),
      AllTasks(sections[..n]))
  }

  lemma NothingThinned(sections: seq<Section>, floor: int, cls: Classifier)
    ensures ThinningKeeps(sections, 0, floor, cls)
  {
    assert AllTasks(sections[..0]) == [];
  }

  lemma ThinningOneMore(sections: seq<Section>, n: nat, floor: int, cls: Classifier)
    requires n < |sections| && ThinningKeeps(sections, n, floor, cls)
    ensures ThinningKeeps(sections, n + 1, floor, cls)
  {
    var last, isFloor := sections[n], n == floor;
    SplittingKeepsTasks(last, isFloor, cls);
    ThinnedNext(sections, n, floor, cls);
    PartsExtend(Moved(sections, 0, n, floor, cls), AllTasks(ThinnedUpTo(sections, n, floor, cls)),
        AllTasks(sections[..n]), Leaving(last, isFloor, cls), ThinnedSection(last, isFloor, cls).tasks, last.tasks,
        Moved(sections, 0, n + 1, floor, cls), AllTasks(ThinnedUpTo(sections, n + 1, floor, cls)),
        AllTasks(sections[..n + 1]));
  }

  lemma {:induction false} ThinningKeepsTasks(sections: seq<Section>, n: nat, floor: int, cls: Classifier)
    requires n <= |sections|
    ensures ThinningKeeps(sections, n, floor, cls)
  {
    if n == 0 {
      NothingThinned(sections, floor, cls);
    } else {
      ThinningKeepsTasks(sections, n - 1, floor, cls);
      ThinningOneMore(sections, n - 1, floor, cls);
    }
  }

  lemma {:induction false} PutFirstAddsTasks(sections: seq<Section>, i: nat, tasks: seq<ChecklistTask>)
    requires i < |sections|
    ensures multiset(AllTasks(PutFirst(sections, i, tasks))) == multiset(AllTasks(sections)) + multiset(tasks)
  {
    var n := |sections| - 1;
    var front, last := sections[..n], sections[n];
    assert sections == front + [last];
    AllTasksAppend(front, last);
    if i < n {
      PutFirstAddsTasks(front, i, tasks);
      AllTasksAppend(PutFirst(front, i, tasks), last);
      assert PutFirst(sections, i, tasks) == PutFirst(front, i, tasks) + [last];
    } else {
      AllTasksAppend(front, last.(tasks := tasks + last.tasks));
      assert PutFirst(sections, i, tasks) == front + [last.(tasks := tasks + last.tasks)];
    }
  }

  /** Re-homing loses no task and repeats none. */
  lemma RehomingPermutesTasks(sections: seq<Section>, cls: Classifier)
    ensures multiset(AllTasks(Rehomed(sections, cls))) == multiset(AllTasks(sections))
  {
    var floor := FloorSectionIndex(sections, cls);
    if floor >= 0 {
      ThinningKeepsTasks(sections, |sections|, floor, cls);
      assert sections[..|sections|] == sections;
      PutFirstAddsTasks(Thinned(sections, floor, cls), floor, MovedTasks(sections, floor, cls));
    }
  }

  lemma {:induction false} SameTitlesSameFloor(a: seq<Section>, b: seq<Section>, cls: Classifier)
    requires |a| == |b| && forall i | 0 <= i < |a| :: a[i].title == b[i].title
    ensures FloorSectionIndex(a, cls) == FloorSectionIndex(b, cls)
  {
    if a != [] {
      SameTitlesSameFloor(a[..|a| - 1], b[..|b| - 1], cls);
    }
  }

  /** Outside the floor section nothing is left that would move. */
  ghost predicate Settled(sections: seq<Section>, floor: int, cls: Classifier) {
    forall i, t | 0 <= i < |sections| && i != floor && t in sections[i].tasks :: !cls.hidesFloor(t.title)
  }

  lemma SettledSectionsStay(sections: seq<Section>, cls: Classifier)
    requires Settled(sections, FloorSectionIndex(sections, cls), cls)
    ensures Rehomed(sections, cls) == sections
  {
    var floor := FloorSectionIndex(sections, cls);
    if floor >= 0 {
      forall i | 0 <= i < |sections|
        ensures Leaving(sections[i], i == floor, cls) == []
                && ThinnedSection(sections[i], i == floor, cls) == sections[i]
      {
        if i != floor {
          FilterNothing(sections[i].tasks, Moves(cls));
          FilterEverything(sections[i].tasks, Stays(cls));
        }
      }
      GatherNothing(LeavingAt(sections, floor, cls), 0, |sections|);
      ThinnedAt(sections, |sections|, floor, cls);
      assert Thinned(sections, floor, cls) == sections;
      assert [] + sections[floor].tasks == sections[floor].tasks;
    }
  }

  /** Re-homing is idempotent: a re-homed checklist is left as it is. */
  lemma RehomingIsIdempotent(sections: seq<Section>, cls: Classifier)
    ensures Rehomed(Rehomed(sections, cls), cls) == Rehomed(sections, cls)
  {
    var floor, once := FloorSectionIndex(sections, cls), Rehomed(sections, cls);
    if floor >= 0 {
      ThinnedAt(sections, |sections|, floor, cls);
      SameTitlesSameFloor(sections, once, cls);
      SettledSectionsStay(once, cls);
    }
  }

  /** After re-homing, tasks about hidden floor stand only in the floor section. */
  lemma HiddenFloorTasksAreRehomed(sections: seq<Section>, cls: Classifier, i: nat, t: ChecklistTask)
    requires FloorSectionIndex(sections, cls) >= 0 && i < |Rehomed(sections, cls)|
    requires t in Rehomed(sections, cls)[i].tasks && cls.hidesFloor(t.title)
    ensures i == FloorSectionIndex(sections, cls)
  {
    ThinnedAt(sections, |sections|, FloorSectionIndex(sections, cls), cls);
  }

  lemma SwapKeepsOrder<T>(a: seq<T>, b: seq<T>)
    requires Distinct(a + b)
    ensures b + a == a + b <==> a == [] || b == []
  {
    if a != [] && b != [] {
      assert (a + b)[0] == a[0] && (b + a)[0] == b[0];
      assert (a + b)[|a|] == b[0];
    }
  }

  /** Tasks re-homed from before the floor section keep their place in the order; those from after it overtake the
      section's own tasks. So the floor section reads in original order exactly when it has no tasks of its own or
      nothing moves in from a later section. */
  lemma FloorSectionOrder(sections: seq<Section>, cls: Classifier)
    requires FloorSectionIndex(sections, cls) >= 0
    ensures var floor := FloorSectionIndex(sections, cls);
            var own, before := sections[floor].tasks, Moved(sections, 0, floor, floor, cls);
            var after := Moved(sections, floor + 1, |sections|, floor, cls);
            && Rehomed(sections, cls)[floor].tasks == before + after + own
            && (Distinct(own + after) ==>
                  (Rehomed(sections, cls)[floor].tasks == before + own + after <==> own == [] || after == []))
  {
    var floor := FloorSectionIndex(sections, cls);
    var own, before := sections[floor].tasks, Moved(sections, 0, floor, floor, cls);
    var after := Moved(sections, floor + 1, |sections|, floor, cls);
    var leaving := LeavingAt(sections, floor, cls);
    GatherInTwoParts(leaving, 0, floor + 1, |sections|);
    assert Gather(leaving, 0, floor + 1) == before + leaving(floor) == before;
    ThinnedAt(sections, |sections|, floor, cls);
    if Distinct(own + after) {
      OvertakingOrder(before, own, after);
    }
  }

  lemma OvertakingOrder<T>(before: seq<T>, own: seq<T>, after: seq<T>)
    requires Distinct(own + after)
    ensures before + after + own == before + own + after <==> own == [] || after == []
  {
    SwapKeepsOrder(own, after);
    ConcatAssociates(before, after, own);
    ConcatAssociates(before, own, after);
    CancelPrefix(before, after + own, own + after);
  }

  lemma CancelPrefix<T>(p: seq<T>, a: seq<T>, b: seq<T>)
    ensures p + a == p + b <==> a == b
  {
    if p + a == p + b {
      assert a == (p + a)[|p|..] == (p + b)[|p|..] == b;
    }
  }

  // ----- what moves, and in which order -----

  lemma {:induction false} MovedHideFloor(sections: seq<Section>, n: nat, floor: int, cls: Classifier)
    requires n <= |sections|
    ensures forall t | t in Moved(sections, 0, n, floor, cls) :: cls.hidesFloor(t.title)
  {
    if n > 0 {
      MovedHideFloor(sections, n - 1, floor, cls);
    }
  }

  /** Tasks that are not about hidden floor stay in their section and in their order there. */
  lemma OtherTasksStayPut(sections: seq<Section>, cls: Classifier, i: nat, a: ChecklistTask, b: ChecklistTask)
    requires i < |sections| && !cls.hidesFloor(a.title) && !cls.hidesFloor(b.title)
    ensures |Rehomed(sections, cls)| == |sections|
    ensures Rehomed(sections, cls)[i].id == sections[i].id && Rehomed(sections, cls)[i].title == sections[i].title
    ensures a in Rehomed(sections, cls)[i].tasks <==> a in sections[i].tasks
    ensures Before(Rehomed(sections, cls)[i].tasks, a, b) <==> Before(sections[i].tasks, a, b)
  {
    var floor := FloorSectionIndex(sections, cls);
    if floor >= 0 {
      ThinnedAt(sections, |sections|, floor, cls);
      if i == floor {
        MovedHideFloor(sections, |sections|, floor, cls);
        BeforeConcat(MovedTasks(sections, floor, cls), sections[floor].tasks, a, b);
        assert Before(MovedTasks(sections, floor, cls), a, b) ==> a in MovedTasks(sections, floor, cls);
      } else {
        FilterKeepsOrder(sections[i].tasks, Stays(cls), a, b);
      }
    }
  }

  /** Hidden-floor work of a section other than the floor section. */
  ghost predicate ComesFromElsewhere(t: ChecklistTask, sections: seq<Section>, floor: nat, cls: Classifier)
    requires floor < |sections|
  {
    cls.hidesFloor(t.title) && t !in sections[floor].tasks
  }

  lemma LeavingKeepsOrder(section: Section, isFloor: bool, cls: Classifier, a: ChecklistTask, b: ChecklistTask)
    requires cls.hidesFloor(a.title) && cls.hidesFloor(b.title)
    requires isFloor ==> a !in section.tasks && b !in section.tasks
    ensures SameOrder(Leaving(section, isFloor, cls), section.tasks, a, b)
  {
    FilterKeepsOrder(section.tasks, Moves(cls), a, b);
  }

  /** The tasks that left the first n sections stand in the order in which those sections list them. */
  ghost predicate MovedInOrder(sections: seq<Section>, n: nat, floor: nat, cls: Classifier, a: ChecklistTask,
                               b: ChecklistTask)
    requires n <= |sections|
  {
    SameOrder(Moved(sections, 0, n, floor, cls), AllTasks(sections[..n]), a, b)
  }

  lemma MovedOneMore(sections: seq<Section>, n: nat, floor: nat, cls: Classifier, a: ChecklistTask, b: ChecklistTask)
    requires n < |sections| && floor < |sections| && MovedInOrder(sections, n, floor, cls, a, b)
    requires ComesFromElsewhere(a, sections, floor, cls) && ComesFromElsewhere(b, sections, floor, cls)
    ensures MovedInOrder(sections, n + 1, floor, cls, a, b)
  {
    ThinnedNext(sections, n, floor, cls);
    LeavingKeepsOrder(sections[n], n == floor, cls, a, b);
    SameOrderConcat(Moved(sections, 0, n, floor, cls), Leaving(sections[n], n == floor, cls), AllTasks(sections[..n]),
        sections[n].tasks, Moved(sections, 0, n + 1, floor, cls), AllTasks(sections[..n + 1]), a, b);
  }

  lemma {:induction false} MovedKeepOrder(sections: seq<Section>, n: nat, floor: nat, cls: Classifier, a: ChecklistTask,
                                          b: ChecklistTask)
    requires n <= |sections| && floor < |sections|
    requires ComesFromElsewhere(a, sections, floor, cls) && ComesFromElsewhere(b, sections, floor, cls)
    ensures MovedInOrder(sections, n, floor, cls, a, b)
  {
    if n == 0 {
      assert AllTasks(sections[..0]) == [];
    } else {
      MovedKeepOrder(sections, n - 1, floor, cls, a, b);
      MovedOneMore(sections, n - 1, floor, cls, a, b);
    }
  }

  /** Of two tasks that moved to the floor section the one listed first in the checklist still comes first. */
  lemma MovedTasksKeepChecklistOrder(sections: seq<Section>, cls: Classifier, a: ChecklistTask, b: ChecklistTask)
    requires FloorSectionIndex(sections, cls) >= 0
    requires ComesFromElsewhere(a, sections, FloorSectionIndex(sections, cls), cls)
    requires ComesFromElsewhere(b, sections, FloorSectionIndex(sections, cls), cls)
    ensures Before(Rehomed(sections, cls)[FloorSectionIndex(sections, cls)].tasks, a, b)
            <==> Before(AllTasks(sections), a, b)
  {
    var floor := FloorSectionIndex(sections, cls);
    MovedKeepOrder(sections, |sections|, floor, cls, a, b);
    assert sections[..|sections|] == sections;
    ThinnedAt(sections, |sections|, floor, cls);
    BeforeConcat(MovedTasks(sections, floor, cls), sections[floor].tasks, a, b);
  }
}
