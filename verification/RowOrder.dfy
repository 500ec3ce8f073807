/** What a reader of a condensed checklist sees: which tasks share a row, and in which order the rows come. */
module RowOrder {
  import opened Options
  import opened Sequences
  import opened Checklist
  import opened Condense

  /** The tasks behind row i. */
  function Behind(section: Section, cls: Classifier, i: nat): seq<ChecklistTask>
    requires i < |OrderedGroups(section, cls)|
  {
    OrderedGroups(section, cls)[i].tasks
  }

  lemma OrderedAreGroups(section: Section, cls: Classifier, i: nat)
    requires i < |OrderedGroups(section, cls)|
    ensures OrderedGroups(section, cls)[i] in TaskGroups(section.tasks, KeyOf(cls, section.title))
    ensures IsGroup(OrderedGroups(section, cls)[i], section.tasks, KeyOf(cls, section.title))
  {
    var keyOf, gs := KeyOf(cls, section.title), TaskGroups(section.tasks, KeyOf(cls, section.title));
    var g := OrderedGroups(section, cls)[i];
    SortKeepsMembers(gs, Earlier(section.title, cls), g);
    TaskGroupsAreGroups(section.tasks, keyOf);
    var k :| 0 <= k < |gs| && gs[k] == g;
  }

  lemma BehindMeansKey(section: Section, cls: Classifier, i: nat, t: ChecklistTask)
    requires i < |OrderedGroups(section, cls)|
    ensures t in Behind(section, cls, i)
            <==> t in section.tasks && KeyOf(cls, section.title)(t) == OrderedGroups(section, cls)[i].key
  {
    OrderedAreGroups(section, cls, i);
  }

  // ----- the order of phases -----

  /** The order in which the kinds of section show their phases: finishing sections tidy up first, control sections
      look before they clean, all others clean, restore and then look. */
  function PhaseOrder(title: string, cls: Classifier): seq<Phase> {
    if cls.isFinishSection(title) then [Restore, Inspect, Clean, Prepare]
    else if cls.isControlSection(title) then [Prepare, Inspect, Clean, Restore]
    else [Prepare, Clean, Restore, Inspect]
  }

  lemma RankIsPosition(phase: Phase, title: string, cls: Classifier)
    ensures PhaseRank(phase, title, cls) < 4 && PhaseOrder(title, cls)[PhaseRank(phase, title, cls)] == phase
  {
  }

  lemma OrderIsBefore(p: Phase, q: Phase, title: string, cls: Classifier)
    requires PhaseRank(p, title, cls) < PhaseRank(q, title, cls)
    ensures Before(PhaseOrder(title, cls), p, q)
  {
    RankIsPosition(p, title, cls);
    RankIsPosition(q, title, cls);
  }

  /** Some task of the first row stands before every task of the second. */
  ghost predicate StartsBefore(section: Section, first: seq<ChecklistTask>, second: seq<ChecklistTask>) {
    exists p :: 0 <= p < |section.tasks| && section.tasks[p] in first
      && forall q | 0 <= q <= p :: section.tasks[q] !in second
  }

  lemma FirstIndexStartsBefore(section: Section, cls: Classifier, i: nat, j: nat)
    requires i < |OrderedGroups(section, cls)| && j < |OrderedGroups(section, cls)|
    requires OrderedGroups(section, cls)[i].firstIndex < OrderedGroups(section, cls)[j].firstIndex
    ensures StartsBefore(section, Behind(section, cls, i), Behind(section, cls, j))
  {
    OrderedAreGroups(section, cls, i);
    OrderedAreGroups(section, cls, j);
    var p := OrderedGroups(section, cls)[i].firstIndex;
    BehindMeansKey(section, cls, i, section.tasks[p]);
    forall q | 0 <= q <= p
      ensures section.tasks[q] !in Behind(section, cls, j)
    {
      BehindMeansKey(section, cls, j, section.tasks[q]);
    }
  }

  /** Of two rows the earlier one's tasks are of an earlier phase, in the order of the section's kind, or of the same
      phase and started earlier in the section. */
  lemma RowsFollowTheirTasks(section: Section, cls: Classifier, i: nat, j: nat, s: ChecklistTask, t: ChecklistTask)
    requires i < j < |OrderedGroups(section, cls)|
    requires s in Behind(section, cls, i) && t in Behind(section, cls, j)
    ensures var p, q := cls.phaseOf(s.title), cls.phaseOf(t.title);
            || Before(PhaseOrder(section.title, cls), p, q)
            || (p == q && StartsBefore(section, Behind(section, cls, i), Behind(section, cls, j)))
  {
    BehindMeansKey(section, cls, i, s);
    BehindMeansKey(section, cls, j, t);
    RowsFollowPhases(section, cls);
    var p, q := cls.phaseOf(s.title), cls.phaseOf(t.title);
    assert p == OrderedGroups(section, cls)[i].key.phase && q == OrderedGroups(section, cls)[j].key.phase;
    if PhaseRank(p, section.title, cls) < PhaseRank(q, section.title, cls) {
      OrderIsBefore(p, q, section.title, cls);
    } else {
      RankIsPosition(p, section.title, cls);
      RankIsPosition(q, section.title, cls);
      FirstIndexStartsBefore(section, cls, i, j);
    }
  }

  /** In an ordinary section nothing is cleaned before it is prepared, put back before it is cleaned, or looked over
      before it is put back. */
  lemma OrdinarySectionsFollowTheWork(section: Section, cls: Classifier, i: nat, j: nat, s: ChecklistTask,
                                      t: ChecklistTask)
    requires i < j < |OrderedGroups(section, cls)|
    requires s in Behind(section, cls, i) && t in Behind(section, cls, j)
    requires !cls.isFinishSection(section.title) && !cls.isControlSection(section.title)
    ensures cls.phaseOf(t.title) == Prepare ==> cls.phaseOf(s.title) == Prepare
    ensures cls.phaseOf(t.title) == Clean ==> cls.phaseOf(s.title) in {Prepare, Clean}
    ensures cls.phaseOf(t.title) == Restore ==> cls.phaseOf(s.title) in {Prepare, Clean, Restore}
  {
    RowsFollowTheirTasks(section, cls, i, j, s, t);
  }

  // ----- which tasks share a row -----

  predicate IsAboutFloor(topic: Topic) {
    topic in {FloorDry, FloorWet, FloorTreatment}
  }

  /** Same phase and same topic, where outside the cleaning phase all work on the floor is one topic. */
  predicate Alike(s: ChecklistTask, t: ChecklistTask, title: string, cls: Classifier) {
    var p, a, b := cls.phaseOf(s.title), cls.topicOf(s.title, title), cls.topicOf(t.title, title);
    p == cls.phaseOf(t.title) && (a == b || (p != Clean && IsAboutFloor(a) && IsAboutFloor(b)))
  }

  lemma AlikeMeansSameKey(s: ChecklistTask, t: ChecklistTask, title: string, cls: Classifier)
    ensures KeyOf(cls, title)(s) == KeyOf(cls, title)(t) <==> Alike(s, t, title, cls)
  {
  }

  lemma EveryTaskHasAGroup(tasks: seq<ChecklistTask>, keyOf: ChecklistTask -> Key, t: ChecklistTask)
    returns (g: TaskGroup)
    requires t in tasks
    ensures g in TaskGroups(tasks, keyOf) && g.key == keyOf(t)
  {
    TaskGroupsAreGroups(tasks, keyOf);
    var gs := TaskGroups(tasks, keyOf);
    var p :| 0 <= p < |tasks| && tasks[p] == t;
    assert HasKey(gs, keyOf(tasks[p]));
    var k :| 0 <= k < |gs| && gs[k].key == keyOf(t);
    g := gs[k];
  }

  lemma EveryTaskHasARow(section: Section, cls: Classifier, t: ChecklistTask) returns (i: nat)
    requires t in section.tasks
    ensures i < |OrderedGroups(section, cls)| && t in Behind(section, cls, i)
  {
    var g := EveryTaskHasAGroup(section.tasks, KeyOf(cls, section.title), t);
    SortKeepsMembers(TaskGroups(section.tasks, KeyOf(cls, section.title)), Earlier(section.title, cls), g);
    i :| 0 <= i < |OrderedGroups(section, cls)| && OrderedGroups(section, cls)[i] == g;
    BehindMeansKey(section, cls, i, t);
  }

  /** Two tasks of a section share a row exactly when they are alike. */
  lemma ShareARowExactly(section: Section, cls: Classifier, s: ChecklistTask, t: ChecklistTask)
    requires s in section.tasks && t in section.tasks
    ensures (exists i :: 0 <= i < |OrderedGroups(section, cls)|
               && s in Behind(section, cls, i) && t in Behind(section, cls, i))
            <==> Alike(s, t, section.title, cls)
  {
    AlikeMeansSameKey(s, t, section.title, cls);
    var i := EveryTaskHasARow(section, cls, s);
    BehindMeansKey(section, cls, i, s);
    BehindMeansKey(section, cls, i, t);
    forall k | 0 <= k < |OrderedGroups(section, cls)| && s in Behind(section, cls, k) && t in Behind(section, cls, k)
      ensures Alike(s, t, section.title, cls)
    {
      BehindMeansKey(section, cls, k, s);
      BehindMeansKey(section, cls, k, t);
    }
  }

  // ----- what a row shows -----

  /** The topic under which a row of floor work is filed. */
  function FiledTopic(phase: Phase, topic: Topic): Topic {
    if phase == Clean || !IsAboutFloor(topic) then topic
    else if phase == Prepare then FloorDry
    else FloorWet
  }

  /** The tasks behind a row stand there in the section's order. */
  lemma RowsKeepTheOrder(section: Section, cls: Classifier, i: nat, a: ChecklistTask, b: ChecklistTask)
    requires i < |OrderedGroups(section, cls)| && a in Behind(section, cls, i) && b in Behind(section, cls, i)
    ensures Before(Behind(section, cls, i), a, b) <==> Before(section.tasks, a, b)
  {
    OrderedAreGroups(section, cls, i);
    BehindMeansKey(section, cls, i, a);
    BehindMeansKey(section, cls, i, b);
    GroupKeepsOrder(section.tasks, KeyOf(cls, section.title), OrderedGroups(section, cls)[i].key, a, b);
  }

  /** A task alone in its row is shown as it is. Several make a row of their own, named after section, phase and
      topic, that includes them all. */
  lemma RowShowsItsTasks(section: Section, cls: Classifier, i: nat, t: ChecklistTask)
    requires i < |OrderedGroups(section, cls)| && t in Behind(section, cls, i)
    ensures |Condensed(section, cls)| == |OrderedGroups(section, cls)|
    ensures var behind, row := Behind(section, cls, i), Condensed(section, cls)[i];
            var phase := cls.phaseOf(t.title);
            var key := Key(phase, FiledTopic(phase, cls.topicOf(t.title, section.title)));
            && (|behind| == 1 ==> row == behind[0])
            && (|behind| >= 2 ==>
                  && row.id == cls.rowId(section.id, key) && row.title == cls.rowTitle(section.title, key)
                  && row.sourceTaskIds == Some(Transform(behind, TaskId)) && row.includedTasks == behind)
  {
    BehindMeansKey(section, cls, i, t);
  }

  // ----- the whole checklist -----

  /** The bedroom's checklist is shown as written. Any other keeps its sections with their ids and titles, and each of
      them shows the rows of what re-homing leaves in it. */
  lemma SectionsAsShown(d: Definition, cls: Classifier, i: nat)
    requires i < |d.sections|
    ensures |SectionsForChecklist(d, cls)| == |Rehomed(d.sections, cls)| == |d.sections|
    ensures d.listId == cls.bedroomListId ==> SectionsForChecklist(d, cls)[i] == d.sections[i]
    ensures d.listId != cls.bedroomListId ==>
              SectionsForChecklist(d, cls)[i]
              == Section(d.sections[i].id, d.sections[i].title, Condensed(Rehomed(d.sections, cls)[i], cls))
  {
    var floor := FloorSectionIndex(d.sections, cls);
    if floor >= 0 {
      ThinnedAt(d.sections, |d.sections|, floor, cls);
    }
  }
}
