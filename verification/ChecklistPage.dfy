/** The room checklist page: progress by room, the completion history, and the steps that change them. */
module ChecklistPage {
  import opened Options
  import opened Sequences
  import opened Tasks
  import opened TaskHistory
  import opened Checklist
  import opened Condense
  import opened ChecklistProgress
  import opened PlannerSync

  type AllProgress = map<string, RoomProgress>

  function ProgressOf(all: AllProgress, roomId: string): RoomProgress {
    if roomId in all then all[roomId] else map[]
  }

  class RoomChecklistPage {
    const roomId: string
    const checklist: Definition
    const cls: Classifier
    const links: seq<Link>
    const bank: seq<Task>
    var allProgress: AllProgress
    var history: seq<Completion>
    /** The planner tasks named in the notice, in order. */
    var synced: seq<string>

    constructor (roomId: string, checklist: Definition, cls: Classifier, links: seq<Link>, bank: seq<Task>,
                 allProgress: AllProgress, stored: seq<Completion>, now: int)
      ensures this.roomId == roomId && this.checklist == checklist && this.cls == cls && this.links == links
              && this.bank == bank
      ensures this.allProgress == allProgress && history == PruneTaskHistory(stored, now) && synced == []
    {
      this.roomId, this.checklist, this.cls, this.links, this.bank := roomId, checklist, cls, links, bank;
      this.allProgress, history, synced := allProgress, PruneTaskHistory(stored, now), [];
    }

    /** Sets or clears every source task of a row, then credits the planner tasks that this completes. */
    method SetItemStatus(row: ChecklistTask, status: Option<ItemStatus>, now: int)
      modifies this
      ensures allProgress == old(allProgress)[
                roomId := Updated(ProgressOf(old(allProgress), roomId), SourceTaskIdsForTask(row), status)]
      ensures history == Synced(links, ProgressOf(allProgress, roomId), bank, old(history), now)
      ensures synced == Transform(
                AddedUpTo(links, |links|, ProgressOf(allProgress, roomId), bank, old(history), now), CompletedId)
    {
      var nextRoomProgress := UpdateEach(ProgressOf(allProgress, roomId), SourceTaskIdsForTask(row), status);
      allProgress := allProgress[roomId := nextRoomProgress];
      SyncCompletedPlannerTasks(nextRoomProgress, now);
    }

    method SyncCompletedPlannerTasks(nextRoomProgress: RoomProgress, now: int)
      modifies this`history, this`synced
      ensures history == Synced(links, nextRoomProgress, bank, old(history), now)
      ensures synced == Transform(AddedUpTo(links, |links|, nextRoomProgress, bank, old(history), now), CompletedId)
    {
      var nextHistory, syncedTitles := history, [];
      for i := 0 to |links|
        invariant history == old(history)
        invariant nextHistory == SyncedUpTo(links, i, nextRoomProgress, bank, history, now)
        invariant syncedTitles == Transform(AddedUpTo(links, i, nextRoomProgress, bank, history, now), CompletedId)
      {
        var link := links[i];
        if !RequirementsResolved(link, nextRoomProgress) {
          continue;
        }
        var plannerTask := TaskById(bank, link.taskId);
        if plannerTask.None?
            || IsTaskOnCooldown(plannerTask.value.id, CooldownFor(plannerTask.value), nextHistory, now) {
          continue;
        }
        TransformConcat(AddedUpTo(links, i, nextRoomProgress, bank, history, now),
            [Completion(plannerTask.value.id, now)], CompletedId);
        nextHistory := AddTaskCompletion(nextHistory, plannerTask.value.id, now);
        syncedTitles := syncedTitles + [plannerTask.value.id];
      }
      history, synced := nextHistory, syncedTitles;
    }

    /** Starts the checklist over; the planner's history keeps what was credited. */
    method ResetChecklist()
      modifies this`allProgress, this`synced
      ensures allProgress == old(allProgress) - {roomId} && synced == []
    {
      allProgress, synced := allProgress - {roomId}, [];
    }
  }

  function CompletedId(c: Completion): string {
    c.taskId
  }

  /** The loop over a row's source ids: assignment to, or deletion from, the room's record. */
  method UpdateEach(progress: RoomProgress, ids: seq<string>, status: Option<ItemStatus>) returns (next: RoomProgress)
    ensures next == Updated(progress, ids, status)
  {
    next := progress;
    for i := 0 to |ids|
      invariant forall id :: Lookup(next, id) == if id in ids[..i] then status else Lookup(progress, id)
    {
      TakeNext(ids, i);
      next := if status.Some? then next[ids[i] := status.value] else next - {ids[i]};
    }
    assert ids[..|ids|] == ids;
    SameLookups(next, Updated(progress, ids, status));
  }

  lemma SameLookups(a: RoomProgress, b: RoomProgress)
    requires forall id :: Lookup(a, id) == Lookup(b, id)
    ensures a == b
  {
    forall id
      ensures id in a <==> id in b
      ensures id in a && id in b ==> a[id] == b[id]
    {
      assert Lookup(a, id) == Lookup(b, id);
    }
  }

  // ----- what the page shows after a step -----

  /** With unique task ids, a step on one row shows exactly that row's new status and leaves every other row,
      and so the resolved count moves by at most one. */
  lemma SettingARowShows(d: Definition, cls: Classifier, all: AllProgress, roomId: string, i: nat,
                         status: Option<ItemStatus>)
    requires Raw(AllTasks(d.sections)) && Distinct(TaskIdsForChecklist(d)) && i < |Rows(d, cls)|
    ensures var rows, before := Rows(d, cls), ProgressOf(all, roomId);
            var after := ProgressOf(all[roomId := Updated(before, SourceTaskIdsForTask(rows[i]), status)], roomId);
            && (forall k | 0 <= k < |rows| ::
                  TaskStatusFromProgress(rows[k], after)
                  == if k == i then status else TaskStatusFromProgress(rows[k], before))
            && ResolvedTaskCountForChecklist(d, cls, after) - ResolvedTaskCountForChecklist(d, cls, before)
               == (if status.Some? then 1 else 0) - (if TaskStatusFromProgress(rows[i], before).Some? then 1 else 0)
  {
    var rows, before := Rows(d, cls), ProgressOf(all, roomId);
    ChecklistRowsAreProper(d, cls);
    forall k | 0 <= k < |rows|
      ensures TaskStatusFromProgress(rows[k], Updated(before, SourceTaskIdsForTask(rows[i]), status))
              == if k == i then status else TaskStatusFromProgress(rows[k], before)
    {
      UpdateIsLocal(rows, i, k, before, status);
    }
    CountMovesWithTheRow(rows, i, before, status);
  }

  /** A link that asks for the whole checklist is met exactly when the bar is full, though the bar counts merged
      rows. */
  lemma WholeChecklistLinkIsMetAtFullBar(d: Definition, cls: Classifier, link: Link, progress: RoomProgress)
    requires Raw(AllTasks(d.sections)) && link.requirementIds == TaskIdsForChecklist(d)
    ensures RequirementsResolved(link, progress)
            <==> ResolvedTaskCountForChecklist(d, cls, progress) == TaskCountForChecklist(d, cls)
    ensures RequirementsResolved(link, progress) <==> RemainingSourceTaskCount(d, cls, progress) == 0
  {
    FullBarMeansTasksResolved(d, cls, progress);
    RemainingCountsTasks(d, cls, progress);
    NothingCounted(TaskIdsForChecklist(d), Unresolved(progress));
  }

  lemma NothingCounted<T>(s: seq<T>, p: T -> bool)
    ensures |Filter(s, p)| == 0 <==> forall x | x in s :: !p(x)
  {
    if x :| x in s && p(x) {
      assert x in Filter(s, p);
    }
    if Filter(s, p) != [] {
      assert Filter(s, p)[0] in Filter(s, p);
    }
  }
}
