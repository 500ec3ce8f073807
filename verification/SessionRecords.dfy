/** From plan to history: what a finished session has recorded. */
module SessionRecords {
  import opened Options
  import opened Sequences
  import opened Tasks
  import opened TaskHistory
  import opened DueTests
  import opened Planner
  import opened PlanProofs
  import opened DisplayPlan
  import opened CardIdentity
  import opened Session

  /** Every assigned task is among the ids that some card records when it is finished. */
  lemma AssignedTaskIsOnACard(assignments: seq<Assignment>, bank: seq<Task>, showNames: bool, a: Assignment)
    returns (card: Card)
    requires a in assignments && OwnTasks(assignments, bank)
    ensures card in CardsOf(assignments, showNames, bank) && a.taskId in card.completionIds
  {
    var entries, groups := EntriesOf(assignments, bank), CardGroups(assignments, bank);
    EntriesMatchAssignments(assignments, bank);
    var k :| 0 <= k < |assignments| && assignments[k] == a;
    var e := entries[k];
    assert e in entries && e.task.id == a.taskId;
    var i :| 0 <= i < |KeysInOrder(entries, CardKey)| && KeysInOrder(entries, CardKey)[i] == CardKey(e);
    GroupsAreFaithful(entries, CardKey, i);
    assert e in groups[i];
    card := CardsOf(assignments, showNames, bank)[i];
    CardRecordsItsTasks(groups[i], showNames, e);
  }

  lemma CardRecordsItsTasks(group: seq<Entry>, showNames: bool, e: Entry)
    requires e in group
    ensures e.task.id in ToCard(showNames)(group).completionIds
  {
    var k :| 0 <= k < |group| && group[k] == e;
    assert Transform(group, EntryId)[k] == e.task.id;
  }

  /** The task of an entry of a plan is a candidate that no candidate replaces. */
  lemma EntryTaskIsKept(input: PlanInput, e: Entry)
    requires Sane(input) && e in EntriesOf(PlanOf(input).assignments, input.tasks)
    ensures e.task in Candidates(input) && !IsSuperseded(e.task.id, Candidates(input))
  {
    var assignments := PlanOf(input).assignments;
    PlanOwnsItsTasks(input);
    EntriesMatchAssignments(assignments, input.tasks);
    var k :| 0 <= k < |assignments| && EntriesOf(assignments, input.tasks)[k] == e;
    var t, _ := AssignedTasksAreSuitable(input, assignments[k]);
    FindsItself(input.tasks, t);
    assert t in Candidates(input);
  }

  /** No card of a plan holds a task that another of its tasks includes. */
  lemma CardsHoldNoIncludedTask(input: PlanInput, i: nat, e: Entry, d: Entry)
    requires Sane(input) && i < |CardGroups(PlanOf(input).assignments, input.tasks)|
    requires e in CardGroups(PlanOf(input).assignments, input.tasks)[i]
    requires d in CardGroups(PlanOf(input).assignments, input.tasks)[i]
    ensures d.task.id !in e.task.includedTaskIds
  {
    GroupsAreFaithful(EntriesOf(PlanOf(input).assignments, input.tasks), CardKey, i);
    EntryTaskIsKept(input, e);
    EntryTaskIsKept(input, d);
    assert Replaces(e.task, d.task.id) ==> IsSuperseded(d.task.id, Candidates(input));
  }

  lemma RecordsIncludedIfAlone(group: seq<Entry>, showNames: bool, e: Entry, id: string)
    requires e in group && id in e.task.includedTaskIds && forall d | d in group :: d.task.id != id
    ensures id in ToCard(showNames)(group).completionIds <==> |group| == 1
  {
    if |group| > 1 {
      assert forall k | 0 <= k < |group| :: group[k] in group && Transform(group, EntryId)[k] == group[k].task.id;
    }
  }

  /** On the cards of a plan, what a task includes is recorded with its card exactly when the card holds that one task
      alone: bundles forget what their tasks include. */
  lemma IncludedTasksAreRecordedExactly(input: PlanInput, showNames: bool, i: nat, e: Entry, id: string)
    requires Sane(input) && i < |CardGroups(PlanOf(input).assignments, input.tasks)|
    requires e in CardGroups(PlanOf(input).assignments, input.tasks)[i] && id in e.task.includedTaskIds
    ensures id in CardsOf(PlanOf(input).assignments, showNames, input.tasks)[i].completionIds
            <==> |CardGroups(PlanOf(input).assignments, input.tasks)[i]| == 1
  {
    var group := CardGroups(PlanOf(input).assignments, input.tasks)[i];
    forall d | d in group
      ensures d.task.id != id
    {
      CardsHoldNoIncludedTask(input, i, e, d);
    }
    RecordsIncludedIfAlone(group, showNames, e, id);
  }

  lemma {:induction false} RecordKeepsYoung(history: seq<Completion>, ids: seq<string>, now: int, c: Completion)
    requires c in history && c.completedAt >= now - RETENTION
    ensures c in Record(history, ids, now)
  {
    if ids != [] {
      var front, last := ids[..|ids| - 1], ids[|ids| - 1];
      RecordKeepsYoung(history, front, now, c);
      assert c in Record(history, front, now) + [Completion(last, now)];
    }
  }

  /** The step finished this card, and all that the card stands for is in the history still, unless the retention has
      run out for that very step. */
  ghost predicate RecordedBy(step: Step, card: Card, history: seq<Completion>, latest: int) {
    && step.Finish? && step.id == card.id
    && (step.now < latest - RETENTION || forall id | id in card.completionIds :: Completion(id, step.now) in history)
  }

  ghost predicate Recorded(card: Card, history: seq<Completion>, steps: seq<Step>, latest: int) {
    exists step | step in steps :: RecordedBy(step, card, history, latest)
  }

  /** Every finished card has been recorded. */
  ghost predicate FinishedIsRecorded(s: State, steps: seq<Step>, latest: int) {
    forall card | card in s.planned && card.id in s.completedTaskIds :: Recorded(card, s.history, steps, latest)
  }

  /** No card is finished after `latest`. */
  ghost predicate FinishedBy(step: Step, latest: int) {
    step.Finish? ==> step.now <= latest
  }

  lemma RecordedStaysRecorded(card: Card, history: seq<Completion>, steps: seq<Step>, ids: seq<string>, step: Step,
                              latest: int)
    requires Recorded(card, history, steps, latest) && step.Finish? && step.now <= latest
    ensures Recorded(card, Record(history, ids, step.now), steps + [step], latest)
  {
    var earlier :| earlier in steps && RecordedBy(earlier, card, history, latest);
    if earlier.now >= latest - RETENTION {
      forall id | id in card.completionIds
        ensures Completion(id, earlier.now) in Record(history, ids, step.now)
      {
        RecordKeepsYoung(history, ids, step.now, Completion(id, earlier.now));
      }
    }
    assert earlier in steps + [step] && RecordedBy(earlier, card, Record(history, ids, step.now), latest);
  }

  /** Finishing a card puts all that it stands for into the history. */
  lemma FinishRecords(s: State, card: Card, now: int, id: string)
    requires card in s.planned && UniqueCards(s.planned) && card.id !in s.completedTaskIds && id in card.completionIds
    ensures Completion(id, now) in Finished(s, card.id, now).history
  {
    var k :| 0 <= k < |s.planned| && s.planned[k] == card;
    assert PositionOf(s.planned, card.id) == k;
    RecordKeepsNow(s.history, card.completionIds, now, id);
  }

  lemma PlannedCardsAreUnique(s: State, offered: seq<Card>)
    requires Coherent(s, offered)
    ensures UniqueCards(s.planned)
  {
    assert forall i | 0 <= i < |s.planned| :: (s.planned + s.bonus)[i] == s.planned[i];
  }

  lemma FinishKeepsRecords(s: State, step: Step, offered: seq<Card>, steps: seq<Step>, latest: int)
    requires step.Finish? && Coherent(s, offered) && Enabled(s, step)
    requires FinishedIsRecorded(s, steps, latest) && FinishedBy(step, latest)
    ensures FinishedIsRecorded(Take(s, step), steps + [step], latest)
  {
    var t := Take(s, step);
    var position := PositionOf(s.planned, step.id);
    PlannedCardsAreUnique(s, offered);
    forall card | card in t.planned && card.id in t.completedTaskIds
      ensures Recorded(card, t.history, steps + [step], latest)
    {
      if card.id == step.id {
        forall id | id in card.completionIds
          ensures Completion(id, step.now) in t.history
        {
          FinishRecords(s, card, step.now, id);
        }
        assert step in steps + [step] && RecordedBy(step, card, t.history, latest);
      } else {
        var ids := if position >= 0 then s.planned[position].completionIds else [step.id];
        RecordedStaysRecorded(card, s.history, steps, ids, step, latest);
      }
    }
  }

  /** A bonus card just drawn is not finished. */
  lemma DrawnCardIsUnfinished(s: State, offered: seq<Card>)
    requires Coherent(s, offered) && Enabled(s, AcceptBonus)
    ensures s.bonus[0].id !in s.completedTaskIds
  {
    var all := s.planned + s.bonus;
    assert all[|s.planned|] == s.bonus[0];
    assert s.bonus[0].id !in CardIds(s.planned) by {
      assert forall i | 0 <= i < |s.planned| :: all[i] == s.planned[i];
    }
  }

  lemma StepKeepsRecords(s: State, step: Step, offered: seq<Card>, steps: seq<Step>, latest: int)
    requires Coherent(s, offered) && Enabled(s, step) && FinishedIsRecorded(s, steps, latest)
             && FinishedBy(step, latest)
    ensures FinishedIsRecorded(Take(s, step), steps + [step], latest)
  {
    if step.Finish? {
      FinishKeepsRecords(s, step, offered, steps, latest);
    } else {
      if step.AcceptBonus? {
        DrawnCardIsUnfinished(s, offered);
      }
      var t := Take(s, step);
      forall card | card in t.planned && card.id in t.completedTaskIds
        ensures Recorded(card, t.history, steps + [step], latest)
      {
        var earlier :| earlier in steps && RecordedBy(earlier, card, s.history, latest);
        assert earlier in steps + [step];
      }
    }
  }

  lemma RecordsOfOneMore(s: State, front: seq<Step>, last: Step, offered: seq<Card>, latest: int)
    requires Coherent(Run(s, front), offered) && Enabled(Run(s, front), last) && FinishedBy(last, latest)
    requires FinishedIsRecorded(Run(s, front), front, latest)
    ensures FinishedIsRecorded(Run(s, front + [last]), front + [last], latest)
  {
    assert (front + [last])[..|front|] == front;
    StepKeepsRecords(Run(s, front), last, offered, front, latest);
  }

  /** Over any run, every finished card was recorded by the step that finished it, and all that it stands for is still
      in the history unless that step lies further back than the retention. */
  lemma {:induction false} RunKeepsRecords(s: State, steps: seq<Step>, offered: seq<Card>, latest: int)
    requires Coherent(s, offered) && s.completedTaskIds == [] && Possible(s, steps)
    requires forall step | step in steps :: FinishedBy(step, latest)
    ensures FinishedIsRecorded(Run(s, steps), steps, latest)
  {
    if steps != [] {
      var front, last := steps[..|steps| - 1], steps[|steps| - 1];
      assert steps == front + [last];
      PossiblePrefix(s, front, last);
      RunKeepsRecords(s, front, offered, latest);
      RunIsAccountedFor(s, front, offered);
      RecordsOfOneMore(s, front, last, offered, latest);
    }
  }

  /** No step takes a planned card away. */
  lemma {:induction false} PlannedCardsStay(s: State, steps: seq<Step>, card: Card)
    requires card in s.planned
    ensures card in Run(s, steps).planned
  {
    if steps != [] {
      PlannedCardsStay(s, steps[..|steps| - 1], card);
    }
  }

  /** A session started from a plan and run to its end has recorded every assigned task, whatever its steps and however
      long it takes: some card stands for it, and all that card stands for is in the history unless the very step that
      finished it lies further back than the retention. */
  lemma FinishedSessionRecordsItsPlan(s: State, setup: PlanInput, ignoreHistory: bool, steps: seq<Step>, latest: int,
                                      a: Assignment) returns (card: Card)
    requires Sane(setup) && TellingIds(IdsIn(setup.tasks))
    requires a in PlanOf(InputOf(s, setup, ignoreHistory)).assignments
    requires Possible(SessionFrom(s, setup, ignoreHistory), steps)
    requires forall step | step in steps :: FinishedBy(step, latest)
    requires Run(SessionFrom(s, setup, ignoreHistory), steps).screen == Done
    ensures card in Run(SessionFrom(s, setup, ignoreHistory), steps).planned && a.taskId in card.completionIds
    ensures Recorded(card, Run(SessionFrom(s, setup, ignoreHistory), steps).history, steps, latest)
  {
    var started, input := SessionFrom(s, setup, ignoreHistory), InputOf(s, setup, ignoreHistory);
    StartedSessionIsCoherent(s, setup, ignoreHistory);
    PlanOwnsItsTasks(input);
    card := AssignedTaskIsOnACard(PlanOf(input).assignments, input.tasks, |setup.participantIds| > 1, a);
    PlannedCardsStay(started, steps, card);
    RunKeepsRecords(started, steps, started.bonus, latest);
    RunIsAccountedFor(started, steps, started.bonus);
    DoneMeansAllFinished(Run(started, steps), started.bonus);
  }

  // ----- what is recorded is not suggested again too early -----

  /** No plan made while a recorded completion of a task is within its cooldown assigns that task. */
  lemma RecentTaskIsNotPlanned(task: Task, done: int, input: PlanInput)
    requires Sane(input) && task in input.tasks && Completion(task.id, done) in input.completionHistory
    requires input.now - done < CooldownFor(task) * MS_PER_HOUR
    ensures !Has(PlanOf(input).assignments, task.id)
  {
    FindsItself(input.tasks, task);
    assert Blocks(task, input.tasks, Completion(task.id, done), input.now);
    if a :| a in PlanOf(input).assignments && a.taskId == task.id {
      var t, _ := AssignedTasksAreSuitable(input, a);
      FindsItself(input.tasks, t);
      assert false;
    }
  }

  /** What later happens to the history: other completions, here or on a checklist, and prunes when it is loaded. */
  datatype Edit = Added(taskId: string, at: int) | Pruned(at: int)

  function Edited(history: seq<Completion>, edits: seq<Edit>): seq<Completion> {
    if edits == [] then history
    else
      var before := Edited(history, edits[..|edits| - 1]);
      match edits[|edits| - 1]
      case Added(taskId, at) => AddTaskCompletion(before, taskId, at)
      case Pruned(at) => PruneTaskHistory(before, at)
  }

  lemma {:induction false} EditsKeepYoung(history: seq<Completion>, edits: seq<Edit>, now: int, c: Completion)
    requires c in history && now - c.completedAt <= RETENTION && forall e | e in edits :: e.at <= now
    ensures c in Edited(history, edits)
  {
    if edits != [] {
      var front, last := edits[..|edits| - 1], edits[|edits| - 1];
      assert edits == front + [last];
      EditsKeepYoung(history, front, now, c);
      var before := Edited(history, front);
      assert last.Added? ==> c in before + [Completion(last.taskId, last.at)];
    }
  }

  lemma FinishStaysRecorded(s: State, card: Card, id: string, now: int, edits: seq<Edit>, later: int)
    requires card in s.planned && UniqueCards(s.planned) && card.id !in s.completedTaskIds && id in card.completionIds
    requires edits == [] || (later - now <= RETENTION && forall e | e in edits :: e.at <= later)
    ensures Completion(id, now) in Edited(Finished(s, card.id, now).history, edits)
  {
    FinishRecords(s, card, now, id);
    if edits != [] {
      EditsKeepYoung(Finished(s, card.id, now).history, edits, later, Completion(id, now));
    }
  }

  /** The input, with the history that finishing the card and the later edits leave. */
  function LaterInput(setup: PlanInput, s: State, card: Card, now: int, edits: seq<Edit>): PlanInput {
    setup.(completionHistory := Edited(Finished(s, card.id, now).history, edits))
  }

  /** A finished card's tasks are not planned again within their cooldown, whatever is completed and pruned in the
      meantime, as long as the cooldown does not outlast the retention; right after finishing, for any cooldown. */
  lemma FinishedTaskIsNotReplanned(s: State, card: Card, task: Task, now: int, edits: seq<Edit>, setup: PlanInput)
    requires card in s.planned && UniqueCards(s.planned) && card.id !in s.completedTaskIds
              && task.id in card.completionIds
    requires Sane(setup) && task in setup.tasks && setup.now - now < CooldownFor(task) * MS_PER_HOUR
    requires edits == [] || (CooldownFor(task) <= RETENTION_DAYS * 24 && forall e | e in edits :: e.at <= setup.now)
    ensures !Has(PlanOf(LaterInput(setup, s, card, now, edits)).assignments, task.id)
  {
    FinishStaysRecorded(s, card, task.id, now, edits, setup.now);
    RecentTaskIsNotPlanned(task, now, LaterInput(setup, s, card, now, edits));
  }

  /** A session could finish the card now, and the edits all come before the plan, which is made within the cooldown. */
  ghost predicate WithinCooldown(s: State, card: Card, task: Task, now: int, edits: seq<Edit>, setup: PlanInput) {
    && card in s.planned && UniqueCards(s.planned) && card.id !in s.completedTaskIds && task.id in card.completionIds
    && (forall e | e in edits :: e.at <= setup.now)
    && setup.now - now < CooldownFor(task) * MS_PER_HOUR
  }

  /** No session, whatever happens after it, lets the planner assign the task again within its cooldown. */
  ghost predicate NeverReplannedEarly(task: Task, setup: PlanInput) {
    forall s, card, now, edits | WithinCooldown(s, card, task, now, edits, setup) ::
      !Has(PlanOf(LaterInput(setup, s, card, now, edits)).assignments, task.id)
  }

  function OneCard(id: string): Card {
    Card(id, [id], 1, None)
  }

  function OneCardSession(id: string): State {
    State(InSession, [OneCard(id)], [], 1, 0, [], 60, [])
  }

  /** Finished, and pruned one millisecond past the retention: nothing is left. */
  lemma FinishIsForgotten(id: string, now: int)
    ensures Edited(Finished(OneCardSession(id), id, now).history, [Pruned(now + RETENTION + 1)]) == []
  {
    var done := Finished(OneCardSession(id), id, now).history;
    RecordOne(id, now);
    assert PositionOf(OneCardSession(id).planned, id) == 0;
    assert done == [Completion(id, now)];
    PrunedOnce(done, now + RETENTION + 1);
    FilterNothing(done, (c: Completion) => c.completedAt >= now + RETENTION + 1 - RETENTION);
    assert forall c | c in PruneTaskHistory(done, now + RETENTION + 1) :: c in done && c.completedAt > now;
  }

  lemma RecordOne(id: string, now: int)
    ensures Record([], [id], now) == [Completion(id, now)]
  {
    assert [id][..0] == [];
    assert Record([], [id], now) == AddTaskCompletion([], id, now);
    FilterEverything([Completion(id, now)], (c: Completion) => c.completedAt >= now - RETENTION);
    assert [] + [Completion(id, now)] == [Completion(id, now)];
  }

  lemma PrunedOnce(history: seq<Completion>, at: int)
    ensures Edited(history, [Pruned(at)]) == PruneTaskHistory(history, at)
  {
    assert [Pruned(at)][..0] == [];
  }

  /** A task that the planner would assign if nothing were remembered is kept from being planned again within its
      cooldown, in every case, exactly when the cooldown does not outlast the retention. */
  lemma NeverReplannedEarlyExactly(task: Task, setup: PlanInput)
    requires Sane(setup) && task in setup.tasks
    requires Has(PlanOf(setup.(completionHistory := [])).assignments, task.id)
    ensures NeverReplannedEarly(task, setup) <==> CooldownFor(task) <= RETENTION_DAYS * 24
  {
    if CooldownFor(task) <= RETENTION_DAYS * 24 {
      forall s, card, now, edits | WithinCooldown(s, card, task, now, edits, setup)
        ensures !Has(PlanOf(LaterInput(setup, s, card, now, edits)).assignments, task.id)
      {
        FinishedTaskIsNotReplanned(s, card, task, now, edits, setup);
      }
    } else {
      LongCooldownIsReplanned(task, setup);
    }
  }

  lemma ReplannedOnce(s: State, card: Card, task: Task, now: int, edits: seq<Edit>, setup: PlanInput)
    requires WithinCooldown(s, card, task, now, edits, setup)
    requires Has(PlanOf(LaterInput(setup, s, card, now, edits)).assignments, task.id)
    ensures !NeverReplannedEarly(task, setup)
  {
  }

  lemma LongCooldownIsReplanned(task: Task, setup: PlanInput)
    requires CooldownFor(task) > RETENTION_DAYS * 24
    requires Has(PlanOf(setup.(completionHistory := [])).assignments, task.id)
    ensures !NeverReplannedEarly(task, setup)
  {
    var now := setup.now - RETENTION - 1;
    FinishIsForgotten(task.id, now);
    ForgottenIsWithinCooldown(task, setup);
    ReplannedOnce(OneCardSession(task.id), OneCard(task.id), task, now, [Pruned(setup.now)], setup);
  }

  lemma ForgottenIsWithinCooldown(task: Task, setup: PlanInput)
    requires CooldownFor(task) > RETENTION_DAYS * 24
    ensures WithinCooldown(OneCardSession(task.id), OneCard(task.id), task, setup.now - RETENTION - 1,
              [Pruned(setup.now)], setup)
  {
  }
}
