/** A cleaning session: planned cards are finished, bonus cards drawn one at a time, and the clock runs down. */
module Session {
  import opened Sequences
  import opened Tasks
  import opened TaskHistory
  import opened Planner
  import opened PlanProofs
  import opened DisplayPlan
  import opened CardIdentity

  datatype Screen = Setup | InSession | BonusOffer | Done | Rest

  datatype State = State(
    screen: Screen,
    planned: seq<Card>,
    bonus: seq<Card>,
    baseTaskCount: nat,
    bonusCompleted: nat,
    completedTaskIds: seq<string>,
    secondsLeft: int,
    history: seq<Completion>)

  function CardId(c: Card): string {
    c.id
  }

  function CardIds(cards: seq<Card>): seq<string> {
    Transform(cards, CardId)
  }

  /** findIndex, with -1 when there is no such card. */
  function PositionOf(cards: seq<Card>, id: string): (i: int)
    ensures -1 <= i < |cards|
    ensures i >= 0 ==> cards[i].id == id && forall k | 0 <= k < i :: cards[k].id != id
    ensures i < 0 ==> forall c | c in cards :: c.id != id
  {
    if cards == [] then -1
    else if cards[0].id == id then 0
    else
      assert cards == [cards[0]] + cards[1..];
      var i := PositionOf(cards[1..], id);
      if i < 0 then -1 else i + 1
  }

  function Record(history: seq<Completion>, ids: seq<string>, now: int): seq<Completion> {
    if ids == [] then history else AddTaskCompletion(Record(history, ids[..|ids| - 1], now), ids[|ids| - 1], now)
  }

  // ----- the steps -----

  /** The unassigned tasks that the bank still knows, as bonus cards. */
  function BonusTasks(ids: seq<string>, bank: seq<Task>): seq<Task> {
    if ids == [] then []
    else
      match TaskById(bank, ids[|ids| - 1])
      case None => BonusTasks(ids[..|ids| - 1], bank)
      case Some(task) => BonusTasks(ids[..|ids| - 1], bank) + [task]
  }

  /** A fresh session over the given cards; with nothing planned there is only rest. */
  function Begun(s: State, planned: seq<Card>, bonus: seq<Card>, availableMinutes: int): State {
    State(if planned == [] then Rest else InSession, planned, bonus, |planned|, 0, [], availableMinutes * 60, s.history)
  }

  function Started(s: State, plan: TaskPlan, availableMinutes: int, showNames: bool, bank: seq<Task>): State {
    Begun(s, CardsOf(plan.assignments, showNames, bank), BonusCards(BonusTasks(plan.unassignedTaskIds, bank)),
        availableMinutes)
  }

  /** The planner's input: what was chosen on the set-up screen, and the history the page holds. */
  function InputOf(s: State, setup: PlanInput, ignoreHistory: bool): PlanInput {
    setup.(completionHistory := if ignoreHistory then [] else s.history)
  }

  function SessionFrom(s: State, setup: PlanInput, ignoreHistory: bool): State {
    var input := InputOf(s, setup, ignoreHistory);
    Started(s, PlanOf(input), input.availableMinutes, |setup.participantIds| > 1, input.tasks)
  }

  function Finished(s: State, id: string, now: int): State {
    if id in s.completedTaskIds then s
    else
      var completed := s.completedTaskIds + [id];
      var position := PositionOf(s.planned, id);
      var ids := if position >= 0 then s.planned[position].completionIds else [id];
      State(if |completed| < |s.planned| then s.screen
            else if s.bonus != [] && s.secondsLeft > 0 then BonusOffer else Done,
            s.planned, s.bonus, s.baseTaskCount,
            if position >= s.baseTaskCount then s.bonusCompleted + 1 else s.bonusCompleted,
            completed, s.secondsLeft, Record(s.history, ids, now))
  }

  function BonusStarted(s: State): State {
    if s.bonus == [] then s.(screen := Done)
    else
      var seconds := s.bonus[0].minutes * 60;
      s.(planned := s.planned + [s.bonus[0]], bonus := s.bonus[1..],
         secondsLeft := if seconds > 60 then seconds else 60, screen := InSession)
  }

  function BonusDeclined(s: State): State {
    s.(screen := Done)
  }

  function Ticked(s: State): State {
    if s.screen != InSession || s.secondsLeft <= 0 then s else s.(secondsLeft := s.secondsLeft - 1)
  }

  method AddCompletions(history: seq<Completion>, ids: seq<string>, now: int) returns (nextHistory: seq<Completion>)
    ensures nextHistory == Record(history, ids, now)
  {
    nextHistory := history;
    for i := 0 to |ids|
      invariant nextHistory == Record(history, ids[..i], now)
    {
      assert ids[..i + 1][..i] == ids[..i];
      nextHistory := AddTaskCompletion(nextHistory, ids[i], now);
    }
    assert ids[..|ids|] == ids;
  }

  /** The page's state variables. */
  class HomePage {
    var screen: Screen
    var plannedTasks: seq<Card>
    var bonusTasks: seq<Card>
    var baseTaskCount: nat
    var bonusCompleted: nat
    var completedTaskIds: seq<string>
    var secondsLeft: int
    var completionHistory: seq<Completion>

    constructor (history: seq<Completion>)
      ensures View() == State(Setup, [], [], 0, 0, [], 0, history)
    {
      screen, plannedTasks, bonusTasks, baseTaskCount := Setup, [], [], 0;
      bonusCompleted, completedTaskIds, secondsLeft, completionHistory := 0, [], 0, history;
    }

    ghost function View(): State
      reads this
    {
      State(screen, plannedTasks, bonusTasks, baseTaskCount, bonusCompleted, completedTaskIds, secondsLeft,
          completionHistory)
    }

    /** Plans from the page's own history, or as if there were none, and names members when several take part. */
    method StartSession(setup: PlanInput, ignoreHistory: bool)
      modifies this
      ensures View() == SessionFrom(old(View()), setup, ignoreHistory)
    {
      var input := setup.(completionHistory := if ignoreHistory then [] else completionHistory);
      var showNames := |setup.participantIds| > 1;
      var plan := BuildPlan(input);
      var nextPlannedTasks := ToDisplayPlan(plan.assignments, showNames, input.tasks);
      Begin(nextPlannedTasks, BonusCards(BonusTasks(plan.unassignedTaskIds, input.tasks)), input.availableMinutes);
    }

    method Begin(nextPlannedTasks: seq<Card>, nextBonusTasks: seq<Card>, availableMinutes: int)
      modifies this
      ensures View() == Begun(old(View()), nextPlannedTasks, nextBonusTasks, availableMinutes)
    {
      completedTaskIds := [];
      bonusCompleted := 0;
      secondsLeft := availableMinutes * 60;
      plannedTasks := nextPlannedTasks;
      baseTaskCount := |nextPlannedTasks|;
      bonusTasks := nextBonusTasks;
      if nextPlannedTasks == [] {
        screen := Rest;
        return;
      }
      screen := InSession;
    }

    method FinishTask(id: string, now: int)
      modifies this
      ensures View() == Finished(old(View()), id, now)
    {
      if id in completedTaskIds {
        return;
      }
      var nextCompleted := completedTaskIds + [id];
      completedTaskIds := nextCompleted;
      var taskPosition := PositionOf(plannedTasks, id);
      var completionIds := if taskPosition >= 0 then plannedTasks[taskPosition].completionIds else [id];
      completionHistory := AddCompletions(completionHistory, completionIds, now);
      if taskPosition >= baseTaskCount {
        bonusCompleted := bonusCompleted + 1;
      }
      if |nextCompleted| >= |plannedTasks| {
        if bonusTasks != [] && secondsLeft > 0 {
          screen := BonusOffer;
        } else {
          screen := Done;
        }
      }
    }

    method StartBonus()
      modifies this
      ensures View() == BonusStarted(old(View()))
    {
      if bonusTasks == [] {
        screen := Done;
        return;
      }
      var bonusTask := bonusTasks[0];
      plannedTasks := plannedTasks + [bonusTask];
      bonusTasks := bonusTasks[1..];
      secondsLeft := if bonusTask.minutes * 60 > 60 then bonusTask.minutes * 60 else 60;
      screen := InSession;
    }

    method DeclineBonus()
      modifies this
      ensures View() == BonusDeclined(old(View()))
    {
      screen := Done;
    }

    method Tick()
      modifies this
      ensures View() == Ticked(old(View()))
    {
      if screen == InSession && secondsLeft > 0 {
        secondsLeft := secondsLeft - 1;
      }
    }
  }

  // ----- what every run of a session keeps -----

  /** The finished bonus cards: those past the planned ones. */
  function FinishedAmong(cards: seq<Card>, ids: seq<string>): nat {
    |Filter(cards, (c: Card) => c.id in ids)|
  }

  /** `offered` is the list of bonus cards the session started with. */
  ghost predicate Coherent(s: State, offered: seq<Card>) {
    && UniqueCards(s.planned + s.bonus)
    && Distinct(s.completedTaskIds)
    && (forall id | id in s.completedTaskIds :: id in CardIds(s.planned))
    && s.baseTaskCount <= |s.planned|
    && s.planned[s.baseTaskCount..] + s.bonus == offered
    && s.bonusCompleted == FinishedAmong(s.planned[s.baseTaskCount..], s.completedTaskIds)
    && (s.screen == InSession ==> |s.completedTaskIds| < |s.planned|)
    && (s.screen == BonusOffer ==> |s.completedTaskIds| == |s.planned| && s.bonus != [])
    && (s.screen == Done ==> |s.completedTaskIds| == |s.planned|)
  }

  datatype Step = Finish(id: string, now: int) | AcceptBonus | DeclineBonus | Tick

  /** The steps a screen offers: the button of an unfinished card, the two bonus buttons, a tick of a running clock. */
  ghost predicate Enabled(s: State, step: Step) {
    match step
    case Finish(id, _) => s.screen == InSession && id in CardIds(s.planned) && id !in s.completedTaskIds
    case AcceptBonus => s.screen == BonusOffer
    case DeclineBonus => s.screen == BonusOffer
    case Tick => s.screen == InSession && s.secondsLeft > 0
  }

  function Take(s: State, step: Step): State {
    match step
    case Finish(id, now) => Finished(s, id, now)
    case AcceptBonus => BonusStarted(s)
    case DeclineBonus => BonusDeclined(s)
    case Tick => Ticked(s)
  }

  lemma {:induction false} FinishingCountsOnce(cards: seq<Card>, ids: seq<string>, id: string)
    requires UniqueCards(cards) && id !in ids
    ensures FinishedAmong(cards, ids + [id]) == FinishedAmong(cards, ids) + (if id in CardIds(cards) then 1 else 0)
  {
    if cards != [] {
      var front, last := cards[..|cards| - 1], cards[|cards| - 1];
      FinishingCountsOnce(front, ids, id);
      assert CardIds(cards) == CardIds(front) + [last.id];
      assert last.id == id ==> id !in CardIds(front);
    }
  }

  /** A card's position lies past the planned cards exactly when it is among the bonus cards drawn. */
  lemma PositionTellsBonus(cards: seq<Card>, base: nat, id: string)
    requires base <= |cards| && UniqueCards(cards) && id in CardIds(cards)
    ensures PositionOf(cards, id) >= base <==> id in CardIds(cards[base..])
  {
    var i := PositionOf(cards, id);
    var tail := cards[base..];
    var k :| 0 <= k < |cards| && CardIds(cards)[k] == id;
    assert cards[k] in cards && k == i;
    if i >= base {
      assert CardIds(tail)[i - base] == id;
    }
    if l :| 0 <= l < |tail| && CardIds(tail)[l] == id {
      assert cards[base + l].id == id;
    }
  }

  lemma FinishKeepsBonusCount(s: State, id: string, now: int, offered: seq<Card>)
    requires Coherent(s, offered) && Enabled(s, Finish(id, now))
    ensures var t := Finished(s, id, now);
            t.bonusCompleted == FinishedAmong(t.planned[t.baseTaskCount..], t.completedTaskIds)
  {
    assert UniqueCards(s.planned) by {
      assert forall i | 0 <= i < |s.planned| :: (s.planned + s.bonus)[i] == s.planned[i];
    }
    PositionTellsBonus(s.planned, s.baseTaskCount, id);
    FinishingCountsOnce(s.planned[s.baseTaskCount..], s.completedTaskIds, id);
  }

  lemma FinishKeepsCoherence(s: State, id: string, now: int, offered: seq<Card>)
    requires Coherent(s, offered) && Enabled(s, Finish(id, now))
    ensures Coherent(Finished(s, id, now), offered)
  {
    FinishKeepsBonusCount(s, id, now, offered);
    DistinctWithin(s.completedTaskIds + [id], CardIds(s.planned));
  }

  lemma AcceptKeepsCoherence(s: State, offered: seq<Card>)
    requires Coherent(s, offered) && Enabled(s, AcceptBonus)
    ensures Coherent(BonusStarted(s), offered)
  {
    var t, card := BonusStarted(s), s.bonus[0];
    assert t.planned + t.bonus == s.planned + s.bonus;
    assert t.planned[s.baseTaskCount..] == s.planned[s.baseTaskCount..] + [card];
    assert t.planned[s.baseTaskCount..] + t.bonus == offered;
    assert (s.planned[s.baseTaskCount..] + [card])[..|s.planned| - s.baseTaskCount] == s.planned[s.baseTaskCount..];
    assert CardIds(t.planned) == CardIds(s.planned) + [card.id];
    assert card.id !in CardIds(s.planned) by {
      var all := s.planned + s.bonus;
      assert all[|s.planned|] == card;
      assert forall i | 0 <= i < |s.planned| :: all[i] == s.planned[i];
    }
  }

  /** Every step keeps the session coherent: finished ids are planned cards, each once; the bonus count is the number
      of finished bonus cards; drawn and remaining bonus cards are the original list in order; and the final
      screens are reached only when every card is finished. */
  lemma StepKeepsCoherence(s: State, step: Step, offered: seq<Card>)
    requires Coherent(s, offered) && Enabled(s, step)
    ensures Coherent(Take(s, step), offered)
  {
    match step
    case Finish(id, now) => FinishKeepsCoherence(s, id, now, offered);
    case AcceptBonus => AcceptKeepsCoherence(s, offered);
    case DeclineBonus =>
    case Tick =>
  }

  /** Twice the bonus cards still to draw, plus the cards still to finish. */
  ghost function WorkLeft(s: State): int {
    2 * |s.bonus| + |s.planned| - |s.completedTaskIds|
  }

  /** Every step but declining, which ends the session, decreases (work left, seconds left) lexicographically. */
  lemma StepMakesProgress(s: State, step: Step, offered: seq<Card>)
    requires Coherent(s, offered) && Enabled(s, step)
    ensures WorkLeft(Take(s, step)) >= 0
    ensures step.Finish? || step.AcceptBonus? ==> WorkLeft(Take(s, step)) == WorkLeft(s) - 1
    ensures step.Tick? ==> WorkLeft(Take(s, step)) == WorkLeft(s) && 0 <= Take(s, step).secondsLeft == s.secondsLeft - 1
    ensures step.DeclineBonus? ==> Take(s, step).screen == Done
  {
    StepKeepsCoherence(s, step, offered);
  }

  /** A session that is not over always offers a step that finishes a card or settles the bonus question. */
  lemma SessionNeverGetsStuck(s: State, offered: seq<Card>)
    requires Coherent(s, offered) && (s.screen == InSession || s.screen == BonusOffer)
    ensures exists step: Step :: !step.Tick? && Enabled(s, step)
  {
    if s.screen == BonusOffer {
      assert Enabled(s, AcceptBonus);
    } else {
      AllFinishedByCount(s, offered);
      var c :| c in s.planned && c.id !in s.completedTaskIds;
      var i :| 0 <= i < |s.planned| && s.planned[i] == c;
      assert CardIds(s.planned)[i] == c.id;
      assert Enabled(s, Finish(c.id, 0));
    }
  }

  ghost predicate AllFinished(s: State) {
    forall c | c in s.planned :: c.id in s.completedTaskIds
  }

  lemma AllFinishedByCount(s: State, offered: seq<Card>)
    requires Coherent(s, offered)
    ensures AllFinished(s) <==> |s.completedTaskIds| >= |s.planned|
  {
    var ids := CardIds(s.planned);
    if |s.completedTaskIds| >= |s.planned| {
      DistinctCovers(s.completedTaskIds, ids);
      forall c | c in s.planned
        ensures c.id in s.completedTaskIds
      {
        var i :| 0 <= i < |s.planned| && s.planned[i] == c;
        assert ids[i] == c.id;
      }
    }
    if AllFinished(s) {
      assert Distinct(ids) by {
        assert forall i | 0 <= i < |s.planned| :: (s.planned + s.bonus)[i] == s.planned[i];
      }
      DistinctWithin(ids, s.completedTaskIds);
    }
  }

  /** The page counts finished ids, and so decides rightly: the session goes on while some card is unfinished, then
      offers a bonus card if there is one and time is left, and otherwise ends. */
  lemma FinishingDecidesScreen(s: State, id: string, now: int, offered: seq<Card>)
    requires Coherent(s, offered) && Enabled(s, Finish(id, now))
    ensures var t := Finished(s, id, now);
            t.screen == if !AllFinished(t) then InSession
                        else if t.bonus != [] && t.secondsLeft > 0 then BonusOffer else Done
  {
    FinishKeepsCoherence(s, id, now, offered);
    AllFinishedByCount(Finished(s, id, now), offered);
  }

  /** When a session is over, every card drawn has been finished. */
  lemma DoneMeansAllFinished(s: State, offered: seq<Card>)
    requires Coherent(s, offered) && s.screen == Done
    ensures AllFinished(s)
  {
    AllFinishedByCount(s, offered);
  }

  // ----- whole runs -----

  function Run(s: State, steps: seq<Step>): State {
    if steps == [] then s else Take(Run(s, steps[..|steps| - 1]), steps[|steps| - 1])
  }

  ghost predicate Possible(s: State, steps: seq<Step>) {
    forall i | 0 <= i < |steps| :: Enabled(Run(s, steps[..i]), steps[i])
  }

  lemma PossiblePrefix(s: State, front: seq<Step>, last: Step)
    requires Possible(s, front + [last])
    ensures Possible(s, front) && Enabled(Run(s, front), last)
  {
    var steps := front + [last];
    forall i | 0 <= i < |front|
      ensures Enabled(Run(s, front[..i]), front[i])
    {
      assert front[..i] == steps[..i] && front[i] == steps[i];
    }
    assert steps[..|front|] == front && steps[|front|] == last;
  }

  function WorkSteps(steps: seq<Step>): nat {
    |Filter(steps, (step: Step) => step.Finish? || step.AcceptBonus?)|
  }

  lemma RunNext(s: State, front: seq<Step>, last: Step)
    ensures Run(s, front + [last]) == Take(Run(s, front), last)
    ensures WorkSteps(front + [last]) == WorkSteps(front) + if last.Finish? || last.AcceptBonus? then 1 else 0
  {
    assert (front + [last])[..|front|] == front;
  }

  lemma AccountOneMore(s: State, front: seq<Step>, last: Step, offered: seq<Card>)
    requires Coherent(Run(s, front), offered) && Enabled(Run(s, front), last)
    ensures Coherent(Run(s, front + [last]), offered)
    ensures WorkSteps(front + [last]) + WorkLeft(Run(s, front + [last])) == WorkSteps(front) + WorkLeft(Run(s, front))
  {
    RunNext(s, front, last);
    StepKeepsCoherence(Run(s, front), last, offered);
    StepMakesProgress(Run(s, front), last, offered);
  }

  /** Over any run, the finished and drawn cards are exactly accounted for by the work left, so no run has more than
      twice the bonus cards plus the planned cards of them. */
  lemma {:induction false} RunIsAccountedFor(s: State, steps: seq<Step>, offered: seq<Card>)
    requires Coherent(s, offered) && Possible(s, steps)
    ensures Coherent(Run(s, steps), offered)
    ensures WorkSteps(steps) == WorkLeft(s) - WorkLeft(Run(s, steps))
    ensures WorkSteps(steps) <= WorkLeft(s)
  {
    if steps != [] {
      var front, last := steps[..|steps| - 1], steps[|steps| - 1];
      assert steps == front + [last];
      PossiblePrefix(s, front, last);
      RunIsAccountedFor(s, front, offered);
      AccountOneMore(s, front, last, offered);
    }
    WorkIsNotNegative(Run(s, steps), offered);
  }

  /** The seconds that drawing a bonus card puts on the clock. */
  function BonusTime(c: Card): nat {
    if c.minutes * 60 > 60 then c.minutes * 60 else 60
  }

  function BonusTimes(cards: seq<Card>): nat {
    if cards == [] then 0 else BonusTime(cards[0]) + BonusTimes(cards[1..])
  }

  /** The seconds still to run: those on the clock and those each remaining bonus card would bring. */
  function TimeLeft(s: State): nat {
    (if s.secondsLeft > 0 then s.secondsLeft else 0) + BonusTimes(s.bonus)
  }

  function EndLeft(s: State): nat {
    if s.screen == InSession || s.screen == BonusOffer then 1 else 0
  }

  lemma StepUsesUp(s: State, step: Step, offered: seq<Card>)
    requires Coherent(s, offered) && Enabled(s, step)
    ensures var t := Take(s, step);
            WorkLeft(t) + TimeLeft(t) + EndLeft(t) < WorkLeft(s) + TimeLeft(s) + EndLeft(s)
  {
    StepMakesProgress(s, step, offered);
  }

  /** What the steps so far and all that is left to use up come to. */
  ghost function StepsAndRest(s: State, steps: seq<Step>): int {
    |steps| + WorkLeft(Run(s, steps)) + TimeLeft(Run(s, steps)) + EndLeft(Run(s, steps))
  }

  lemma BoundOneMore(s: State, front: seq<Step>, last: Step, offered: seq<Card>)
    requires Coherent(Run(s, front), offered) && Enabled(Run(s, front), last)
    ensures StepsAndRest(s, front + [last]) <= StepsAndRest(s, front)
  {
    RunNext(s, front, last);
    StepUsesUp(Run(s, front), last, offered);
  }

  lemma {:induction false} StepsUseUp(s: State, steps: seq<Step>, offered: seq<Card>)
    requires Coherent(s, offered) && Possible(s, steps)
    ensures StepsAndRest(s, steps) <= StepsAndRest(s, [])
  {
    if steps != [] {
      var front, last := steps[..|steps| - 1], steps[|steps| - 1];
      assert steps == front + [last];
      PossiblePrefix(s, front, last);
      StepsUseUp(s, front, offered);
      RunIsAccountedFor(s, front, offered);
      BoundOneMore(s, front, last, offered);
    }
  }

  /** No run of a session, ticks included, has more steps than the cards to finish and draw, the seconds on the clock
      and of every bonus card, and one for its end. */
  lemma RunIsBounded(s: State, steps: seq<Step>, offered: seq<Card>)
    requires Coherent(s, offered) && Possible(s, steps)
    ensures |steps| <= WorkLeft(s) + TimeLeft(s) + 1
  {
    StepsUseUp(s, steps, offered);
    RunIsAccountedFor(s, steps, offered);
    WorkIsNotNegative(Run(s, steps), offered);
  }

  lemma WorkIsNotNegative(s: State, offered: seq<Card>)
    requires Coherent(s, offered)
    ensures WorkLeft(s) >= 0
  {
    DistinctWithin(s.completedTaskIds, CardIds(s.planned));
  }

  // ----- the session the planner starts -----

  lemma {:induction false} BonusTasksAreFound(ids: seq<string>, bank: seq<Task>)
    requires Distinct(ids)
    ensures UniqueIds(BonusTasks(ids, bank))
    ensures forall t | t in BonusTasks(ids, bank) :: t in bank && t.id in ids
  {
    if ids != [] {
      BonusTasksAreFound(ids[..|ids| - 1], bank);
    }
  }

  lemma StartedIsCoherent(s: State, plan: TaskPlan, availableMinutes: int, showNames: bool, bank: seq<Task>)
    requires OwnTasks(plan.assignments, bank) && TellingIds(IdsIn(bank))
    requires Distinct(plan.unassignedTaskIds) && forall id | id in plan.unassignedTaskIds :: !Has(plan.assignments, id)
    ensures var t := Started(s, plan, availableMinutes, showNames, bank);
            Coherent(t, t.bonus) && WorkLeft(t) == 2 * |t.bonus| + |t.planned|
  {
    BonusTasksAreFound(plan.unassignedTaskIds, bank);
    SessionCardsAreUnique(plan.assignments, bank, showNames, BonusTasks(plan.unassignedTaskIds, bank));
    var started := Started(s, plan, availableMinutes, showNames, bank);
    assert started.planned[|started.planned|..] == [];
    assert [] + started.bonus == started.bonus;
  }

  /** A session started from a plan is coherent: its cards are the plan's, its bonus cards the left-over tasks. */
  lemma StartedSessionIsCoherent(s: State, setup: PlanInput, ignoreHistory: bool)
    requires Sane(setup) && TellingIds(IdsIn(setup.tasks))
    ensures var t := SessionFrom(s, setup, ignoreHistory);
            Coherent(t, t.bonus) && WorkLeft(t) == 2 * |t.bonus| + |t.planned|
  {
    var input := InputOf(s, setup, ignoreHistory);
    var plan := PlanOf(input);
    PlanPartitionsEligible(input);
    PlanOwnsItsTasks(input);
    forall id | id in plan.unassignedTaskIds
      ensures !Has(plan.assignments, id)
    {
      UnassignedIsNotAssigned(input, id);
    }
    StartedIsCoherent(s, plan, input.availableMinutes, |setup.participantIds| > 1, input.tasks);
  }

  lemma UnassignedIsNotAssigned(input: PlanInput, id: string)
    requires Sane(input) && id in PlanOf(input).unassignedTaskIds
    ensures !Has(PlanOf(input).assignments, id)
  {
    PlanPartitionsEligible(input);
    var t :| t in EligibleTasks(input) && t.id == id;
  }

  // ----- finishing a card counts -----

  lemma {:induction false} RecordKeepsNow(history: seq<Completion>, ids: seq<string>, now: int, id: string)
    requires id in ids
    ensures Completion(id, now) in Record(history, ids, now)
  {
    var front, last := ids[..|ids| - 1], ids[|ids| - 1];
    var before := Record(history, front, now);
    if id == last {
      assert Completion(id, now) in before + [Completion(id, now)];
    } else {
      RecordKeepsNow(history, front, now, id);
      assert Completion(id, now) in before + [Completion(last, now)];
    }
  }
}
