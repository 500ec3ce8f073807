/** What a session begins with: its clock, its bonus cards, the names on its cards, and the history it respects. */
module SessionStarts {
  import opened Options
  import opened Sequences
  import opened Tasks
  import opened TaskHistory
  import opened Planner
  import opened PlanProofs
  import opened DisplayPlan
  import opened CardIdentity
  import opened Session
  import opened Suitability

  // ----- the clock -----

  /** The clock starts at the chosen minutes, and what any participant was given fits on it. */
  lemma ClockFitsTheWork(s: State, setup: PlanInput, ignoreHistory: bool, m: Member)
    requires Sane(setup) && m in Members(setup)
    ensures SessionFrom(s, setup, ignoreHistory).secondsLeft == setup.availableMinutes * 60
    ensures MinutesOf(PlanOf(InputOf(s, setup, ignoreHistory)).assignments, setup.tasks, m.id) * 60
            <= SessionFrom(s, setup, ignoreHistory).secondsLeft
  {
    var input := InputOf(s, setup, ignoreHistory);
    MembersOfInput(s, setup, ignoreHistory, setup.participantIds);
    PlanStaysWithinCapacity(input);
  }

  lemma {:induction false} MembersOfInput(s: State, setup: PlanInput, ignoreHistory: bool, ids: seq<string>)
    ensures Participants(InputOf(s, setup, ignoreHistory), ids) == Participants(setup, ids)
  {
    if ids != [] {
      MembersOfInput(s, setup, ignoreHistory, ids[..|ids| - 1]);
    }
  }

  lemma NoCardsWithoutAssignments(assignments: seq<Assignment>, showNames: bool, bank: seq<Task>)
    requires OwnTasks(assignments, bank)
    ensures CardsOf(assignments, showNames, bank) == [] <==> assignments == []
  {
    EntriesMatchAssignments(assignments, bank);
    var entries := EntriesOf(assignments, bank);
    if entries != [] {
      assert entries[0] in entries && CardKey(entries[0]) in KeysInOrder(entries, CardKey);
    }
  }

  /** A session that was just started is for resting exactly when the plan assigns nothing; otherwise it runs, with
      nothing finished, no bonus counted, and the history as it was. */
  lemma RestExactlyWithoutWork(s: State, setup: PlanInput, ignoreHistory: bool)
    requires Sane(setup)
    ensures var started := SessionFrom(s, setup, ignoreHistory);
            && started.screen
                == (if PlanOf(InputOf(s, setup, ignoreHistory)).assignments == [] then Rest else InSession)
            && started.completedTaskIds == [] && started.bonusCompleted == 0
            && started.baseTaskCount == |started.planned| && started.history == s.history
  {
    var input := InputOf(s, setup, ignoreHistory);
    PlanOwnsItsTasks(input);
    NoCardsWithoutAssignments(PlanOf(input).assignments, |setup.participantIds| > 1, input.tasks);
  }

  /** Finishing what is on no card records that very id. */
  lemma FinishingOffCardsRecordsTheId(s: State, id: string, now: int)
    requires id !in s.completedTaskIds && forall card | card in s.planned :: card.id != id
    ensures Finished(s, id, now).history == AddTaskCompletion(s.history, id, now)
  {
    assert PositionOf(s.planned, id) == -1;
    assert [id][..0] == [] && Record(s.history, [], now) == s.history;
  }

  /** Accepting a bonus moves the first card on offer behind the planned ones and sets the clock to its minutes, or to
      one minute if that is more; nothing is finished or recorded by it. */
  lemma BonusSetsTheClock(s: State)
    requires s.bonus != []
    ensures var t := BonusStarted(s);
            && t.planned == s.planned + [s.bonus[0]] && [s.bonus[0]] + t.bonus == s.bonus
            && t.secondsLeft >= 60 && t.secondsLeft >= s.bonus[0].minutes * 60
            && (t.secondsLeft == 60 || t.secondsLeft == s.bonus[0].minutes * 60)
            && t.completedTaskIds == s.completedTaskIds && t.history == s.history && t.screen == InSession
  {
    assert s.bonus == [s.bonus[0]] + s.bonus[1..];
  }

  // ----- the bonus cards -----

  lemma {:induction false} KnownBonusTasks(ids: seq<string>, bank: seq<Task>)
    requires forall id | id in ids :: TaskById(bank, id).Some?
    ensures |BonusTasks(ids, bank)| == |ids|
    ensures forall i | 0 <= i < |ids| :: TaskById(bank, ids[i]) == Some(BonusTasks(ids, bank)[i])
  {
    if ids != [] {
      assert ids == ids[..|ids| - 1] + [ids[|ids| - 1]];
      KnownBonusTasks(ids[..|ids| - 1], bank);
    }
  }

  lemma LeftOverIsKnown(input: PlanInput, id: string)
    requires Sane(input) && id in PlanOf(input).unassignedTaskIds
    ensures TaskById(input.tasks, id).Some?
  {
    PlanPartitionsEligible(input);
    SanePlan(input);
    var t :| t in EligibleTasks(input) && t.id == id;
    FindsItself(input.tasks, t);
  }

  /** The card offers one task, for anybody: its minutes, and the ids that finishing it records. */
  ghost predicate OffersTask(card: Card, t: Task) {
    card.id == t.id && card.minutes == t.durationMinutes && card.assignedTo == None
    && card.completionIds == [t.id] + t.includedTaskIds
  }

  /** The card offers the task of the bank with this id. */
  ghost predicate Offers(card: Card, id: string, bank: seq<Task>) {
    exists t | t in bank :: t.id == id && OffersTask(card, t)
  }

  lemma LeftOverTasks(input: PlanInput)
    requires Sane(input)
    ensures var left := PlanOf(input).unassignedTaskIds;
            && |BonusTasks(left, input.tasks)| == |left|
            && forall i | 0 <= i < |left| :: TaskById(input.tasks, left[i]) == Some(BonusTasks(left, input.tasks)[i])
  {
    forall id | id in PlanOf(input).unassignedTaskIds
      ensures TaskById(input.tasks, id).Some?
    {
      LeftOverIsKnown(input, id);
    }
    KnownBonusTasks(PlanOf(input).unassignedTaskIds, input.tasks);
  }

  lemma BonusCardsOfferTheirTasks(ids: seq<string>, tasks: seq<Task>, bank: seq<Task>)
    requires |tasks| == |ids| && forall i | 0 <= i < |ids| :: TaskById(bank, ids[i]) == Some(tasks[i])
    ensures |BonusCards(tasks)| == |ids|
    ensures forall i | 0 <= i < |ids| :: Offers(BonusCards(tasks)[i], ids[i], bank)
  {
    forall i | 0 <= i < |ids|
      ensures Offers(BonusCards(tasks)[i], ids[i], bank)
    {
      assert TaskById(bank, ids[i]) == Some(tasks[i]);
      assert OffersTask(BonusCards(tasks)[i], tasks[i]);
    }
  }

  lemma BonusOfStart(s: State, setup: PlanInput, ignoreHistory: bool)
    ensures SessionFrom(s, setup, ignoreHistory).bonus
            == BonusCards(BonusTasks(PlanOf(InputOf(s, setup, ignoreHistory)).unassignedTaskIds, setup.tasks))
  {
  }

  /** Every task the plan leaves over is on offer as a bonus, in the order of the plan, and no other is. */
  lemma BonusIsWhatIsLeftOver(s: State, setup: PlanInput, ignoreHistory: bool)
    requires Sane(setup)
    ensures var left, bonus := PlanOf(InputOf(s, setup, ignoreHistory)).unassignedTaskIds,
              SessionFrom(s, setup, ignoreHistory).bonus;
            && |bonus| == |left|
            && forall i | 0 <= i < |left| :: Offers(bonus[i], left[i], setup.tasks)
  {
    var input := InputOf(s, setup, ignoreHistory);
    var left := PlanOf(input).unassignedTaskIds;
    BonusOfStart(s, setup, ignoreHistory);
    LeftOverTasks(input);
    BonusCardsOfferTheirTasks(left, BonusTasks(left, input.tasks), input.tasks);
  }

  // ----- the names -----

  lemma CardsNameTheirMember(input: PlanInput, showNames: bool, i: nat, e: Entry)
    requires Sane(input) && Separable(set a | a in PlanOf(input).assignments :: a.memberId)
    requires i < |CardGroups(PlanOf(input).assignments, input.tasks)|
    requires e in CardGroups(PlanOf(input).assignments, input.tasks)[i]
    ensures CardsOf(PlanOf(input).assignments, showNames, input.tasks)[i].assignedTo
            == if showNames then Some(e.assignment.memberId) else None
  {
    var entries, groups := EntriesOf(PlanOf(input).assignments, input.tasks),
        CardGroups(PlanOf(input).assignments, input.tasks);
    PlanCardsBelongToOneMember(input);
    GroupsAreFaithful(entries, CardKey, i);
    var first := groups[i][0];
    assert first in groups[i] && first in entries && e in entries && CardKey(first) == CardKey(e);
  }

  /** The cards of a session name somebody exactly when several people were chosen for it, and then the member to whom
      each of the card's tasks was assigned. */
  lemma NamesAreShownToSeveral(s: State, setup: PlanInput, ignoreHistory: bool, i: nat, e: Entry)
    requires Sane(setup)
    requires var plan := PlanOf(InputOf(s, setup, ignoreHistory));
             && Separable(set a | a in plan.assignments :: a.memberId)
             && i < |CardGroups(plan.assignments, setup.tasks)| && e in CardGroups(plan.assignments, setup.tasks)[i]
    ensures |SessionFrom(s, setup, ignoreHistory).planned|
            == |CardGroups(PlanOf(InputOf(s, setup, ignoreHistory)).assignments, setup.tasks)|
    ensures SessionFrom(s, setup, ignoreHistory).planned[i].assignedTo
            == if |setup.participantIds| <= 1 then None else Some(e.assignment.memberId)
  {
    CardsNameTheirMember(InputOf(s, setup, ignoreHistory), |setup.participantIds| > 1, i, e);
  }

  // ----- the history -----

  lemma EligibleDoesNotRest(input: PlanInput, t: Task, done: int)
    requires Sane(input) && t in EligibleTasks(input) && Completion(t.id, done) in input.completionHistory
    ensures input.now >= done + RestHours(t) * 3_600_000
  {
    SanePlan(input);
    CoolingDownExactly(t, input.tasks, input.completionHistory, input.now);
    assert !RestsAfter(t, t, Completion(t.id, done), input.now);
  }

  lemma RestingIsNotEligible(input: PlanInput, task: Task, done: int)
    requires Sane(input) && task in input.tasks && Completion(task.id, done) in input.completionHistory
    requires input.now < done + RestHours(task) * 3_600_000
    ensures forall t | t in EligibleTasks(input) :: t.id != task.id
  {
    SanePlan(input);
    FindsItself(input.tasks, task);
    forall t | t in EligibleTasks(input)
      ensures t.id != task.id
    {
      FindsItself(input.tasks, t);
      if t == task {
        EligibleDoesNotRest(input, task, done);
      }
    }
  }

  lemma OnlyEligibleIsDealt(input: PlanInput, id: string)
    requires Sane(input) && forall t | t in EligibleTasks(input) :: t.id != id
    ensures !Has(PlanOf(input).assignments, id) && id !in PlanOf(input).unassignedTaskIds
  {
    PlanPartitionsEligible(input);
  }

  lemma NotLeftOverNotOffered(s: State, setup: PlanInput, ignoreHistory: bool, id: string)
    requires Sane(setup) && id !in PlanOf(InputOf(s, setup, ignoreHistory)).unassignedTaskIds
    ensures forall card | card in SessionFrom(s, setup, ignoreHistory).bonus :: card.id != id
  {
    BonusIsWhatIsLeftOver(s, setup, ignoreHistory);
    var bonus := SessionFrom(s, setup, ignoreHistory).bonus;
    forall card | card in bonus
      ensures card.id != id
    {
      var i :| 0 <= i < |bonus| && bonus[i] == card;
      assert card.id == PlanOf(InputOf(s, setup, ignoreHistory)).unassignedTaskIds[i];
    }
  }

  /** An ordinary start offers no task that rests after a completion the page remembers, neither as a planned card nor
      as a bonus. */
  lemma OrdinaryStartRespectsHistory(s: State, setup: PlanInput, task: Task, done: int)
    requires Sane(setup) && task in setup.tasks && Completion(task.id, done) in s.history
    requires setup.now < done + RestHours(task) * 3_600_000
    ensures !Has(PlanOf(InputOf(s, setup, false)).assignments, task.id)
    ensures forall card | card in SessionFrom(s, setup, false).bonus :: card.id != task.id
  {
    RestingIsNotEligible(InputOf(s, setup, false), task, done);
    OnlyEligibleIsDealt(InputOf(s, setup, false), task.id);
    NotLeftOverNotOffered(s, setup, false, task.id);
  }

  /** Starting without regard to history deals the very cards that a page without any history would deal, and the page's
      own history is kept. */
  lemma IgnoringHistoryStartsAfresh(s: State, setup: PlanInput)
    ensures SessionFrom(s, setup, true) == SessionFrom(s.(history := []), setup, false).(history := s.history)
  {
  }
}
