/** The checklist page writes finished checklist work into the planner's completion history.
    One instant `now` stands for the clock during one synchronisation. */
module PlannerSync {
  import opened Options
  import opened Sequences
  import opened Tasks
  import opened TaskHistory
  import opened ChecklistProgress

  datatype Link = Link(taskId: string, requirementIds: seq<string>)

  predicate RequirementsResolved(link: Link, progress: RoomProgress) {
    forall id | id in link.requirementIds :: id in progress
  }

  /** The planner task a link completes now: its requirements are resolved, the bank knows it, it is off cooldown. */
  function Credited(link: Link, progress: RoomProgress, bank: seq<Task>, history: seq<Completion>,
                    now: int): (r: Option<Task>)
    ensures r.Some? ==> r.value.id == link.taskId
  {
    if !RequirementsResolved(link, progress) then None
    else
      match TaskById(bank, link.taskId)
      case None => None
      case Some(task) => if IsTaskOnCooldown(task.id, CooldownFor(task), history, now) then None else Some(task)
  }

  function CreditOf(link: Link, progress: RoomProgress, bank: seq<Task>, history: seq<Completion>,
                    now: int): seq<Completion> {
    match Credited(link, progress, bank, history, now)
    case None => []
    case Some(task) => [Completion(task.id, now)]
  }

  function AfterLink(link: Link, progress: RoomProgress, bank: seq<Task>, history: seq<Completion>,
                     now: int): seq<Completion> {
    match Credited(link, progress, bank, history, now)
    case None => history
    case Some(task) => AddTaskCompletion(history, task.id, now)
  }

  /** The history after the first n links. */
  function SyncedUpTo(links: seq<Link>, n: nat, progress: RoomProgress, bank: seq<Task>, history: seq<Completion>,
                      now: int): seq<Completion>
    requires n <= |links|
  {
    if n == 0 then history
    else AfterLink(links[n - 1], progress, bank, SyncedUpTo(links, n - 1, progress, bank, history, now), now)
  }

  function Synced(links: seq<Link>, progress: RoomProgress, bank: seq<Task>, history: seq<Completion>,
                  now: int): seq<Completion> {
    SyncedUpTo(links, |links|, progress, bank, history, now)
  }

  /** The completions the first n links add, before any pruning. */
  function AddedUpTo(links: seq<Link>, n: nat, progress: RoomProgress, bank: seq<Task>, history: seq<Completion>,
                     now: int): seq<Completion>
    requires n <= |links|
  {
    if n == 0 then []
    else
      AddedUpTo(links, n - 1, progress, bank, history, now)
      + CreditOf(links[n - 1], progress, bank, SyncedUpTo(links, n - 1, progress, bank, history, now), now)
  }

  // ----- a sync adds, and does nothing else -----

  lemma PruneAppend(history: seq<Completion>, c: Completion, now: int)
    ensures PruneTaskHistory(history + [c], now)
            == PruneTaskHistory(history, now) + if c.completedAt >= now - RETENTION then [c] else []
  {
    assert (history + [c])[..|history|] == history;
  }

  lemma AddIsPrunedAppend(history: seq<Completion>, taskId: string, now: int)
    ensures AddTaskCompletion(history, taskId, now) == PruneTaskHistory(history, now) + [Completion(taskId, now)]
  {
    PruneAppend(history, Completion(taskId, now), now);
  }

  lemma {:induction false} CreditsAreDated(links: seq<Link>, n: nat, progress: RoomProgress, bank: seq<Task>,
                                           history: seq<Completion>, now: int)
    requires n <= |links|
    ensures forall c | c in AddedUpTo(links, n, progress, bank, history, now) :: c.completedAt == now
  {
    if n > 0 {
      CreditsAreDated(links, n - 1, progress, bank, history, now);
    }
  }

  /** The link asks for the task and has its requirements met. */
  ghost predicate Earns(link: Link, taskId: string, progress: RoomProgress) {
    link.taskId == taskId && RequirementsResolved(link, progress)
  }

  /** What a sync credits belongs to a link whose requirements are met. */
  lemma {:induction false} CreditsAreEarned(links: seq<Link>, n: nat, progress: RoomProgress, bank: seq<Task>,
                                            history: seq<Completion>, now: int, c: Completion)
    requires n <= |links| && c in AddedUpTo(links, n, progress, bank, history, now)
    ensures exists i | 0 <= i < n :: Earns(links[i], c.taskId, progress)
  {
    if c in AddedUpTo(links, n - 1, progress, bank, history, now) {
      CreditsAreEarned(links, n - 1, progress, bank, history, now, c);
    } else {
      assert Earns(links[n - 1], c.taskId, progress);
    }
  }

  function Appended(history: seq<Completion>, added: seq<Completion>, now: int): seq<Completion> {
    if added == [] then history else PruneTaskHistory(history, now) + added
  }

  lemma LinkAppends(link: Link, progress: RoomProgress, bank: seq<Task>, history: seq<Completion>,
                    added: seq<Completion>, before: seq<Completion>, now: int)
    requires before == Appended(history, added, now) && forall c | c in added :: c.completedAt == now
    ensures AfterLink(link, progress, bank, before, now)
            == Appended(history, added + CreditOf(link, progress, bank, before, now), now)
  {
    var credited := Credited(link, progress, bank, before, now);
    if credited.None? {
      assert added + [] == added;
    } else {
      AddIsPrunedAppend(before, credited.value.id, now);
      PrunePrunedAppend(history, added, now);
      ConcatAssociates(PruneTaskHistory(history, now), added, [Completion(credited.value.id, now)]);
      if added == [] {
        assert PruneTaskHistory(history, now) + [] == PruneTaskHistory(history, now);
      }
    }
  }

  /** The result is the old history, untouched when nothing is credited, and otherwise its unexpired part followed by
      what was credited: nothing else is written, reordered or lost. */
  lemma {:induction false} SyncAppends(links: seq<Link>, n: nat, progress: RoomProgress, bank: seq<Task>,
                                       history: seq<Completion>, now: int)
    requires n <= |links|
    ensures SyncedUpTo(links, n, progress, bank, history, now)
            == Appended(history, AddedUpTo(links, n, progress, bank, history, now), now)
  {
    if n > 0 {
      SyncAppends(links, n - 1, progress, bank, history, now);
      CreditsAreDated(links, n - 1, progress, bank, history, now);
      LinkAppends(links[n - 1], progress, bank, history, AddedUpTo(links, n - 1, progress, bank, history, now),
                  SyncedUpTo(links, n - 1, progress, bank, history, now), now);
    }
  }

  lemma {:induction false} PrunePrunedAppend(history: seq<Completion>, added: seq<Completion>, now: int)
    requires forall c | c in added :: c.completedAt == now
    ensures PruneTaskHistory(PruneTaskHistory(history, now) + added, now) == PruneTaskHistory(history, now) + added
  {
    var all := PruneTaskHistory(history, now) + added;
    FilterEverything(all, (c: Completion) => c.completedAt >= now - RETENTION);
  }

  // ----- idempotence -----

  /** A link whose task could be credited again at once: its requirements are met and its cooldown is not positive. */
  ghost predicate Unguarded(link: Link, progress: RoomProgress, bank: seq<Task>) {
    && RequirementsResolved(link, progress)
    && TaskById(bank, link.taskId).Some? && CooldownFor(TaskById(bank, link.taskId).value) <= 0
  }

  /** The link has nothing to add to this history. */
  ghost predicate Satisfied(link: Link, progress: RoomProgress, bank: seq<Task>, history: seq<Completion>, now: int) {
    Credited(link, progress, bank, history, now).None?
  }

  ghost predicate Met(link: Link, progress: RoomProgress, bank: seq<Task>) {
    RequirementsResolved(link, progress) && TaskById(bank, link.taskId).Some?
  }

  /** Crediting one met link cannot make the history forget why another was passed over: their cooldowns do not
      outlast the retention, or they are all for one task. */
  ghost predicate NothingForgotten(links: seq<Link>, progress: RoomProgress, bank: seq<Task>) {
    || (forall l | l in links && Met(l, progress, bank) ::
          CooldownFor(TaskById(bank, l.taskId).value) <= RETENTION_DAYS * 24)
    || (forall l, m | l in links && m in links && Met(l, progress, bank) && Met(m, progress, bank) ::
        l.taskId == m.taskId)
  }

  lemma AddedIsThere(history: seq<Completion>, taskId: string, now: int)
    ensures Completion(taskId, now) in AddTaskCompletion(history, taskId, now)
  {
    AddIsPrunedAppend(history, taskId, now);
    assert (PruneTaskHistory(history, now) + [Completion(taskId, now)])[|PruneTaskHistory(history, now)|]
        == Completion(taskId, now);
  }

  lemma JustCompletedIsOnCooldown(taskId: string, cooldownHours: int, history: seq<Completion>, now: int)
    requires now > 0 && cooldownHours > 0
    ensures IsTaskOnCooldown(taskId, cooldownHours, AddTaskCompletion(history, taskId, now), now)
  {
    AddedIsThere(history, taskId, now);
    CooldownFromCompletion(taskId, cooldownHours, AddTaskCompletion(history, taskId, now), now,
        Completion(taskId, now));
  }

  lemma CreditingSatisfies(link: Link, progress: RoomProgress, bank: seq<Task>, history: seq<Completion>, now: int)
    requires now > 0 && !Unguarded(link, progress, bank)
    ensures Satisfied(link, progress, bank, AfterLink(link, progress, bank, history, now), now)
  {
    var credited := Credited(link, progress, bank, history, now);
    if credited.Some? {
      JustCompletedIsOnCooldown(link.taskId, CooldownFor(credited.value), history, now);
    }
  }

  /** A cooldown within the retention cannot be lost to another task's completion. */
  lemma SatisfiedStaysSatisfied(links: seq<Link>, link: Link, other: Link, progress: RoomProgress, bank: seq<Task>,
                                history: seq<Completion>, now: int)
    requires now > 0 && link in links && other in links && NothingForgotten(links, progress, bank)
    requires Satisfied(link, progress, bank, history, now)
    ensures Satisfied(link, progress, bank, AfterLink(other, progress, bank, history, now), now)
  {
    if Met(link, progress, bank) && Credited(other, progress, bank, history, now).Some? {
      var hours := CooldownFor(TaskById(bank, link.taskId).value);
      if link.taskId == other.taskId {
        JustCompletedIsOnCooldown(link.taskId, hours, history, now);
      } else {
        assert Met(other, progress, bank);
        CooldownSurvivesAdding(link.taskId, hours, history, other.taskId, now);
      }
    }
  }

  lemma CooldownSurvivesAdding(taskId: string, cooldownHours: int, history: seq<Completion>, addedId: string, now: int)
    requires IsTaskOnCooldown(taskId, cooldownHours, history, now) && cooldownHours <= RETENTION_DAYS * 24
    ensures IsTaskOnCooldown(taskId, cooldownHours, AddTaskCompletion(history, addedId, now), now)
  {
    var longer := history + [Completion(addedId, now)];
    OnCooldownMeansRecentCompletion(taskId, cooldownHours, history, now);
    OnCooldownMeansRecentCompletion(taskId, cooldownHours, longer, now);
    var c :|
      c in history && c.taskId == taskId && c.completedAt > 0 && now - c.completedAt < cooldownHours * MS_PER_HOUR;
    assert c in longer;
    PruningKeepsCooldown(taskId, cooldownHours, longer, now, now);
  }

  lemma SyncedNext(links: seq<Link>, n: nat, progress: RoomProgress, bank: seq<Task>, history: seq<Completion>,
                   now: int)
    requires n < |links|
    ensures SyncedUpTo(links, n + 1, progress, bank, history, now)
            == AfterLink(links[n], progress, bank, SyncedUpTo(links, n, progress, bank, history, now), now)
  {
  }

  lemma {:induction false} SyncSatisfies(links: seq<Link>, n: nat, i: nat, progress: RoomProgress, bank: seq<Task>,
                                         history: seq<Completion>, now: int)
    requires i < n <= |links| && now > 0 && NothingForgotten(links, progress, bank)
             && !Unguarded(links[i], progress, bank)
    ensures Satisfied(links[i], progress, bank, SyncedUpTo(links, n, progress, bank, history, now), now)
  {
    var before := SyncedUpTo(links, n - 1, progress, bank, history, now);
    SyncedNext(links, n - 1, progress, bank, history, now);
    if i == n - 1 {
      CreditingSatisfies(links[i], progress, bank, before, now);
    } else {
      SyncSatisfies(links, n - 1, i, progress, bank, history, now);
      assert links[i] in links && links[n - 1] in links;
      SatisfiedStaysSatisfied(links, links[i], links[n - 1], progress, bank, before, now);
    }
  }

  /** A link whose requirements are all resolved, for a task of the bank whose cooldown is positive and within the
      retention, has done its work after a sync: the task is on cooldown, by a completion credited now or by an earlier
      one, whatever other links are credited afterwards. */
  lemma {:induction false} MetTasksAreOnCooldown(links: seq<Link>, n: nat, i: nat, progress: RoomProgress,
                                                 bank: seq<Task>, history: seq<Completion>, now: int, task: Task)
    requires i < n <= |links| && now > 0
    requires forall id | id in links[i].requirementIds :: id in progress
    requires TaskById(bank, links[i].taskId) == Some(task) && 0 < CooldownFor(task) <= 730 * 24
    ensures IsTaskOnCooldown(task.id, CooldownFor(task), SyncedUpTo(links, n, progress, bank, history, now), now)
  {
    var before := SyncedUpTo(links, n - 1, progress, bank, history, now);
    if i == n - 1 {
      JustCompletedIsOnCooldown(task.id, CooldownFor(task), before, now);
    } else {
      MetTasksAreOnCooldown(links, n - 1, i, progress, bank, history, now, task);
      if Credited(links[n - 1], progress, bank, before, now).Some? {
        CooldownSurvivesAdding(task.id, CooldownFor(task), before, links[n - 1].taskId, now);
      }
    }
  }

  lemma {:induction false} SatisfiedLinksAddNothing(links: seq<Link>, n: nat, progress: RoomProgress, bank: seq<Task>,
                                                    history: seq<Completion>, now: int)
    requires n <= |links| && forall i | 0 <= i < |links| :: Satisfied(links[i], progress, bank, history, now)
    ensures SyncedUpTo(links, n, progress, bank, history, now) == history
  {
    if n > 0 {
      SatisfiedLinksAddNothing(links, n - 1, progress, bank, history, now);
    }
  }

  lemma UnguardedIsCredited(link: Link, progress: RoomProgress, bank: seq<Task>, history: seq<Completion>, now: int)
    requires Unguarded(link, progress, bank)
    ensures CreditOf(link, progress, bank, history, now) != []
  {
  }

  /** An unguarded link adds a completion at every sync. */
  lemma {:induction false} UnguardedAlwaysAdds(links: seq<Link>, n: nat, i: nat, progress: RoomProgress,
                                               bank: seq<Task>, history: seq<Completion>, now: int)
    requires i < n <= |links| && Unguarded(links[i], progress, bank)
    ensures AddedUpTo(links, n, progress, bank, history, now) != []
  {
    if i < n - 1 {
      UnguardedAlwaysAdds(links, n - 1, i, progress, bank, history, now);
    } else {
      UnguardedIsCredited(links[i], progress, bank, SyncedUpTo(links, i, progress, bank, history, now), now);
    }
  }

  /** A sync that credits something changes a history from which nothing is pruned. */
  lemma CreditChanges(links: seq<Link>, progress: RoomProgress, bank: seq<Task>, history: seq<Completion>, now: int)
    requires AddedUpTo(links, |links|, progress, bank, history, now) != [] && PruneTaskHistory(history, now) == history
    ensures Synced(links, progress, bank, history, now) != history
  {
    SyncAppends(links, |links|, progress, bank, history, now);
    assert |Appended(history, AddedUpTo(links, |links|, progress, bank, history, now), now)| > |history|;
  }

  lemma CreditingPrunes(links: seq<Link>, progress: RoomProgress, bank: seq<Task>, history: seq<Completion>, now: int)
    requires AddedUpTo(links, |links|, progress, bank, history, now) != []
    ensures PruneTaskHistory(Synced(links, progress, bank, history, now), now)
              == Synced(links, progress, bank, history, now)
  {
    var added := AddedUpTo(links, |links|, progress, bank, history, now);
    SyncAppends(links, |links|, progress, bank, history, now);
    CreditsAreDated(links, |links|, progress, bank, history, now);
    PrunePrunedAppend(history, added, now);
  }

  lemma UnguardedBreaksIdempotence(links: seq<Link>, i: nat, progress: RoomProgress, bank: seq<Task>,
                                   history: seq<Completion>, now: int)
    requires i < |links| && Unguarded(links[i], progress, bank)
    ensures var once := Synced(links, progress, bank, history, now);
            Synced(links, progress, bank, once, now) != once
  {
    var once := Synced(links, progress, bank, history, now);
    UnguardedAlwaysAdds(links, |links|, i, progress, bank, history, now);
    UnguardedAlwaysAdds(links, |links|, i, progress, bank, once, now);
    CreditingPrunes(links, progress, bank, history, now);
    CreditChanges(links, progress, bank, once, now);
  }

  /** Syncing twice at one instant with the same progress: the second sync adds nothing exactly when no met link
      completes a task without a positive cooldown. */
  lemma SyncIsIdempotentExactly(links: seq<Link>, progress: RoomProgress, bank: seq<Task>, history: seq<Completion>,
                                now: int)
    requires now > 0 && NothingForgotten(links, progress, bank)
    ensures var once := Synced(links, progress, bank, history, now);
            Synced(links, progress, bank, once, now) == once <==> forall l | l in links :: !Unguarded(l, progress, bank)
  {
    var once := Synced(links, progress, bank, history, now);
    if forall l | l in links :: !Unguarded(l, progress, bank) {
      forall i | 0 <= i < |links|
        ensures Satisfied(links[i], progress, bank, once, now)
      {
        SyncSatisfies(links, |links|, i, progress, bank, history, now);
      }
      SatisfiedLinksAddNothing(links, |links|, progress, bank, once, now);
    } else {
      var i :| 0 <= i < |links| && Unguarded(links[i], progress, bank);
      UnguardedBreaksIdempotence(links, i, progress, bank, history, now);
    }
  }

  lemma AddToForgotten(c: Completion, taskId: string, now: int)
    requires c.completedAt < now - RETENTION
    ensures AddTaskCompletion([c], taskId, now) == [Completion(taskId, now)]
  {
    AddIsPrunedAppend([c], taskId, now);
    FilterNothing([c], (d: Completion) => d.completedAt >= now - RETENTION);
    assert [] + [Completion(taskId, now)] == [Completion(taskId, now)];
  }

  /** The first link is passed over because of c; crediting the second one prunes c away. */
  lemma FirstSyncForgets(a: Link, b: Link, bank: seq<Task>, c: Completion, now: int)
    requires Credited(a, map[], bank, [c], now).None? && Credited(b, map[], bank, [c], now).Some?
    requires c.completedAt < now - RETENTION
    ensures Synced([a, b], map[], bank, [c], now) == [Completion(b.taskId, now)]
  {
    TwoLinks(a, b, map[], bank, [c], now);
    AddToForgotten(c, b.taskId, now);
  }

  lemma SecondSyncCredits(a: Link, b: Link, bank: seq<Task>, c: Completion, now: int)
    requires Credited(a, map[], bank, [c], now).Some? && c.completedAt == now
    ensures Synced([a, b], map[], bank, [c], now) != [c]
  {
    TwoLinks(a, b, map[], bank, [c], now);
    FilterEverything([c], (d: Completion) => d.completedAt >= now - RETENTION);
    CreditChanges([a, b], map[], bank, [c], now);
  }

  function LinkTo(task: Task): Link {
    Link(task.id, [])
  }

  lemma LinkIsCredited(task: Task, bank: seq<Task>, history: seq<Completion>, now: int)
    requires TaskById(bank, task.id) == Some(task) && forall c | c in history :: c.taskId != task.id
    ensures Credited(LinkTo(task), map[], bank, history, now) == Some(task)
  {
    NeverDoneIsNotOnCooldown(task.id, CooldownFor(task), history, now);
  }

  lemma LinkIsPassedOver(task: Task, bank: seq<Task>)
    requires TaskById(bank, task.id) == Some(task) && CooldownFor(task) > RETENTION_DAYS * 24
    ensures Credited(LinkTo(task), map[], bank, [Completion(task.id, 1)], RETENTION + 2).None?
  {
    LongAgoIsOnCooldown(task, [Completion(task.id, 1)], RETENTION + 2);
  }

  /** A cooldown longer than the retention is forgotten when another task's completion prunes the history, so the
      second sync credits what the first one would not. */
  lemma LongCooldownsBreakIdempotence(longTask: Task, other: Task, bank: seq<Task>)
    requires TaskById(bank, longTask.id) == Some(longTask) && TaskById(bank, other.id) == Some(other)
    requires longTask.id != other.id && CooldownFor(longTask) > RETENTION_DAYS * 24
    ensures !IdempotentOn([LinkTo(longTask), LinkTo(other)], map[], bank, [Completion(longTask.id, 1)], RETENTION + 2)
  {
    var now := RETENTION + 2;
    LinkIsPassedOver(longTask, bank);
    LinkIsCredited(other, bank, [Completion(longTask.id, 1)], now);
    FirstSyncForgets(LinkTo(longTask), LinkTo(other), bank, Completion(longTask.id, 1), now);
    LinkIsCredited(longTask, bank, [Completion(other.id, now)], now);
    SecondSyncCredits(LinkTo(longTask), LinkTo(other), bank, Completion(other.id, now), now);
  }

  /** A second sync at the same instant never changes anything, whatever the links, progress and history. */
  ghost predicate AlwaysIdempotent(bank: seq<Task>) {
    forall links, progress, history, now | now > 0 :: IdempotentOn(links, progress, bank, history, now)
  }

  ghost predicate IdempotentOn(links: seq<Link>, progress: RoomProgress, bank: seq<Task>, history: seq<Completion>,
                               now: int) {
    var once := Synced(links, progress, bank, history, now);
    Synced(links, progress, bank, once, now) == once
  }

  predicate SoundCooldown(task: Task, bank: seq<Task>) {
    0 < CooldownFor(task) && (|bank| == 1 || CooldownFor(task) <= RETENTION_DAYS * 24)
  }

  lemma SoundBankIsIdempotent(links: seq<Link>, progress: RoomProgress, bank: seq<Task>, history: seq<Completion>,
                              now: int)
    requires now > 0 && forall t | t in bank :: SoundCooldown(t, bank)
    ensures IdempotentOn(links, progress, bank, history, now)
  {
    assert NothingForgotten(links, progress, bank) by {
      if |bank| == 1 {
        assert forall l | l in links && Met(l, progress, bank) :: l.taskId == bank[0].id;
      }
    }
    SyncIsIdempotentExactly(links, progress, bank, history, now);
  }

  lemma UnsoundCooldownBreaksIdempotence(task: Task, bank: seq<Task>)
    requires UniqueIds(bank) && task in bank && !SoundCooldown(task, bank)
    ensures !AlwaysIdempotent(bank)
  {
    FindsItself(bank, task);
    if CooldownFor(task) <= 0 {
      UnguardedBreaksIdempotence([Link(task.id, [])], 0, map[], bank, [], 1);
      assert !IdempotentOn([Link(task.id, [])], map[], bank, [], 1);
    } else {
      var other := if bank[0].id == task.id then bank[1] else bank[0];
      FindsItself(bank, other);
      LongCooldownsBreakIdempotence(task, other, bank);
    }
  }

  /** Synchronising is idempotent for every use of a bank exactly when all its cooldowns are positive and, unless the
      task is the only one, do not outlast the retention. */
  lemma SyncIsAlwaysIdempotentExactly(bank: seq<Task>)
    requires UniqueIds(bank)
    ensures AlwaysIdempotent(bank) <==> forall t | t in bank :: SoundCooldown(t, bank)
  {
    if forall t | t in bank :: SoundCooldown(t, bank) {
      forall links, progress, history, now | now > 0
        ensures IdempotentOn(links, progress, bank, history, now)
      {
        SoundBankIsIdempotent(links, progress, bank, history, now);
      }
    } else {
      var task :| task in bank && !SoundCooldown(task, bank);
      UnsoundCooldownBreaksIdempotence(task, bank);
    }
  }

  lemma LongAgoIsOnCooldown(task: Task, history: seq<Completion>, now: int)
    requires CooldownFor(task) > RETENTION_DAYS * 24 && history == [Completion(task.id, 1)] && now == RETENTION + 2
    ensures IsTaskOnCooldown(task.id, CooldownFor(task), history, now)
  {
    OnCooldownMeansRecentCompletion(task.id, CooldownFor(task), history, now);
    assert history[0] in history;
  }

  lemma NeverDoneIsNotOnCooldown(taskId: string, cooldownHours: int, history: seq<Completion>, now: int)
    requires forall c | c in history :: c.taskId != taskId
    ensures !IsTaskOnCooldown(taskId, cooldownHours, history, now)
  {
    OnCooldownMeansRecentCompletion(taskId, cooldownHours, history, now);
  }

  lemma TwoLinks(a: Link, b: Link, progress: RoomProgress, bank: seq<Task>, history: seq<Completion>, now: int)
    ensures var first := AfterLink(a, progress, bank, history, now);
            && Synced([a, b], progress, bank, history, now) == AfterLink(b, progress, bank, first, now)
            && AddedUpTo([a, b], 2, progress, bank, history, now)
                == CreditOf(a, progress, bank, history, now) + CreditOf(b, progress, bank, first, now)
  {
    assert SyncedUpTo([a, b], 1, progress, bank, history, now) == AfterLink(a, progress, bank, history, now);
    assert AddedUpTo([a, b], 1, progress, bank, history, now) == [] + CreditOf(a, progress, bank, history, now);
  }
}
