/** The planner's existential cooldown test, and its agreement with the max-based one. */
module DueTests {
  import opened Tasks
  import opened TaskHistory

  /** A completion counts against `task` if it is of the task, of its repeat group, or of a card that supersedes it. */
  predicate IsSameActivity(task: Task, tasks: seq<Task>, c: Completion) {
    var completed := TaskById(tasks, c.taskId);
    || c.taskId == task.id
    || (TruthyText(task.repeatGroup) && completed.Some? && completed.value.repeatGroup == task.repeatGroup)
    || (completed.Some? && task.id in completed.value.supersedesTaskIds)
  }

  /** The cooldown is that of the task that was completed, when the bank still has it. */
  function CooldownAfter(task: Task, tasks: seq<Task>, c: Completion): int {
    var completed := TaskById(tasks, c.taskId);
    if completed.Some? then CooldownFor(completed.value) else CooldownFor(task)
  }

  predicate Blocks(task: Task, tasks: seq<Task>, c: Completion, now: int) {
    IsSameActivity(task, tasks, c) && now - c.completedAt < CooldownAfter(task, tasks, c) * MS_PER_HOUR
  }

  predicate IsCoolingDown(task: Task, tasks: seq<Task>, history: seq<Completion>, now: int) {
    exists c | c in history :: Blocks(task, tasks, c, now)
  }

  /** Pruning never changes what the planner hides, repeat groups and superseding cards included. */
  lemma PruningKeepsCoolingDown(task: Task, tasks: seq<Task>, history: seq<Completion>, pruned: int, now: int)
    requires pruned <= now
    requires CooldownFor(task) <= RETENTION_DAYS * 24
    requires forall t | t in tasks :: CooldownFor(t) <= RETENTION_DAYS * 24
    ensures IsCoolingDown(task, tasks, PruneTaskHistory(history, pruned), now)
            == IsCoolingDown(task, tasks, history, now)
  {
    if c :| c in history && Blocks(task, tasks, c, now) {
      PruneKeepsYoungCompletions(history, pruned, now, c);
    }
  }

  /** Pruning cannot be observed through the planner's test of any task of the bank exactly when none of the bank's
      cooldowns outlasts the retention. */
  lemma PruningIsTransparentToPlanner(tasks: seq<Task>)
    requires UniqueIds(tasks)
    ensures (forall task, history, pruned, now | task in tasks && pruned <= now ::
               IsCoolingDown(task, tasks, PruneTaskHistory(history, pruned), now)
                   == IsCoolingDown(task, tasks, history, now))
            <==> forall t | t in tasks :: CooldownFor(t) <= RETENTION_DAYS * 24
  {
    if forall t | t in tasks :: CooldownFor(t) <= RETENTION_DAYS * 24 {
      forall task, history, pruned, now | task in tasks && pruned <= now
        ensures IsCoolingDown(task, tasks, PruneTaskHistory(history, pruned), now)
                == IsCoolingDown(task, tasks, history, now)
      {
        PruningKeepsCoolingDown(task, tasks, history, pruned, now);
      }
    } else {
      var task :| task in tasks && CooldownFor(task) > RETENTION_DAYS * 24;
      PruningForgetsLongCooldown(task, tasks);
    }
  }

  lemma PruningForgetsLongCooldown(task: Task, tasks: seq<Task>)
    requires UniqueIds(tasks) && task in tasks && CooldownFor(task) > RETENTION_DAYS * 24
    ensures var history, now := [Completion(task.id, 1)], RETENTION + 2;
            IsCoolingDown(task, tasks, history, now) && !IsCoolingDown(task, tasks, PruneTaskHistory(history, now), now)
  {
    var c, now := Completion(task.id, 1), RETENTION + 2;
    FindsItself(tasks, task);
    assert c in [c] && Blocks(task, tasks, c, now);
  }

  /** Neither a repeat group nor a superseding card can stand in for the task. */
  ghost predicate StandsAlone(task: Task, tasks: seq<Task>, history: seq<Completion>) {
    && !TruthyText(task.repeatGroup)
    && forall c | c in history ::
         var completed := TaskById(tasks, c.taskId);
         completed.Some? ==> task.id !in completed.value.supersedesTaskIds
  }

  /** A completion of the task dated in the future, by more than the amount by which its cooldown falls short of
      zero. */
  ghost predicate FutureCompletion(task: Task, history: seq<Completion>, now: int) {
    exists c | c in history :: c.taskId == task.id && c.completedAt > now + -CooldownFor(task) * MS_PER_HOUR
  }

  /** The two cooldown tests agree exactly unless the cooldown is not positive and a completion is dated so far in the
      future; with no completions from the future they always agree. */
  lemma CooldownTestsAgree(task: Task, tasks: seq<Task>, history: seq<Completion>, now: int)
    requires UniqueIds(tasks) && task in tasks && StandsAlone(task, tasks, history)
    requires forall c | c in history && c.taskId == task.id :: c.completedAt > 0
    ensures IsCoolingDown(task, tasks, history, now) == IsTaskOnCooldown(task.id, CooldownFor(task), history, now)
            <==> !(CooldownFor(task) <= 0 && FutureCompletion(task, history, now))
    ensures (forall c | c in history :: c.completedAt <= now)
            ==> IsCoolingDown(task, tasks, history, now) == IsTaskOnCooldown(task.id, CooldownFor(task), history, now)
  {
    FindsItself(tasks, task);
    OnCooldownMeansRecentCompletion(task.id, CooldownFor(task), history, now);
    assert forall c | c in history :: IsSameActivity(task, tasks, c) <==> c.taskId == task.id;
    assert IsCoolingDown(task, tasks, history, now) <==> FutureCompletion(task, history, now) by {
      if c :| c in history && c.taskId == task.id && now - c.completedAt < CooldownFor(task) * MS_PER_HOUR {
        assert Blocks(task, tasks, c, now);
      }
      if c :| c in history && Blocks(task, tasks, c, now) {
        assert c.taskId == task.id;
      }
    }
  }
}
