/** The completion history: append, prune at 730 days, and the max-based cooldown test.
    Instants are whole milliseconds since the epoch. */
module TaskHistory {
  import opened Options
  import opened Sequences

  datatype Completion = Completion(taskId: string, completedAt: int)

  const MS_PER_HOUR := 60 * 60 * 1000
  const MS_PER_DAY := 24 * MS_PER_HOUR
  const RETENTION_DAYS := 730
  const RETENTION := RETENTION_DAYS * MS_PER_DAY

  function PruneTaskHistory(history: seq<Completion>, now: int): seq<Completion> {
    Filter(history, (c: Completion) => c.completedAt >= now - RETENTION)
  }

  function AddTaskCompletion(history: seq<Completion>, taskId: string, now: int): seq<Completion> {
    PruneTaskHistory(history + [Completion(taskId, now)], now)
  }

  function CompletionsOf(history: seq<Completion>, taskId: string): seq<Completion> {
    Filter(history, (c: Completion) => c.taskId == taskId)
  }

  /** The reduce of the source: the latest time, starting from 0. */
  function LatestTime(history: seq<Completion>): int {
    if history == [] then 0
    else
      var rest, last := LatestTime(history[..|history| - 1]), history[|history| - 1].completedAt;
      if last > rest then last else rest
  }

  lemma {:induction false} LatestTimeIsMaximum(history: seq<Completion>)
    ensures LatestTime(history) >= 0
    ensures forall c | c in history :: c.completedAt <= LatestTime(history)
    ensures LatestTime(history) > 0 ==> exists c | c in history :: c.completedAt == LatestTime(history)
  {
    if history != [] {
      var front, last := history[..|history| - 1], history[|history| - 1];
      assert history == front + [last];
      LatestTimeIsMaximum(front);
    }
  }

  predicate IsTaskOnCooldown(taskId: string, cooldownHours: int, history: seq<Completion>, now: int) {
    cooldownHours > 0 &&
    var latest := LatestTime(CompletionsOf(history, taskId));
    latest > 0 && now - latest < cooldownHours * MS_PER_HOUR
  }

  /** The latest completion is recent exactly when some completion is. */
  lemma OnCooldownMeansRecentCompletion(taskId: string, cooldownHours: int, history: seq<Completion>, now: int)
    ensures IsTaskOnCooldown(taskId, cooldownHours, history, now) <==>
            && cooldownHours > 0
              && exists c | c in history ::
                   c.taskId == taskId && c.completedAt > 0 && now - c.completedAt < cooldownHours * MS_PER_HOUR
  {
    LatestTimeIsMaximum(CompletionsOf(history, taskId));
    if c :|
      c in history && c.taskId == taskId && c.completedAt > 0 && now - c.completedAt < cooldownHours * MS_PER_HOUR {
      assert c in CompletionsOf(history, taskId);
    }
  }

  lemma CooldownFromCompletion(taskId: string, cooldownHours: int, history: seq<Completion>, now: int, c: Completion)
    requires cooldownHours > 0 && c in history && c.taskId == taskId && c.completedAt > 0
    requires now - c.completedAt < cooldownHours * MS_PER_HOUR
    ensures IsTaskOnCooldown(taskId, cooldownHours, history, now)
  {
    OnCooldownMeansRecentCompletion(taskId, cooldownHours, history, now);
  }

  predicate NewestFirst(a: Completion, b: Completion) {
    a.completedAt > b.completedAt
  }

  function LatestTaskCompletion(taskId: string, history: seq<Completion>): Option<Completion> {
    var sorted := StableSort(CompletionsOf(history, taskId), NewestFirst);
    if sorted == [] then None else Some(sorted[0])
  }

  /** A sub-task shown as already done always has the completion whose date is shown beside it,
      and it is the one the cooldown was measured from. */
  lemma CooldownHasItsCompletion(taskId: string, cooldownHours: int, history: seq<Completion>, now: int)
    requires IsTaskOnCooldown(taskId, cooldownHours, history, now)
    ensures LatestTaskCompletion(taskId, history).Some?
    ensures LatestTaskCompletion(taskId, history).value.taskId == taskId
    ensures LatestTaskCompletion(taskId, history).value.completedAt == LatestTime(CompletionsOf(history, taskId))
  {
    var own := CompletionsOf(history, taskId);
    LatestTimeIsMaximum(own);
    var c :| c in own && c.completedAt == LatestTime(own);
    SortHeadIsFirst(own, NewestFirst);
    assert !NewestFirst(c, StableSort(own, NewestFirst)[0]);
  }

  // ----- pruning cannot be observed through the cooldown -----

  lemma PruneKeepsYoungCompletions(history: seq<Completion>, pruned: int, now: int, c: Completion)
    requires pruned <= now && c in history && now - c.completedAt <= RETENTION
    ensures c in PruneTaskHistory(history, pruned)
  {
  }

  lemma PruningKeepsCooldown(taskId: string, cooldownHours: int, history: seq<Completion>, pruned: int, now: int)
    requires pruned <= now && cooldownHours <= RETENTION_DAYS * 24
    ensures IsTaskOnCooldown(taskId, cooldownHours, PruneTaskHistory(history, pruned), now)
            == IsTaskOnCooldown(taskId, cooldownHours, history, now)
  {
    OnCooldownMeansRecentCompletion(taskId, cooldownHours, history, now);
    OnCooldownMeansRecentCompletion(taskId, cooldownHours, PruneTaskHistory(history, pruned), now);
    if IsTaskOnCooldown(taskId, cooldownHours, history, now) {
      var c :|
        c in history && c.taskId == taskId && c.completedAt > 0 && now - c.completedAt < cooldownHours * MS_PER_HOUR;
      PruneKeepsYoungCompletions(history, pruned, now, c);
    }
  }

  /** A cooldown survives pruning, whatever the history and the query time, exactly when it does not
      outlast the 730 days of retention. */
  lemma PruningIsTransparent(cooldownHours: int)
    ensures (forall taskId, history, pruned, now | pruned <= now ::
               IsTaskOnCooldown(taskId, cooldownHours, PruneTaskHistory(history, pruned), now)
               == IsTaskOnCooldown(taskId, cooldownHours, history, now))
            <==> cooldownHours <= RETENTION_DAYS * 24
  {
    if cooldownHours <= RETENTION_DAYS * 24 {
      forall taskId, history, pruned, now | pruned <= now
        ensures IsTaskOnCooldown(taskId, cooldownHours, PruneTaskHistory(history, pruned), now)
                == IsTaskOnCooldown(taskId, cooldownHours, history, now)
      {
        PruningKeepsCooldown(taskId, cooldownHours, history, pruned, now);
      }
    } else {
      var c, now := Completion("a", 1), RETENTION + 2;
      OnCooldownMeansRecentCompletion("a", cooldownHours, [c], now);
      OnCooldownMeansRecentCompletion("a", cooldownHours, PruneTaskHistory([c], now), now);
      assert c in [c];
      assert IsTaskOnCooldown("a", cooldownHours, [c], now);
      assert c !in PruneTaskHistory([c], now);
    }
  }
}
