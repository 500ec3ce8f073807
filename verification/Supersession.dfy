/** Cards that replace smaller cards: what the filter keeps never overlaps, and what it drops stays covered. */
module Supersession {
  import opened Sequences
  import opened Tasks
  import opened Planner

  /** An edge of the replacement graph between two candidates. */
  predicate Edge(candidates: seq<Task>, from: Task, to: Task) {
    from in candidates && to in candidates && Replaces(from, to.id)
  }

  /** A walk along replacement edges, from its first to its last task. */
  ghost predicate Walk(candidates: seq<Task>, walk: seq<Task>) {
    && |walk| >= 1
    && (forall i | 0 <= i < |walk| :: walk[i] in candidates)
    && forall i | 0 <= i < |walk| - 1 :: Edge(candidates, walk[i], walk[i + 1])
  }

  ghost predicate Reaches(candidates: seq<Task>, from: Task, to: Task) {
    exists walk :: Walk(candidates, walk) && walk[0] == from && walk[|walk| - 1] == to
  }

  /** No candidate replaces itself, directly or through others. */
  ghost predicate Acyclic(candidates: seq<Task>) {
    forall walk | Walk(candidates, walk) && |walk| >= 2 :: walk[0] != walk[|walk| - 1]
  }

  /** Nothing is suggested twice: no kept card supersedes or includes another kept card, or itself. */
  lemma KeptCardsDoNotOverlap(candidates: seq<Task>, a: Task, b: Task)
    requires a in Kept(candidates) && b in Kept(candidates)
    ensures b.id !in a.supersedesTaskIds && b.id !in a.includedTaskIds
  {
  }

  /** Climbing from a dropped task, replacer by replacer, ends at a kept one: without cycles the tasks
      already climbed through cannot come back. */
  lemma {:induction false} ClimbToKept(candidates: seq<Task>, walk: seq<Task>) returns (top: Task)
    requires Acyclic(candidates) && Walk(candidates, walk)
    ensures top in Kept(candidates) && Reaches(candidates, top, walk[|walk| - 1])
    decreases |candidates| - |walk|
  {
    WalkIsShort(candidates, walk);
    if IsSuperseded(walk[0].id, candidates) {
      var card :| card in candidates && Replaces(card, walk[0].id);
      var longer := [card] + walk;
      assert Walk(candidates, longer);
      WalkIsShort(candidates, longer);
      top := ClimbToKept(candidates, longer);
    } else {
      top := walk[0];
    }
  }

  /** In an acyclic graph a walk visits each candidate at most once. */
  lemma WalkIsShort(candidates: seq<Task>, walk: seq<Task>)
    requires Acyclic(candidates) && Walk(candidates, walk)
    ensures |walk| <= |candidates|
  {
    forall i, j | 0 <= i < j < |walk|
      ensures walk[i] != walk[j]
    {
      var part := walk[i..j + 1];
      assert forall k | 0 <= k < |part| :: part[k] == walk[i + k];
      assert Walk(candidates, part);
    }
    DistinctWithin(walk, candidates);
  }

  /** Supersession loses nothing: when the edges are acyclic, every dropped candidate is reachable from a kept one. */
  lemma DroppedTasksAreCovered(candidates: seq<Task>, dropped: Task)
    requires Acyclic(candidates) && dropped in candidates && dropped !in Kept(candidates)
    ensures exists top | top in Kept(candidates) :: top != dropped && Reaches(candidates, top, dropped)
  {
    assert Walk(candidates, [dropped]);
    var top := ClimbToKept(candidates, [dropped]);
  }

  // ----- exactly without cycles -----

  ghost predicate Within(candidates: seq<Task>, bank: seq<Task>) {
    forall t | t in candidates :: t in bank
  }

  /** Every candidate is kept, or replaced in the end by one that is. */
  ghost predicate Covered(candidates: seq<Task>) {
    forall t | t in candidates :: CoveredBy(candidates, t)
  }

  ghost predicate CoveredBy(candidates: seq<Task>, t: Task) {
    exists top | top in Kept(candidates) :: Reaches(candidates, top, t)
  }

  lemma AcyclicBankCovers(candidates: seq<Task>, bank: seq<Task>)
    requires Acyclic(bank) && Within(candidates, bank)
    ensures Covered(candidates)
  {
    forall walk | Walk(candidates, walk) && |walk| >= 2
      ensures walk[0] != walk[|walk| - 1]
    {
      assert Walk(bank, walk);
    }
    forall t | t in candidates
      ensures CoveredBy(candidates, t)
    {
      assert Walk(candidates, [t]);
      var top := ClimbToKept(candidates, [t]);
    }
  }

  ghost predicate Cycle(bank: seq<Task>, walk: seq<Task>) {
    Walk(bank, walk) && |walk| >= 2 && walk[0] == walk[|walk| - 1]
  }

  /** Around a cycle each card is replaced by the one before it, so of candidates that are the cards of a cycle
      none is kept. */
  lemma CycleLosesAll(bank: seq<Task>, walk: seq<Task>, candidates: seq<Task>)
    requires Cycle(bank, walk) && forall t :: t in candidates <==> t in walk
    ensures Kept(candidates) == [] && !Covered(candidates)
  {
    forall t | t in candidates
      ensures IsSuperseded(t.id, candidates)
    {
      var i :| 0 <= i < |walk| && walk[i] == t;
      var before := if i == 0 then |walk| - 2 else i - 1;
      assert Edge(bank, walk[before], walk[before + 1]) && walk[before + 1] == t;
      assert walk[before] in candidates && Replaces(walk[before], t.id);
    }
    FilterNothing(candidates, (t: Task) => !IsSuperseded(t.id, candidates));
    assert walk[0] in candidates && !CoveredBy(candidates, walk[0]);
  }

  lemma CyclicBankHasCycle(bank: seq<Task>) returns (walk: seq<Task>)
    requires !Acyclic(bank)
    ensures Cycle(bank, walk)
  {
    walk :| Walk(bank, walk) && |walk| >= 2 && walk[0] == walk[|walk| - 1];
  }

  lemma CycleCanBeSelected(bank: seq<Task>, walk: seq<Task>)
    requires Cycle(bank, walk)
    ensures Within(walk, bank) && !Covered(walk)
    ensures !Covered(Filter(bank, InWalk(walk)))
  {
    CycleLosesAll(bank, walk, walk);
    CycleLosesAll(bank, walk, Filter(bank, InWalk(walk)));
  }

  function InWalk(walk: seq<Task>): Task -> bool {
    (t: Task) => t in walk
  }

  /** Supersession loses nothing, whichever candidates a bank yields, exactly when the bank has no cycle: over all
      lists of its tasks, and already over those that a filter can select from it. */
  lemma SupersessionLosesNothingExactly(bank: seq<Task>)
    ensures (forall candidates | Within(candidates, bank) :: Covered(candidates)) <==> Acyclic(bank)
    ensures (forall p: Task -> bool :: Covered(Filter(bank, p))) <==> Acyclic(bank)
  {
    if Acyclic(bank) {
      forall candidates | Within(candidates, bank)
        ensures Covered(candidates)
      {
        AcyclicBankCovers(candidates, bank);
      }
      forall p: Task -> bool
        ensures Covered(Filter(bank, p))
      {
        AcyclicBankCovers(Filter(bank, p), bank);
      }
    } else {
      var walk := CyclicBankHasCycle(bank);
      CycleCanBeSelected(bank, walk);
    }
  }

  /** The smallest instance: two cards that replace each other are both lost. */
  lemma CycleLosesBoth(a: Task, b: Task)
    requires Replaces(a, b.id) && Replaces(b, a.id)
    ensures Kept([a, b]) == [] && !Acyclic([a, b])
  {
    var candidates, loop := [a, b], [a, b, a];
    assert a in candidates && b in candidates;
    assert Cycle(candidates, loop);
    CycleLosesAll(candidates, loop, candidates);
  }
}
