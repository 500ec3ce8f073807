/** The array operations the source leans on (filter, map, find, flat, a stable sort, grouping through an
    insertion-ordered Map), each with the facts that later proofs use. */
module Sequences {
  import opened Options

  ghost predicate Distinct<T>(s: seq<T>) {
    forall i, j | 0 <= i < j < |s| :: s[i] != s[j]
  }

  function Filter<T>(s: seq<T>, p: T -> bool): (r: seq<T>)
    ensures forall x {:trigger x in r} | x in r :: x in s && p(x)
    ensures forall x {:trigger x in r} | x in s && p(x) :: x in r
    ensures |r| <= |s|
  {
    if s == [] then []
    else
      var rest := Filter(s[..|s| - 1], p);
      assert s == s[..|s| - 1] + [s[|s| - 1]];
      if p(s[|s| - 1]) then rest + [s[|s| - 1]] else rest
  }

  function Transform<T, U>(s: seq<T>, f: T -> U): (r: seq<U>)
    ensures |r| == |s|
    ensures forall i | 0 <= i < |s| :: r[i] == f(s[i])
  {
    seq(|s|, i requires 0 <= i < |s| => f(s[i]))
  }

  lemma TransformConcat<T, U>(a: seq<T>, b: seq<T>, f: T -> U)
    ensures Transform(a + b, f) == Transform(a, f) + Transform(b, f)
  {
  }

  /** Array.prototype.find: the first element that satisfies p. */
  function Find<T>(s: seq<T>, p: T -> bool): (r: Option<T>)
    ensures r.Some? ==> r.value in s && p(r.value)
    ensures r.None? <==> forall x | x in s :: !p(x)
  {
    if s == [] then None
    else if p(s[0]) then Some(s[0])
    else
      assert s == [s[0]] + s[1..];
      Find(s[1..], p)
  }

  lemma {:induction false} FindsFirst<T>(s: seq<T>, p: T -> bool) returns (k: nat)
    requires Find(s, p).Some?
    ensures k < |s| && Find(s, p) == Some(s[k]) && p(s[k]) && forall i | 0 <= i < k :: !p(s[i])
  {
    if p(s[0]) {
      k := 0;
    } else {
      k := FindsFirst(s[1..], p);
      k := k + 1;
    }
  }

  function Flatten<T>(ss: seq<seq<T>>): seq<T> {
    if ss == [] then [] else Flatten(ss[..|ss| - 1]) + ss[|ss| - 1]
  }

  lemma TakeNext<T>(s: seq<T>, n: nat)
    requires n < |s|
    ensures s[..n + 1] == s[..n] + [s[n]] && s[..n + 1][..n] == s[..n]
  {
  }

  lemma {:induction false} FlattenMembers<T>(ss: seq<seq<T>>, x: T)
    ensures x in Flatten(ss) <==> exists i | 0 <= i < |ss| :: x in ss[i]
  {
    if ss != [] {
      var front := ss[..|ss| - 1];
      FlattenMembers(front, x);
      if i :| 0 <= i < |front| && x in front[i] {
        assert x in ss[i];
      }
    }
  }

  lemma ConcatAssociates<T>(a: seq<T>, b: seq<T>, c: seq<T>)
    ensures (a + b) + c == a + (b + c)
  {
  }

  /** part(from) + ... + part(n - 1). */
  function Gather<T>(part: nat -> seq<T>, from: nat, n: nat): seq<T> {
    if n <= from then [] else Gather(part, from, n - 1) + part(n - 1)
  }

  lemma {:induction false} GatherInTwoParts<T>(part: nat -> seq<T>, from: nat, mid: nat, n: nat)
    requires from <= mid <= n
    ensures Gather(part, from, n) == Gather(part, from, mid) + Gather(part, mid, n)
  {
    if n > mid {
      GatherInTwoParts(part, from, mid, n - 1);
      ConcatAssociates(Gather(part, from, mid), Gather(part, mid, n - 1), part(n - 1));
    }
  }

  lemma {:induction false} GatherNothing<T>(part: nat -> seq<T>, from: nat, n: nat)
    requires forall i: nat | from <= i < n :: part(i) == []
    ensures Gather(part, from, n) == []
  {
    if n > from {
      GatherNothing(part, from, n - 1);
    }
  }

  lemma {:induction false} FlattenApart<T>(ss: seq<seq<T>>, i: nat, j: nat, x: T)
    requires Distinct(Flatten(ss)) && i < |ss| && j < |ss| && i != j && x in ss[i]
    ensures x !in ss[j]
  {
    if x in ss[j] {
      var n := |ss| - 1;
      var front := ss[..n];
      DistinctParts(Flatten(front), ss[n]);
      if i < n && j < n {
        FlattenApart(front, i, j, x);
      } else {
        assert x in front[if i < j then i else j];
        FlattenMembers(front, x);
        OverlapIsNotDistinct(Flatten(front), ss[n], x);
      }
    }
  }

  lemma DistinctParts<T>(a: seq<T>, b: seq<T>)
    requires Distinct(a + b)
    ensures Distinct(a) && Distinct(b)
  {
    assert forall i | 0 <= i < |a| :: (a + b)[i] == a[i];
    assert forall i | 0 <= i < |b| :: (a + b)[|a| + i] == b[i];
  }

  lemma OverlapIsNotDistinct<T>(a: seq<T>, b: seq<T>, x: T)
    requires x in a && x in b
    ensures !Distinct(a + b)
  {
    var i :| 0 <= i < |a| && a[i] == x;
    var j :| 0 <= j < |b| && b[j] == x;
    assert (a + b)[i] == (a + b)[|a| + j];
  }

  function SumBy<T>(s: seq<T>, f: T -> int): int {
    if s == [] then 0 else SumBy(s[..|s| - 1], f) + f(s[|s| - 1])
  }

  lemma {:induction false} FilterNothing<T>(s: seq<T>, p: T -> bool)
    requires forall x | x in s :: !p(x)
    ensures Filter(s, p) == []
  {
    if s != [] {
      assert s == s[..|s| - 1] + [s[|s| - 1]];
      FilterNothing(s[..|s| - 1], p);
    }
  }

  lemma {:induction false} FilterEverything<T>(s: seq<T>, p: T -> bool)
    requires forall x | x in s :: p(x)
    ensures Filter(s, p) == s
  {
    if s != [] {
      assert s == s[..|s| - 1] + [s[|s| - 1]];
      FilterEverything(s[..|s| - 1], p);
    }
  }

  /** The element at j of the filtered sequence, where it stands in the whole. */
  lemma {:induction false} FilterPosition<T>(s: seq<T>, p: T -> bool, j: nat) returns (k: nat)
    requires j < |Filter(s, p)|
    ensures k < |s| && s[k] == Filter(s, p)[j]
    ensures forall i | 0 <= i < k && p(s[i]) :: s[i] in Filter(s, p)[..j]
  {
    var front := s[..|s| - 1];
    var rest := Filter(front, p);
    if j < |rest| {
      k := FilterPosition(front, p, j);
      assert rest[..j] == Filter(s, p)[..j];
    } else {
      k := |front|;
      assert Filter(s, p)[..j] == rest;
      forall i | 0 <= i < k && p(s[i])
        ensures s[i] in rest
      {
        assert front[i] == s[i];
      }
    }
  }

  lemma {:induction false} FilterTwice<T>(s: seq<T>, p: T -> bool, q: T -> bool, both: T -> bool)
    requires forall i | 0 <= i < |s| :: both(s[i]) == (p(s[i]) && q(s[i]))
    ensures Filter(Filter(s, p), q) == Filter(s, both)
  {
    if s != [] {
      var front, x := s[..|s| - 1], s[|s| - 1];
      FilterTwice(front, p, q, both);
      if p(x) {
        assert (Filter(front, p) + [x])[..|Filter(front, p)|] == Filter(front, p);
      }
    }
  }

  /** Some occurrence of a stands before some occurrence of b. */
  ghost predicate Before<T>(s: seq<T>, a: T, b: T) {
    exists i, j :: 0 <= i < j < |s| && s[i] == a && s[j] == b
  }

  lemma BeforeAppend<T>(s: seq<T>, x: T, a: T, b: T)
    ensures Before(s + [x], a, b) <==> Before(s, a, b) || (b == x && a in s)
  {
    var longer := s + [x];
    if i, j :| 0 <= i < j < |s| && s[i] == a && s[j] == b {
      assert longer[i] == a && longer[j] == b;
    }
    if b == x && a in s {
      var i :| 0 <= i < |s| && s[i] == a;
      assert longer[i] == a && longer[|s|] == b;
    }
  }

  lemma BeforeConcat<T>(s: seq<T>, u: seq<T>, a: T, b: T)
    ensures Before(s + u, a, b) <==> Before(s, a, b) || Before(u, a, b) || (a in s && b in u)
  {
    var both := s + u;
    if i, j :| 0 <= i < j < |s| && s[i] == a && s[j] == b {
      assert both[i] == a && both[j] == b;
    }
    if i, j :| 0 <= i < j < |u| && u[i] == a && u[j] == b {
      assert both[|s| + i] == a && both[|s| + j] == b;
    }
    if a in s && b in u {
      var i :| 0 <= i < |s| && s[i] == a;
      var j :| 0 <= j < |u| && u[j] == b;
      assert both[i] == a && both[|s| + j] == b;
    }
    if i, j :| 0 <= i < j < |both| && both[i] == a && both[j] == b && i >= |s| {
      assert u[i - |s|] == a && u[j - |s|] == b;
    }
  }

  /** The two sequences agree on which of a and b they hold and in which order. */
  ghost predicate SameOrder<T>(s: seq<T>, u: seq<T>, a: T, b: T) {
    (a in s <==> a in u) && (b in s <==> b in u) && (Before(s, a, b) <==> Before(u, a, b))
  }

  lemma SameOrderConcat<T>(s: seq<T>, t: seq<T>, u: seq<T>, v: seq<T>, left: seq<T>, right: seq<T>, a: T, b: T)
    requires SameOrder(s, u, a, b) && SameOrder(t, v, a, b) && left == s + t && right == u + v
    ensures SameOrder(left, right, a, b)
  {
    BeforeConcat(s, t, a, b);
    BeforeConcat(u, v, a, b);
  }

  /** Filtering keeps what it keeps in its order. */
  lemma {:induction false} FilterKeepsOrder<T>(s: seq<T>, p: T -> bool, a: T, b: T)
    requires p(a) && p(b)
    ensures Before(Filter(s, p), a, b) <==> Before(s, a, b)
  {
    if s != [] {
      var front, x := s[..|s| - 1], s[|s| - 1];
      assert s == front + [x];
      FilterKeepsOrder(front, p, a, b);
      BeforeAppend(front, x, a, b);
      BeforeAppend(Filter(front, p), x, a, b);
    }
  }

  /** Without repetition, of two elements exactly one stands before the other. */
  lemma DistinctIsLinear<T>(s: seq<T>, a: T, b: T)
    requires Distinct(s) && a in s && b in s && a != b
    ensures Before(s, a, b) <==> !Before(s, b, a)
  {
    var i :| 0 <= i < |s| && s[i] == a;
    var j :| 0 <= j < |s| && s[j] == b;
  }

  lemma {:induction false} FilterKeepsDistinct<T>(s: seq<T>, p: T -> bool)
    requires Distinct(s)
    ensures Distinct(Filter(s, p))
  {
    if s != [] {
      FilterKeepsDistinct(s[..|s| - 1], p);
      assert s[|s| - 1] !in s[..|s| - 1];
      assert s[|s| - 1] !in Filter(s[..|s| - 1], p);
    }
  }

  lemma {:induction false} FlattenConcat<T>(a: seq<seq<T>>, b: seq<seq<T>>)
    ensures Flatten(a + b) == Flatten(a) + Flatten(b)
  {
    if b == [] {
      assert a + b == a;
    } else {
      FlattenConcat(a, b[..|b| - 1]);
      assert (a + b)[..|a + b| - 1] == a + b[..|b| - 1];
    }
  }

  lemma SumByAppend<T>(s: seq<T>, x: T, f: T -> int)
    ensures SumBy(s + [x], f) == SumBy(s, f) + f(x)
  {
    assert (s + [x])[..|s|] == s;
  }

  lemma {:induction false} SumByTransform<T, U>(s: seq<T>, f: T -> U, h: U -> int, k: T -> int)
    requires forall x | x in s :: h(f(x)) == k(x)
    ensures SumBy(Transform(s, f), h) == SumBy(s, k)
  {
    if s != [] {
      var front := s[..|s| - 1];
      assert s == front + [s[|s| - 1]];
      SumByTransform(front, f, h, k);
      assert Transform(s, f)[..|front|] == Transform(front, f);
    }
  }

  lemma {:induction false} SumByUpdate<T>(s: seq<T>, i: nat, x: T, f: T -> int)
    requires i < |s|
    ensures SumBy(s[i := x], f) == SumBy(s, f) - f(s[i]) + f(x)
  {
    var n := |s| - 1;
    if i < n {
      SumByUpdate(s[..n], i, x, f);
      assert s[i := x][..n] == s[..n][i := x];
    } else {
      assert s[i := x][..n] == s[..n];
    }
  }

  /** `rest` is s without its element at i. */
  ghost predicate Omits<T>(rest: seq<T>, s: seq<T>, i: nat)
    requires i < |s|
  {
    && |rest| == |s| - 1
    && (forall k | 0 <= k < i :: rest[k] == s[k])
    && (forall k | i <= k < |rest| :: rest[k] == s[k + 1])
  }

  lemma OmittingRemoves<T>(rest: seq<T>, s: seq<T>, i: nat)
    requires i < |s| && Omits(rest, s, i)
    ensures multiset(s) == multiset(rest) + multiset{s[i]}
    ensures multiset(rest) == multiset(s) - multiset{s[i]}
  {
    assert s == rest[..i] + [s[i]] + rest[i..];
    assert rest == rest[..i] + rest[i..];
  }

  lemma RemoveAt<T>(s: seq<T>, i: nat) returns (rest: seq<T>)
    requires i < |s|
    ensures Omits(rest, s, i)
  {
    rest := s[..i] + s[i + 1..];
  }

  lemma {:induction false} TransformPermutation<T, U>(a: seq<T>, b: seq<T>, f: T -> U)
    requires multiset(a) == multiset(b)
    ensures multiset(Transform(a, f)) == multiset(Transform(b, f))
    decreases |a|
  {
    assert |a| == |multiset(a)| == |multiset(b)| == |b|;
    if a != [] {
      assert a[0] in multiset(b);
      var i :| 0 <= i < |b| && b[i] == a[0];
      var restA := RemoveAt(a, 0);
      var restB := RemoveAt(b, i);
      OmittingRemoves(restA, a, 0);
      OmittingRemoves(restB, b, i);
      TransformPermutation(restA, restB, f);
      OmittingRemoves(Transform(restA, f), Transform(a, f), 0);
      OmittingRemoves(Transform(restB, f), Transform(b, f), i);
    }
  }

  lemma PermutationKeepsDistinct<T>(a: seq<T>, b: seq<T>)
    requires multiset(a) == multiset(b) && Distinct(a)
    ensures Distinct(b)
  {
    forall i, j | 0 <= i < j < |b|
      ensures b[i] != b[j]
    {
      if b[i] == b[j] {
        assert b == b[..i] + [b[i]] + b[i + 1..j] + [b[j]] + b[j + 1..];
        assert multiset(b)[b[i]] >= 2;
        DistinctCountsOnce(a, b[i]);
        assert false;
      }
    }
  }

  lemma {:induction false} DistinctCountsOnce<T>(s: seq<T>, x: T)
    requires Distinct(s)
    ensures multiset(s)[x] == if x in s then 1 else 0
  {
    if s != [] {
      assert s == s[..|s| - 1] + [s[|s| - 1]];
      DistinctCountsOnce(s[..|s| - 1], x);
    }
  }

  /** Distinct elements of a pool are no more than the pool. */
  lemma {:induction false} DistinctWithin<T>(s: seq<T>, pool: seq<T>)
    requires Distinct(s) && forall x | x in s :: x in pool
    ensures |s| <= |pool|
  {
    if s != [] {
      var front, last := s[..|s| - 1], s[|s| - 1];
      assert last in s;
      var i :| 0 <= i < |pool| && pool[i] == last;
      var rest := Without(front, last, pool, i);
      DistinctWithin(front, rest);
    }
  }

  /** The pool without one element that the others do not need. */
  lemma Without<T>(s: seq<T>, x: T, pool: seq<T>, i: nat) returns (rest: seq<T>)
    requires i < |pool| && pool[i] == x && x !in s && forall y | y in s :: y in pool
    ensures |rest| == |pool| - 1 && forall y | y in s :: y in rest
  {
    rest := pool[..i] + pool[i + 1..];
    forall y | y in s
      ensures y in rest
    {
      var k :| 0 <= k < |pool| && pool[k] == y;
      assert if k < i then rest[k] == y else rest[k - 1] == y;
    }
  }

  /** As many distinct elements as the pool has cover the pool. */
  lemma DistinctCovers<T>(s: seq<T>, pool: seq<T>)
    requires Distinct(s) && (forall x | x in s :: x in pool) && |s| >= |pool|
    ensures forall x | x in pool :: x in s
  {
    forall x | x in pool
      ensures x in s
    {
      if x !in s {
        var i :| 0 <= i < |pool| && pool[i] == x;
        var rest := Without(s, x, pool, i);
        DistinctWithin(s, rest);
        assert false;
      }
    }
  }

  // ----- the stable sort -----

  /** What a comparator must be for `Array.prototype.sort` to have one answer. */
  ghost predicate StrictWeakOrder<T(!new)>(less: (T, T) -> bool) {
    && (forall a, b :: less(a, b) ==> !less(b, a))
    && (forall a, b, c :: !less(a, b) && !less(b, c) ==> !less(a, c))
  }

  ghost predicate SortedBy<T>(s: seq<T>, less: (T, T) -> bool) {
    forall i, j | 0 <= i < j < |s| :: !less(s[j], s[i])
  }

  lemma SortedPutsLessFirst<T(!new)>(s: seq<T>, less: (T, T) -> bool, i: nat, j: nat)
    requires StrictWeakOrder(less) && SortedBy(s, less) && i < |s| && j < |s| && less(s[i], s[j])
    ensures i < j
  {
    assert !less(s[i], s[i]);
  }

  /** Places x after every element it is not less than. */
  function Insert<T>(x: T, s: seq<T>, less: (T, T) -> bool): (r: seq<T>)
    ensures multiset(r) == multiset(s) + multiset{x}
  {
    if s == [] then [x]
    else
      var last := s[|s| - 1];
      assert s == s[..|s| - 1] + [last];
      if less(x, last) then Insert(x, s[..|s| - 1], less) + [last] else s + [x]
  }

  function StableSort<T>(s: seq<T>, less: (T, T) -> bool): (r: seq<T>)
    ensures multiset(r) == multiset(s)
  {
    if s == [] then []
    else
      assert s == s[..|s| - 1] + [s[|s| - 1]];
      Insert(s[|s| - 1], StableSort(s[..|s| - 1], less), less)
  }

  lemma {:induction false} InsertIsSorted<T(!new)>(x: T, s: seq<T>, less: (T, T) -> bool)
    requires StrictWeakOrder(less) && SortedBy(s, less)
    ensures SortedBy(Insert(x, s, less), less)
  {
    if s != [] && less(x, s[|s| - 1]) {
      var front := s[..|s| - 1];
      InsertIsSorted(x, front, less);
      var r := Insert(x, front, less);
      forall i | 0 <= i < |r|
        ensures !less(s[|s| - 1], r[i])
      {
        assert r[i] in multiset(front) + multiset{x};
      }
    }
  }

  lemma {:induction false} StableSortIsSorted<T(!new)>(s: seq<T>, less: (T, T) -> bool)
    requires StrictWeakOrder(less)
    ensures SortedBy(StableSort(s, less), less)
  {
    if s != [] {
      StableSortIsSorted(s[..|s| - 1], less);
      InsertIsSorted(s[|s| - 1], StableSort(s[..|s| - 1], less), less);
    }
  }

  lemma SortKeepsLength<T>(s: seq<T>, less: (T, T) -> bool)
    ensures |StableSort(s, less)| == |s|
  {
    assert |multiset(StableSort(s, less))| == |multiset(s)|;
  }

  lemma SortKeepsMembers<T>(s: seq<T>, less: (T, T) -> bool, x: T)
    ensures x in StableSort(s, less) <==> x in s
  {
    assert x in multiset(StableSort(s, less)) <==> x in multiset(s);
  }

  /** The first element of a sorted sequence comes from it, and nothing in it goes before. */
  lemma SortHeadIsFirst<T(!new)>(s: seq<T>, less: (T, T) -> bool)
    requires StrictWeakOrder(less) && s != []
    ensures StableSort(s, less) != []
    ensures StableSort(s, less)[0] in s
    ensures forall x | x in s :: !less(x, StableSort(s, less)[0])
  {
    var sorted := StableSort(s, less);
    StableSortIsSorted(s, less);
    SortKeepsMembers(s, less, s[0]);
    SortKeepsMembers(s, less, sorted[0]);
    forall x | x in s
      ensures !less(x, sorted[0])
    {
      SortKeepsMembers(s, less, x);
      var i :| 0 <= i < |sorted| && sorted[i] == x;
    }
  }

  lemma {:induction false} InsertHead<T(!new)>(x: T, s: seq<T>, less: (T, T) -> bool)
    requires StrictWeakOrder(less) && SortedBy(s, less) && s != []
    ensures Insert(x, s, less)[0] == if less(x, s[0]) then x else s[0]
  {
    var n := |s| - 1;
    if n > 0 && less(x, s[n]) {
      InsertHead(x, s[..n], less);
    } else if n > 0 {
      assert !less(s[n], s[0]);
    }
  }

  lemma BeatsAll<T(!new)>(x: T, best: T, s: seq<T>, less: (T, T) -> bool)
    requires StrictWeakOrder(less) && less(x, best) && forall y | y in s :: !less(y, best)
    ensures forall i | 0 <= i < |s| :: less(x, s[i])
  {
    forall i | 0 <= i < |s|
      ensures less(x, s[i])
    {
      var y := s[i];
      assert y in s && (!less(x, y) && !less(y, best) ==> !less(x, best));
    }
  }

  lemma NewHead<T(!new)>(front: seq<T>, x: T, less: (T, T) -> bool)
    requires StrictWeakOrder(less) && front != []
    ensures StableSort(front, less) != [] && StableSort(front + [x], less) != []
    ensures StableSort(front + [x], less)[0]
            == if less(x, StableSort(front, less)[0]) then x else StableSort(front, less)[0]
  {
    assert (front + [x])[..|front|] == front;
    StableSortIsSorted(front, less);
    SortKeepsMembers(front, less, front[0]);
    InsertHead(x, StableSort(front, less), less);
  }

  ghost predicate IsEarliest<T>(s: seq<T>, k: nat, less: (T, T) -> bool) {
    k < |s| && forall i | 0 <= i < k :: less(s[k], s[i])
  }

  lemma NewEarliest<T(!new)>(front: seq<T>, x: T, k: nat, less: (T, T) -> bool)
    requires StrictWeakOrder(less) && IsEarliest(front, k, less) && StableSort(front, less) != []
             && front[k] == StableSort(front, less)[0]
    ensures IsEarliest(front + [x], if less(x, front[k]) then |front| else k, less)
  {
    if less(x, front[k]) {
      SortHeadIsFirst(front, less);
      BeatsAll(x, front[k], front, less);
    }
  }

  ghost predicate IsEarliestHead<T>(s: seq<T>, k: nat, less: (T, T) -> bool) {
    IsEarliest(s, k, less) && StableSort(s, less) != [] && s[k] == StableSort(s, less)[0]
  }

  lemma NextEarliestHead<T(!new)>(front: seq<T>, x: T, k: nat, less: (T, T) -> bool)
    requires StrictWeakOrder(less) && front != [] && IsEarliestHead(front, k, less)
    ensures IsEarliestHead(front + [x], if less(x, front[k]) then |front| else k, less)
  {
    NewHead(front, x, less);
    NewEarliest(front, x, k, less);
  }

  /** Of equally placed elements the sort puts the earliest first. */
  lemma {:induction false} SortHeadIsEarliest<T(!new)>(s: seq<T>, less: (T, T) -> bool) returns (k: nat)
    requires StrictWeakOrder(less) && s != []
    ensures IsEarliestHead(s, k, less)
  {
    if |s| == 1 {
      k := 0;
    } else {
      var front, x := s[..|s| - 1], s[|s| - 1];
      assert s == front + [x];
      k := SortHeadIsEarliest(front, less);
      NextEarliestHead(front, x, k, less);
      k := if less(x, front[k]) then |front| else k;
    }
  }

  /** The head of a sorted selection, where it stands in the whole: nothing as good that was selected comes before
      it. */
  lemma FirstOfBest<T(!new)>(s: seq<T>, p: T -> bool, less: (T, T) -> bool) returns (k: nat)
    requires StrictWeakOrder(less) && Filter(s, p) != []
    ensures k < |s| && StableSort(Filter(s, p), less) != [] && s[k] == StableSort(Filter(s, p), less)[0]
    ensures forall i | 0 <= i < k && p(s[i]) :: less(s[k], s[i])
  {
    var j := SortHeadIsEarliest(Filter(s, p), less);
    k := FilterPosition(s, p, j);
  }

  /** A class of elements the comparator cannot tell apart. */
  ghost predicate TieClass<T(!new)>(q: T -> bool, less: (T, T) -> bool) {
    forall a, b :: q(a) && q(b) ==> !less(a, b)
  }

  lemma {:induction false} InsertIsStable<T(!new)>(x: T, s: seq<T>, less: (T, T) -> bool, q: T -> bool)
    requires StrictWeakOrder(less) && SortedBy(s, less) && TieClass(q, less)
    ensures Filter(Insert(x, s, less), q) == Filter(s + [x], q)
  {
    assert (s + [x])[..|s|] == s;
    if s != [] && less(x, s[|s| - 1]) {
      var front, last := s[..|s| - 1], s[|s| - 1];
      InsertIsStable(x, front, less, q);
      var r := Insert(x, front, less);
      assert (r + [last])[..|r|] == r;
      assert (front + [x])[..|front|] == front;
      assert !(q(x) && q(last));
    }
  }

  /** Elements the comparator cannot tell apart keep their order. */
  lemma {:induction false} StableSortIsStable<T(!new)>(s: seq<T>, less: (T, T) -> bool, q: T -> bool)
    requires StrictWeakOrder(less) && TieClass(q, less)
    ensures Filter(StableSort(s, less), q) == Filter(s, q)
  {
    if s != [] {
      var front, last := s[..|s| - 1], s[|s| - 1];
      StableSortIsStable(front, less, q);
      StableSortIsSorted(front, less);
      var sorted := StableSort(front, less);
      InsertIsStable(last, sorted, less, q);
      assert (sorted + [last])[..|sorted|] == sorted;
    }
  }

  // ----- grouping through an insertion-ordered Map -----

  /** The distinct keys in order of first appearance. */
  function KeysInOrder<T, K(==)>(s: seq<T>, key: T -> K): (ks: seq<K>)
    ensures Distinct(ks)
    ensures forall x | x in s :: key(x) in ks
  {
    if s == [] then []
    else
      var last := s[|s| - 1];
      assert s == s[..|s| - 1] + [last];
      var ks := KeysInOrder(s[..|s| - 1], key);
      if key(last) in ks then ks else ks + [key(last)]
  }

  lemma {:induction false} KeyHasElement<T, K>(s: seq<T>, key: T -> K, k: K) returns (x: T)
    requires k in KeysInOrder(s, key)
    ensures x in s && key(x) == k
  {
    var front, last := s[..|s| - 1], s[|s| - 1];
    if key(last) == k {
      x := last;
    } else {
      x := KeyHasElement(front, key, k);
    }
  }

  /** Some element with the first key stands before every element with the second. */
  ghost predicate AppearsFirst<T, K>(s: seq<T>, key: T -> K, first: K, second: K) {
    exists p :: 0 <= p < |s| && key(s[p]) == first && forall q | 0 <= q <= p :: key(s[q]) != second
  }

  lemma AppearsFirstStill<T, K>(s: seq<T>, x: T, key: T -> K, first: K, second: K)
    requires AppearsFirst(s, key, first, second)
    ensures AppearsFirst(s + [x], key, first, second)
  {
    var p :| 0 <= p < |s| && key(s[p]) == first && forall q | 0 <= q <= p :: key(s[q]) != second;
    assert key((s + [x])[p]) == first;
  }

  /** Keys come in the order in which they first appear. */
  lemma {:induction false} KeysFollowAppearance<T, K>(s: seq<T>, key: T -> K, i: nat, j: nat)
    requires i < j < |KeysInOrder(s, key)|
    ensures AppearsFirst(s, key, KeysInOrder(s, key)[i], KeysInOrder(s, key)[j])
  {
    var front, last := s[..|s| - 1], s[|s| - 1];
    assert s == front + [last];
    var ks, first, second := KeysInOrder(front, key), KeysInOrder(s, key)[i], KeysInOrder(s, key)[j];
    if j < |ks| {
      KeysFollowAppearance(front, key, i, j);
    } else {
      var x := KeyHasElement(front, key, first);
      var p :| 0 <= p < |front| && front[p] == x;
      assert forall q | 0 <= q <= p :: front[q] in front;
      assert key(front[p]) == first;
    }
    AppearsFirstStill(front, last, key, first, second);
  }

  /** A Set of keys has one element exactly when there are elements and all have that key. */
  lemma OneKeyMeansAllAlike<T, K>(s: seq<T>, key: T -> K)
    ensures |KeysInOrder(s, key)| == 1 <==> s != [] && forall x | x in s :: key(x) == key(s[0])
    ensures |KeysInOrder(s, key)| == 1 ==> forall x | x in s :: KeysInOrder(s, key)[0] == key(x)
  {
    var ks := KeysInOrder(s, key);
    if s != [] {
      assert s[0] in s && key(s[0]) in ks;
    }
    if |ks| >= 1 {
      var x := KeyHasElement(s, key, ks[0]);
      if |ks| >= 2 {
        var y := KeyHasElement(s, key, ks[1]);
        assert key(x) != key(y);
      }
    }
  }

  function GroupOf<T, K(==)>(s: seq<T>, key: T -> K, k: K): seq<T> {
    Filter(s, x => key(x) == k)
  }

  lemma {:induction false} GroupIsFront<T, K>(x: seq<T>, y: seq<T>, key: T -> K, k: K)
    requires (forall e | e in x :: key(e) == k) && forall e | e in y :: key(e) != k
    ensures GroupOf(x + y, key, k) == x
  {
    if y == [] {
      assert x + y == x;
      FilterEverything(x, e => key(e) == k);
    } else {
      var front, z := y[..|y| - 1], y[|y| - 1];
      GroupIsFront(x, front, key, k);
      assert x + y == (x + front) + [z];
      GroupOfAppend(x + front, z, key, k);
    }
  }

  lemma {:induction false} GroupIsBack<T, K>(x: seq<T>, y: seq<T>, key: T -> K, k: K)
    requires (forall e | e in x :: key(e) != k) && forall e | e in y :: key(e) == k
    ensures GroupOf(x + y, key, k) == y
  {
    if y == [] {
      assert x + y == x;
      FilterNothing(x, e => key(e) == k);
    } else {
      var front, z := y[..|y| - 1], y[|y| - 1];
      GroupIsBack(x, front, key, k);
      assert x + y == (x + front) + [z];
      GroupOfAppend(x + front, z, key, k);
    }
  }

  function Groups<T, K(==)>(s: seq<T>, key: T -> K): seq<seq<T>> {
    Transform(KeysInOrder(s, key), k => GroupOf(s, key, k))
  }

  lemma GroupOfAppend<T, K>(s: seq<T>, x: T, key: T -> K, k: K)
    ensures GroupOf(s + [x], key, k) == if key(x) == k then GroupOf(s, key, k) + [x] else GroupOf(s, key, k)
  {
    assert (s + [x])[..|s|] == s;
  }

  lemma GroupOfMissing<T, K>(s: seq<T>, key: T -> K, k: K)
    requires forall i | 0 <= i < |s| :: key(s[i]) != k
    ensures GroupOf(s, key, k) == []
  {
    FilterNothing(s, x => key(x) == k);
  }

  /** A group keeps its elements in their order. */
  lemma {:induction false} GroupKeepsOrder<T, K>(s: seq<T>, key: T -> K, k: K, a: T, b: T)
    requires key(a) == k && key(b) == k
    ensures Before(GroupOf(s, key, k), a, b) <==> Before(s, a, b)
  {
    if s != [] {
      var front, x := s[..|s| - 1], s[|s| - 1];
      assert s == front + [x];
      GroupKeepsOrder(front, key, k, a, b);
      GroupOfAppend(front, x, key, k);
      BeforeAppend(front, x, a, b);
      BeforeAppend(GroupOf(front, key, k), x, a, b);
    }
  }

  /** The loop of the source: append to the key's group, or open a new one at the end of the Map. */
  method GroupInOrder<T, K(==)>(s: seq<T>, key: T -> K) returns (groups: seq<seq<T>>)
    ensures groups == Groups(s, key)
  {
    var order: seq<K> := [];
    var table: map<K, seq<T>> := map[];
    for i := 0 to |s|
      invariant order == KeysInOrder(s[..i], key)
      invariant forall k :: k in table <==> k in order
      invariant forall k | k in table :: table[k] == GroupOf(s[..i], key, k)
    {
      var x := s[i];
      var k := key(x);
      assert s[..i + 1] == s[..i] + [x] && s[..i + 1][..i] == s[..i];
      forall k'
        ensures GroupOf(s[..i + 1], key, k')
                == if k == k' then GroupOf(s[..i], key, k') + [x] else GroupOf(s[..i], key, k')
      {
        GroupOfAppend(s[..i], x, key, k');
      }
      if k in table {
        table := table[k := table[k] + [x]];
      } else {
        GroupOfMissing(s[..i], key, k);
        order := order + [k];
        table := table[k := [x]];
      }
    }
    assert s[..|s|] == s;
    groups := seq(|order|, i requires 0 <= i < |order| => if order[i] in table then table[order[i]] else []);
  }

  /** Every group is non-empty, holds exactly the elements of its key, in their order. */
  lemma GroupsAreFaithful<T, K>(s: seq<T>, key: T -> K, i: nat)
    requires i < |Groups(s, key)|
    ensures Groups(s, key)[i] == GroupOf(s, key, KeysInOrder(s, key)[i])
    ensures Groups(s, key)[i] != []
    ensures forall x | x in Groups(s, key)[i] :: x in s && key(x) == KeysInOrder(s, key)[i]
  {
    var k := KeysInOrder(s, key)[i];
    var x := KeyHasElement(s, key, k);
    assert x in GroupOf(s, key, k);
  }

  lemma FlattenUpdate<T>(gs: seq<seq<T>>, i: nat, x: T)
    requires i < |gs|
    ensures multiset(Flatten(gs[i := gs[i] + [x]])) == multiset(Flatten(gs)) + multiset{x}
  {
    var hs := gs[i := gs[i] + [x]];
    assert gs == gs[..i] + [gs[i]] + gs[i + 1..];
    assert hs == gs[..i] + [gs[i] + [x]] + gs[i + 1..];
    FlattenConcat(gs[..i] + [gs[i]], gs[i + 1..]);
    FlattenConcat(gs[..i], [gs[i]]);
    FlattenConcat(gs[..i] + [gs[i] + [x]], gs[i + 1..]);
    FlattenConcat(gs[..i], [gs[i] + [x]]);
    assert Flatten([gs[i]]) == gs[i] && Flatten([gs[i] + [x]]) == gs[i] + [x];
  }

  lemma AppendToKnownGroup<T, K>(s: seq<T>, x: T, key: T -> K, i: nat)
    requires i < |KeysInOrder(s, key)| && KeysInOrder(s, key)[i] == key(x)
    ensures Groups(s + [x], key) == Groups(s, key)[i := Groups(s, key)[i] + [x]]
  {
    var ks, gs, after := KeysInOrder(s, key), Groups(s, key), Groups(s + [x], key);
    assert (s + [x])[..|s|] == s;
    forall j | 0 <= j < |ks|
      ensures after[j] == if j == i then gs[j] + [x] else gs[j]
    {
      GroupOfAppend(s, x, key, ks[j]);
    }
  }

  lemma AppendNewGroup<T, K>(s: seq<T>, x: T, key: T -> K)
    requires key(x) !in KeysInOrder(s, key)
    ensures Groups(s + [x], key) == Groups(s, key) + [[x]]
  {
    var ks, gs, after := KeysInOrder(s, key), Groups(s, key), Groups(s + [x], key);
    assert (s + [x])[..|s|] == s;
    forall j | 0 <= j < |ks|
      ensures after[j] == gs[j]
    {
      GroupOfAppend(s, x, key, ks[j]);
    }
    GroupOfMissing(s, key, key(x));
    GroupOfAppend(s, x, key, key(x));
    assert after[|ks|] == [x];
  }

  /** How one more element changes the groups: the group at i grows, or (i = -1) a new one opens at the end. */
  lemma AppendToGroups<T, K>(s: seq<T>, x: T, key: T -> K) returns (i: int)
    ensures -1 <= i < |Groups(s, key)|
    ensures Groups(s + [x], key) == Grown(Groups(s, key), i, x)
  {
    var ks := KeysInOrder(s, key);
    if key(x) in ks {
      i :| 0 <= i < |ks| && ks[i] == key(x);
      AppendToKnownGroup(s, x, key, i);
    } else {
      i := -1;
      AppendNewGroup(s, x, key);
    }
  }

  function Grown<T>(gs: seq<seq<T>>, i: int, x: T): seq<seq<T>>
    requires -1 <= i < |gs|
  {
    if i < 0 then gs + [[x]] else gs[i := gs[i] + [x]]
  }

  lemma GrownContents<T>(gs: seq<seq<T>>, i: int, x: T)
    requires -1 <= i < |gs|
    ensures multiset(Flatten(Grown(gs, i, x))) == multiset(Flatten(gs)) + multiset{x}
  {
    if i < 0 {
      FlattenConcat(gs, [[x]]);
      assert Flatten([[x]]) == [x];
    } else {
      FlattenUpdate(gs, i, x);
    }
  }

  /** Grouping loses nothing and duplicates nothing. */
  lemma {:induction false} GroupsPartition<T, K>(s: seq<T>, key: T -> K)
    ensures multiset(Flatten(Groups(s, key))) == multiset(s)
  {
    if s != [] {
      var front, x := s[..|s| - 1], s[|s| - 1];
      assert s == front + [x];
      GroupsPartition(front, key);
      var i := AppendToGroups(front, x, key);
      GrownContents(Groups(front, key), i, x);
    }
  }

  function SumOfGroup<T>(f: T -> int): seq<T> -> int {
    g => SumBy(g, f)
  }

  lemma GrownSum<T>(gs: seq<seq<T>>, i: int, x: T, f: T -> int)
    requires -1 <= i < |gs|
    ensures SumBy(Grown(gs, i, x), SumOfGroup(f)) == SumBy(gs, SumOfGroup(f)) + f(x)
  {
    if i < 0 {
      SumByAppend(gs, [x], SumOfGroup(f));
      SumByAppend([], x, f);
    } else {
      SumByUpdate(gs, i, gs[i] + [x], SumOfGroup(f));
      SumByAppend(gs[i], x, f);
    }
  }

  /** The groups add up to the whole. */
  lemma {:induction false} GroupsKeepSum<T, K>(s: seq<T>, key: T -> K, f: T -> int)
    ensures SumBy(Groups(s, key), SumOfGroup(f)) == SumBy(s, f)
  {
    if s != [] {
      var front, x := s[..|s| - 1], s[|s| - 1];
      assert s == front + [x];
      GroupsKeepSum(front, key, f);
      var i := AppendToGroups(front, x, key);
      GrownSum(Groups(front, key), i, x, f);
    }
  }
}
