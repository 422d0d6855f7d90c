/**
 * Sorting by a total preorder. `Sorted` is the stable order; the method `Sort` promises only a
 * sorted permutation, which is all that a caller of an unstable sort may rely on.
 */
module Sorting {
  ghost predicate TotalPreorder<T(!new)>(leq: (T, T) -> bool) {
    && (forall a, b :: leq(a, b) || leq(b, a))
    && (forall a, b, c :: leq(a, b) && leq(b, c) ==> leq(a, c))
  }

  ghost predicate SortedBy<T>(s: seq<T>, leq: (T, T) -> bool) {
    forall i, j | 0 <= i < j < |s| :: leq(s[i], s[j])
  }

  /** Inserts `x` after every element that may precede it. */
  function Insert<T>(x: T, s: seq<T>, leq: (T, T) -> bool): seq<T> {
    if s == [] then [x]
    else if leq(s[|s| - 1], x) then s + [x]
    else Insert(x, s[..|s| - 1], leq) + [s[|s| - 1]]
  }

  /** `s` in ascending order, elements that tie in the order they had. */
  function Sorted<T>(s: seq<T>, leq: (T, T) -> bool): seq<T> {
    if s == [] then [] else Insert(s[|s| - 1], Sorted(s[..|s| - 1], leq), leq)
  }

  lemma {:induction false} InsertPermutes<T>(x: T, s: seq<T>, leq: (T, T) -> bool)
    ensures multiset(Insert(x, s, leq)) == multiset(s) + multiset{x}
  {
    hide Insert;
    InsertStep(x, s, leq);
    if s != [] {
      InsertPermutes(x, s[..|s| - 1], leq);
      assert s == s[..|s| - 1] + [s[|s| - 1]];
    }
  }

  lemma InsertStep<T>(x: T, s: seq<T>, leq: (T, T) -> bool)
    ensures Insert(x, s, leq) ==
      if s == [] || leq(s[|s| - 1], x) then s + [x] else Insert(x, s[..|s| - 1], leq) + [s[|s| - 1]]
  {
  }

  lemma {:induction false} InsertMember<T>(x: T, s: seq<T>, leq: (T, T) -> bool, y: T)
    requires y in Insert(x, s, leq)
    ensures y == x || y in s
  {
    InsertPermutes(x, s, leq);
    assert y in multiset(Insert(x, s, leq));
  }

  lemma {:induction false} InsertSorts<T(!new)>(x: T, s: seq<T>, leq: (T, T) -> bool)
    requires TotalPreorder(leq) && SortedBy(s, leq)
    ensures SortedBy(Insert(x, s, leq), leq)
  {
    if s != [] && !leq(s[|s| - 1], x) {
      var init, last := s[..|s| - 1], s[|s| - 1];
      InsertSorts(x, init, leq);
      forall y | y in Insert(x, init, leq)
        ensures leq(y, last)
      {
        InsertMember(x, init, leq, y);
      }
    }
  }

  lemma {:induction false} SortedIsSorted<T(!new)>(s: seq<T>, leq: (T, T) -> bool)
    requires TotalPreorder(leq)
    ensures SortedBy(Sorted(s, leq), leq)
    ensures multiset(Sorted(s, leq)) == multiset(s)
  {
    if s != [] {
      var init, last := s[..|s| - 1], s[|s| - 1];
      assert s == init + [last];
      SortedIsSorted(init, leq);
      InsertSorts(last, Sorted(init, leq), leq);
      InsertPermutes(last, Sorted(init, leq), leq);
    }
  }

  lemma {:induction false} SortedFixpoint<T(!new)>(s: seq<T>, leq: (T, T) -> bool)
    requires TotalPreorder(leq) && SortedBy(s, leq)
    ensures Sorted(s, leq) == s
  {
    if s != [] {
      var init, last := s[..|s| - 1], s[|s| - 1];
      SortedFixpoint(init, leq);
      if init != [] {
        assert leq(s[|s| - 2], s[|s| - 1]);
      }
    }
  }

  /** The elements of `s` that tie with `x`, in order. */
  function Ties<T>(s: seq<T>, x: T, leq: (T, T) -> bool): seq<T> {
    if s == [] then []
    else
      Ties(s[..|s| - 1], x, leq) +
      if leq(s[|s| - 1], x) && leq(x, s[|s| - 1]) then [s[|s| - 1]] else []
  }

  lemma {:induction false} InsertStable<T(!new)>(y: T, s: seq<T>, x: T, leq: (T, T) -> bool)
    requires TotalPreorder(leq) && SortedBy(s, leq)
    ensures Ties(Insert(y, s, leq), x, leq) == Ties(s + [y], x, leq)
  {
    assert (s + [y])[..|s|] == s;
    if s != [] && !leq(s[|s| - 1], y) {
      var init, last := s[..|s| - 1], s[|s| - 1];
      InsertStable(y, init, x, leq);
      assert (init + [y])[..|init|] == init;
      var r := Insert(y, init, leq);
      assert (r + [last])[..|r|] == r;
      assert !(leq(last, x) && leq(x, y));
    }
  }

  /** `Sorted` keeps tied elements in their original order. */
  lemma {:induction false} SortedIsStable<T(!new)>(s: seq<T>, x: T, leq: (T, T) -> bool)
    requires TotalPreorder(leq)
    ensures Ties(Sorted(s, leq), x, leq) == Ties(s, x, leq)
  {
    if s != [] {
      var init, last := s[..|s| - 1], s[|s| - 1];
      SortedIsSorted(init, leq);
      SortedIsStable(init, x, leq);
      InsertStable(last, Sorted(init, leq), x, leq);
      var r := Sorted(init, leq);
      assert (r + [last])[..|r|] == r;
    }
  }

  /** A sorted permutation; nothing is promised about the order of ties. */
  method Sort<T(!new)>(s: seq<T>, leq: (T, T) -> bool) returns (r: seq<T>)
    requires TotalPreorder(leq)
    ensures SortedBy(r, leq)
    ensures multiset(r) == multiset(s)
  {
    SortedIsSorted(s, leq);
    r := Sorted(s, leq);
  }

  lemma SameElements<T>(a: seq<T>, b: seq<T>)
    requires multiset(a) == multiset(b)
    ensures |a| == |b|
    ensures forall x :: x in a <==> x in b
  {
    assert |a| == |multiset(a)| && |b| == |multiset(b)|;
    forall x
      ensures x in a <==> x in b
    {
      assert x in a <==> x in multiset(a);
      assert x in b <==> x in multiset(b);
    }
  }

  /** `b` without the element at `j`. */
  function Without<T>(b: seq<T>, j: nat): seq<T>
    requires j < |b|
  {
    b[..j] + b[j + 1..]
  }

  lemma WithoutMultiset<T>(b: seq<T>, j: nat)
    requires j < |b|
    ensures multiset(Without(b, j)) == multiset(b) - multiset{b[j]}
  {
    assert b == b[..j] + [b[j]] + b[j + 1..];
  }

  lemma DropLast<T>(a: seq<T>, b: seq<T>)
    requires a != [] && b != [] && a[|a| - 1] == b[|b| - 1]
    requires multiset(a) == multiset(b)
    ensures multiset(a[..|a| - 1]) == multiset(b[..|b| - 1])
  {
    InitMultiset(a);
    InitMultiset(b);
  }

  lemma InitMultiset<T>(a: seq<T>)
    requires a != []
    ensures multiset(a[..|a| - 1]) == multiset(a) - multiset{a[|a| - 1]}
  {
    assert a == a[..|a| - 1] + [a[|a| - 1]];
  }

  /** The last element of `a`, found in a permutation of it. */
  lemma FindLast<T>(a: seq<T>, b: seq<T>) returns (j: nat)
    requires a != [] && multiset(a) == multiset(b)
    ensures j < |b| && b[j] == a[|a| - 1]
    ensures multiset(a[..|a| - 1]) == multiset(Without(b, j))
  {
    assert a == a[..|a| - 1] + [a[|a| - 1]];
    assert a[|a| - 1] in multiset(a);
    j :| 0 <= j < |b| && b[j] == a[|a| - 1];
    WithoutMultiset(b, j);
  }

  /** The elements that satisfy `p`, in order. */
  function Filter<T>(s: seq<T>, p: T -> bool): seq<T> {
    if s == [] then []
    else Filter(s[..|s| - 1], p) + if p(s[|s| - 1]) then [s[|s| - 1]] else []
  }

  lemma {:induction false} FilterCounts<T>(s: seq<T>, p: T -> bool, x: T)
    ensures multiset(Filter(s, p))[x] == if p(x) then multiset(s)[x] else 0
  {
    if s != [] {
      FilterCounts(s[..|s| - 1], p, x);
      assert s == s[..|s| - 1] + [s[|s| - 1]];
    }
  }

  lemma FilterMember<T>(s: seq<T>, p: T -> bool, x: T)
    ensures x in Filter(s, p) <==> p(x) && x in s
  {
    FilterCounts(s, p, x);
    assert x in Filter(s, p) <==> x in multiset(Filter(s, p));
    assert x in s <==> x in multiset(s);
  }

  lemma FilterOfPermutation<T(!new)>(a: seq<T>, b: seq<T>, p: T -> bool)
    requires multiset(a) == multiset(b)
    ensures multiset(Filter(a, p)) == multiset(Filter(b, p))
  {
    forall x
      ensures multiset(Filter(a, p))[x] == multiset(Filter(b, p))[x]
    {
      FilterCounts(a, p, x);
      FilterCounts(b, p, x);
    }
  }

  /** A strictly ascending list is the only sorted permutation of itself. */
  lemma {:induction false} StrictOrderIsUnique<T(!new)>(a: seq<T>, b: seq<T>, leq: (T, T) -> bool)
    requires multiset(a) == multiset(b)
    requires SortedBy(b, leq)
    requires forall i, j | 0 <= i < j < |a| :: !leq(a[j], a[i])
    ensures a == b
  {
    SameElements(a, b);
    if a != [] {
      var n := |a| - 1;
      SameLast(a, b, leq);
      DropLast(a, b);
      SortedInit(b, leq);
      hide SortedBy;
      StrictOrderIsUnique(a[..n], b[..n], leq);
      assert a == a[..n] + [a[n]] && b == b[..n] + [b[n]];
    }
  }

  lemma SortedInit<T>(b: seq<T>, leq: (T, T) -> bool)
    requires b != [] && SortedBy(b, leq)
    ensures SortedBy(b[..|b| - 1], leq)
  {
  }

  /** The greatest element of a strictly ascending list is last in every sorted permutation. */
  lemma SameLast<T>(a: seq<T>, b: seq<T>, leq: (T, T) -> bool)
    requires a != [] && |a| == |b| && (forall x :: x in a <==> x in b) && SortedBy(b, leq)
    requires forall i, j | 0 <= i < j < |a| :: !leq(a[j], a[i])
    ensures a[|a| - 1] == b[|b| - 1]
  {
    var n := |a| - 1;
    assert b[n] in a && a[n] in b;
    var i :| 0 <= i <= n && a[i] == b[n];
    var j :| 0 <= j <= n && b[j] == a[n];
    assert i == n || !leq(b[j], b[n]);
  }

  /** Two positions of a value that occurs twice. */
  lemma {:induction false} TwoPositions<T>(a: seq<T>, x: T) returns (i: nat, j: nat)
    requires multiset(a)[x] >= 2
    ensures i < j < |a| && a[i] == a[j] == x
  {
    assert a == a[..|a| - 1] + [a[|a| - 1]];
    if a[|a| - 1] == x {
      j := |a| - 1;
      assert x in multiset(a[..j]);
      i :| 0 <= i < j && a[i] == x;
    } else {
      i, j := TwoPositions(a[..|a| - 1], x);
    }
  }

  lemma TwoPositionsCount<T>(b: seq<T>, i: nat, j: nat)
    requires i < j < |b| && b[i] == b[j]
    ensures multiset(b)[b[i]] >= 2
  {
    WithoutMultiset(b, i);
    assert Without(b, i)[j - 1] == b[j];
    assert b[j] in multiset(Without(b, i));
  }

  ghost predicate Pairwise<T>(a: seq<T>, related: (T, T) -> bool) {
    forall i, j | 0 <= i < j < |a| :: related(a[i], a[j])
  }

  /** A symmetric relation between all pairs does not depend on the order. */
  lemma PairwiseOfPermutation<T(!new)>(a: seq<T>, b: seq<T>, related: (T, T) -> bool)
    requires multiset(a) == multiset(b)
    requires forall x, y :: related(x, y) ==> related(y, x)
    requires Pairwise(a, related)
    ensures Pairwise(b, related)
  {
    SameElements(a, b);
    forall i, j | 0 <= i < j < |b|
      ensures related(b[i], b[j])
    {
      assert b[i] in a && b[j] in a;
      if b[i] == b[j] {
        TwoPositionsCount(b, i, j);
        var k, m := TwoPositions(a, b[i]);
        assert related(a[k], a[m]);
      } else {
        var k :| 0 <= k < |a| && a[k] == b[i];
        var m :| 0 <= m < |a| && a[m] == b[j];
        assert k < m ==> related(a[k], a[m]);
        assert m < k ==> related(a[m], a[k]);
      }
    }
  }
}
