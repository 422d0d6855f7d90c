/**
 * Lists of over-capacity intervals and what they say about each site and instant. A canonical
 * list is determined by what it says.
 */
module Overages {
  import opened Common
  import opened HallCheck

  datatype Overage = Overage(site: string, startAt: int, endAt: int, shortfall: int, jammedTypes: seq<string>)

  predicate Holds(o: Overage, site: string, t: int) {
    o.site == site && o.startAt <= t < o.endAt
  }

  predicate SameVerdict(a: Overage, b: Overage) {
    a.shortfall == b.shortfall && a.jammedTypes == b.jammedTypes
  }

  predicate Matches(o: Overage, v: Verdict) {
    o.shortfall == v.shortfall && o.jammedTypes == TypeNames(v.mask)
  }

  /** `a` lies entirely before `b`. */
  predicate Precedes(a: Overage, b: Overage) {
    Less(a.site, b.site) || (a.site == b.site && a.endAt <= b.startAt)
  }

  predicate Touching(a: Overage, b: Overage) {
    a.site == b.site && a.endAt == b.startAt
  }

  /**
   * Non-empty intervals with a positive shortfall, ordered by site and time without overlap;
   * intervals that touch differ in verdict.
   */
  ghost predicate Canonical(list: seq<Overage>) {
    && (forall o <- list :: o.startAt < o.endAt && o.shortfall >= 1)
    && (forall i, j | 0 <= i < j < |list| :: Precedes(list[i], list[j]))
    && (forall i, j | 0 <= i && j == i + 1 < |list| && Touching(list[i], list[j]) :: !SameVerdict(list[i], list[j]))
  }

  /** The list says of `site` at `t` exactly that its verdict is `v`. */
  ghost predicate Reports(list: seq<Overage>, site: string, t: int, v: Verdict) {
    && (forall o <- list | Holds(o, site, t) :: v.shortfall > 0 && Matches(o, v))
    && (v.shortfall > 0 ==> exists o <- list :: Holds(o, site, t))
  }

  /** Wherever one list holds, the other does too, with the same verdict. */
  ghost predicate SaysAtLeast(a: seq<Overage>, b: seq<Overage>) {
    forall site, t, o | o in b && Holds(o, site, t) :: exists p <- a :: Holds(p, site, t) && SameVerdict(p, o)
  }

  /** `p` begins no later than any interval of a canonical list that says everything `p` does. */
  lemma FirstBegins(a: seq<Overage>, b: seq<Overage>)
    requires Canonical(a) && Canonical(b) && SaysAtLeast(b, a)
    requires a != []
    ensures b != []
    ensures Less(b[0].site, a[0].site) || (b[0].site == a[0].site && b[0].startAt <= a[0].startAt)
  {
    assert Holds(a[0], a[0].site, a[0].startAt);
    var p :| p in b && Holds(p, a[0].site, a[0].startAt) && SameVerdict(p, a[0]);
    var j :| 0 <= j < |b| && b[j] == p;
    if j > 0 {
      assert Precedes(b[0], b[j]);
      assert b[0] in b;
    }
  }

  /** An interval ends where the other list's matching interval ends, or later. */
  lemma FirstEnds(a: seq<Overage>, b: seq<Overage>)
    requires Canonical(a) && Canonical(b) && SaysAtLeast(b, a)
    requires a != [] && b != []
    requires a[0].site == b[0].site && a[0].startAt == b[0].startAt
    ensures SameVerdict(a[0], b[0])
    ensures a[0].endAt <= b[0].endAt
  {
    var site := a[0].site;
    NamesAreOrdered();
    assert a[0] in a && b[0] in b;
    assert Holds(a[0], site, a[0].startAt);
    var p :| p in b && Holds(p, site, a[0].startAt) && SameVerdict(p, a[0]);
    var j :| 0 <= j < |b| && b[j] == p;
    if j > 0 {
      assert false;
    }
    if b[0].endAt < a[0].endAt {
      var t := b[0].endAt;
      assert Holds(a[0], site, t);
      var q :| q in b && Holds(q, site, t) && SameVerdict(q, a[0]);
      var m :| 0 <= m < |b| && b[m] == q;
      assert m != 0;
      assert Precedes(b[0], b[m]);
      NextIsAdjacent(b, m);
    }
  }

  /** In a canonical list, an interval that holds where the first one ends is the second, with another verdict. */
  lemma NextIsAdjacent(b: seq<Overage>, m: nat)
    requires Canonical(b) && 0 < m < |b|
    requires Holds(b[m], b[0].site, b[0].endAt)
    ensures !SameVerdict(b[0], b[m])
  {
    NamesAreOrdered();
    assert Precedes(b[0], b[m]);
    assert b[1] in b;
    if m > 1 {
      assert false;
    }
  }

  lemma TailSays(a: seq<Overage>, b: seq<Overage>)
    requires Canonical(a) && Canonical(b) && SaysAtLeast(b, a)
    requires a != [] && b != [] && a[0] == b[0]
    ensures Canonical(a[1..])
    ensures SaysAtLeast(b[1..], a[1..])
  {
    NamesAreOrdered();
    forall site, t, o | o in a[1..] && Holds(o, site, t)
      ensures exists p <- b[1..] :: Holds(p, site, t) && SameVerdict(p, o)
    {
      var i :| 1 <= i < |a| && a[i] == o;
      assert Precedes(a[0], a[i]);
      var p :| p in b && Holds(p, site, t) && SameVerdict(p, o);
      assert p != b[0];
    }
    forall i, j | 0 <= i && j == i + 1 < |a[1..]| && Touching(a[1..][i], a[1..][j])
      ensures !SameVerdict(a[1..][i], a[1..][j])
    {
      assert Touching(a[i + 1], a[j + 1]);
    }
  }

  /** Canonical lists that say the same are the same list. */
  lemma {:induction false} CanonicalUnique(a: seq<Overage>, b: seq<Overage>)
    requires Canonical(a) && Canonical(b)
    requires SaysAtLeast(a, b) && SaysAtLeast(b, a)
    ensures a == b
  {
    if a == [] {
      if b != [] {
        FirstBegins(b, a);
      }
    } else {
      FirstBegins(a, b);
      FirstBegins(b, a);
      LessTotal(a[0].site, b[0].site);
      FirstEnds(a, b);
      FirstEnds(b, a);
      assert a[0] == b[0];
      TailSays(a, b);
      TailSays(b, a);
      CanonicalUnique(a[1..], b[1..]);
      assert a == [a[0]] + a[1..] && b == [b[0]] + b[1..];
    }
  }

  ghost predicate Agree(a: seq<Overage>, b: seq<Overage>, site: string, t: int) {
    exists v :: Reports(a, site, t, v) && Reports(b, site, t, v)
  }

  /** Two canonical lists that report the same verdict everywhere are equal. */
  lemma SameReportsSameList(a: seq<Overage>, b: seq<Overage>)
    requires Canonical(a) && Canonical(b)
    requires forall site, t :: Agree(a, b, site, t)
    ensures a == b
  {
    ReportsTransfer(a, b);
    assert forall site, t | Agree(a, b, site, t) :: Agree(b, a, site, t);
    ReportsTransfer(b, a);
    CanonicalUnique(a, b);
  }

  lemma ReportsTransfer(a: seq<Overage>, b: seq<Overage>)
    requires forall site, t :: Agree(a, b, site, t)
    ensures SaysAtLeast(a, b)
  {
    forall site, t, o | o in b && Holds(o, site, t)
      ensures exists p <- a :: Holds(p, site, t) && SameVerdict(p, o)
    {
      assert Agree(a, b, site, t);
      var v :| Reports(a, site, t, v) && Reports(b, site, t, v);
      var p :| p in a && Holds(p, site, t);
      assert Matches(p, v) && Matches(o, v);
    }
  }
}
