/** What the capacity computation guarantees about its output, and what the output depends on. */
module CapacityTheorems {
  import opened Common
  import opened Hall
  import opened HallCheck
  import opened Sorting
  import opened Demands
  import opened Overages
  import opened Capacity

  // ----- meaning -----

  /** The tuners of a site that an assignment may use. */
  function Usable(tuners: seq<Tuner>, site: string): Tuners {
    CountableKinds(TunersAt(tuners, site))
  }

  /**
   * Inside a reported interval, the shortfall is the least number of live channels that any
   * assignment of distinct usable tuners leaves without one.
   */
  lemma OverageIsLeastUnserved(list: seq<Overage>, demands: seq<Demand>, tuners: seq<Tuner>, o: Overage, t: int)
    returns (best: map<Channel, nat>)
    requires IsResult(list, demands, tuners)
    requires o in list && Holds(o, o.site, t)
    ensures
      var live := LiveOn(demands, o.site, t);
      && IsAssignment(live, Usable(tuners, o.site), best)
      && |live - best.Keys| == o.shortfall
      && forall other | IsAssignment(live, Usable(tuners, o.site), other) :: o.shortfall <= |live - other.Keys|
  {
    var v := SiteVerdict(demands, tuners, o.site, t);
    assert Reports(list, o.site, t, v);
    assert Matches(o, v);
    best := ShortfallIsLeastUnserved(LiveOn(demands, o.site, t), TunersAt(tuners, o.site));
  }

  /** A judged site is silent at `t` exactly when every live channel can have a tuner of its own. */
  lemma SilentIffAllServed(list: seq<Overage>, demands: seq<Demand>, tuners: seq<Tuner>, site: string, t: int)
    requires IsResult(list, demands, tuners)
    requires TunersAt(tuners, site) != []
    ensures
      (forall o <- list :: !Holds(o, site, t)) <==>
      exists all: map<Channel, nat> ::
        IsAssignment(LiveOn(demands, site, t), Usable(tuners, site), all) && all.Keys == LiveOn(demands, site, t)
  {
    assert Reports(list, site, t, SiteVerdict(demands, tuners, site, t));
    NoShortfallIffAllServed(LiveOn(demands, site, t), TunersAt(tuners, site));
  }

  /** A site without tuner rows is never accused, whatever its demand. */
  lemma UnknownSiteIsSilent(list: seq<Overage>, demands: seq<Demand>, tuners: seq<Tuner>, o: Overage)
    requires IsResult(list, demands, tuners) && o in list
    ensures TunersAt(tuners, o.site) != []
  {
    assert Holds(o, o.site, o.startAt);
    assert Reports(list, o.site, o.startAt, SiteVerdict(demands, tuners, o.site, o.startAt));
  }

  // ----- dependence -----

  ghost predicate SameQuestion(d1: seq<Demand>, t1: seq<Tuner>, d2: seq<Demand>, t2: seq<Tuner>) {
    forall site, t :: SiteVerdict(d1, t1, site, t) == SiteVerdict(d2, t2, site, t)
  }

  /** The output is determined by the pointwise verdicts. */
  lemma ResultIsUnique(
    a: seq<Overage>, d1: seq<Demand>, t1: seq<Tuner>, b: seq<Overage>, d2: seq<Demand>, t2: seq<Tuner>)
    requires IsResult(a, d1, t1) && IsResult(b, d2, t2)
    requires SameQuestion(d1, t1, d2, t2)
    ensures a == b
  {
    forall site, t
      ensures Agree(a, b, site, t)
    {
      assert SiteVerdict(d1, t1, site, t) == SiteVerdict(d2, t2, site, t);
      assert Reports(a, site, t, SiteVerdict(d1, t1, site, t));
      assert Reports(b, site, t, SiteVerdict(d2, t2, site, t));
    }
    SameReportsSameList(a, b);
  }

  lemma SameLiveSameQuestion(d1: seq<Demand>, d2: seq<Demand>, tuners: seq<Tuner>)
    requires forall site, t :: LiveOn(d1, site, t) == LiveOn(d2, site, t)
    ensures SameQuestion(d1, tuners, d2, tuners)
  {
    forall site, t
      ensures SiteVerdict(d1, tuners, site, t) == SiteVerdict(d2, tuners, site, t)
    {
      assert LiveOn(d1, site, t) == LiveOn(d2, site, t);
    }
  }

  lemma {:induction false} OfferingCounts(tuners: seq<Tuner>, kinds: set<Kind>)
    ensures Offering(CountableKinds(tuners), kinds)
         == |Filter(tuners, (u: Tuner) => u.Countable() && KindsNamed(u.types) * kinds != {})|
  {
    if tuners != [] {
      var init, last := tuners[..|tuners| - 1], tuners[|tuners| - 1];
      OfferingCounts(init, kinds);
      if last.Countable() {
        OfferingOfOneMore(CountableKinds(init), KindsNamed(last.types), kinds);
      } else {
        assert CountableKinds(tuners) == CountableKinds(init);
      }
    }
  }

  lemma PermutedCapacity(t1: seq<Tuner>, t2: seq<Tuner>)
    requires multiset(t1) == multiset(t2)
    ensures CapacityTable(t1) == CapacityTable(t2)
  {
    forall a: nat | a < SUBSETS
      ensures CapacityTable(t1)[a] == CapacityTable(t2)[a]
    {
      var counted := (u: Tuner) => u.Countable() && KindsNamed(u.types) * KindsOf(a) != {};
      OfferingCounts(t1, KindsOf(a));
      OfferingCounts(t2, KindsOf(a));
      FilterOfPermutation(t1, t2, counted);
      SameElements(Filter(t1, counted), Filter(t2, counted));
    }
  }

  /** The order of demands and of tuner rows does not matter. */
  lemma OrderDoesNotMatter(
    a: seq<Overage>, d1: seq<Demand>, t1: seq<Tuner>, b: seq<Overage>, d2: seq<Demand>, t2: seq<Tuner>)
    requires IsResult(a, d1, t1) && IsResult(b, d2, t2)
    requires multiset(d1) == multiset(d2) && multiset(t1) == multiset(t2)
    ensures a == b
  {
    SameElements(d1, d2);
    forall site, t
      ensures SiteVerdict(d1, t1, site, t) == SiteVerdict(d2, t2, site, t)
    {
      assert LiveOn(d1, site, t) == LiveOn(d2, site, t);
      var here := (u: Tuner) => u.site == site;
      FilterOfPermutation(t1, t2, here);
      SameElements(Filter(t1, here), Filter(t2, here));
      PermutedCapacity(TunersAt(t1, site), TunersAt(t2, site));
    }
    ResultIsUnique(a, d1, t1, b, d2, t2);
  }

  /** A second reservation of the same channel and time adds nothing. */
  lemma DuplicateDoesNotMatter(
    a: seq<Overage>, demands: seq<Demand>, again: Demand, b: seq<Overage>, tuners: seq<Tuner>)
    requires IsResult(a, demands, tuners) && IsResult(b, demands + [again], tuners)
    requires again in demands
    ensures a == b
  {
    forall site, t
      ensures LiveOn(demands, site, t) == LiveOn(demands + [again], site, t)
    {
    }
    SameLiveSameQuestion(demands, demands + [again], tuners);
    ResultIsUnique(a, demands, tuners, b, demands + [again], tuners);
  }

  /** Programmes back to back on one channel are one demand. */
  lemma SplitDoesNotMatter(
    a: seq<Overage>, before: seq<Demand>, d: Demand, after: seq<Demand>, m: int, b: seq<Overage>, tuners: seq<Tuner>)
    requires d.startAt <= m <= d.endAt
    requires IsResult(a, before + [d] + after, tuners)
    requires IsResult(b, before + [d.(endAt := m), d.(startAt := m)] + after, tuners)
    ensures a == b
  {
    var whole, split := before + [d] + after, before + [d.(endAt := m), d.(startAt := m)] + after;
    forall site, t
      ensures LiveOn(whole, site, t) == LiveOn(split, site, t)
    {
      SplitLive(before, d, after, m, site, t);
    }
    SameLiveSameQuestion(whole, split, tuners);
    ResultIsUnique(a, whole, tuners, b, split, tuners);
  }

  lemma SplitLive(before: seq<Demand>, d: Demand, after: seq<Demand>, m: int, site: string, t: int)
    requires d.startAt <= m <= d.endAt
    ensures LiveOn(before + [d] + after, site, t)
         == LiveOn(before + [d.(endAt := m), d.(startAt := m)] + after, site, t)
  {
    var first, second := d.(endAt := m), d.(startAt := m);
    var whole, split := before + [d] + after, before + [first, second] + after;
    assert forall x :: x in whole <==> x in before || x == d || x in after;
    assert forall x :: x in split <==> x in before || x == first || x == second || x in after;
    forall c
      ensures c in LiveOn(whole, site, t) <==> c in LiveOn(split, site, t)
    {
      assert Uses(d, c, site, t) <==> Uses(first, c, site, t) || Uses(second, c, site, t);
      assert c in LiveOn(whole, site, t) <==> exists x :: x in whole && Uses(x, c, site, t);
      assert c in LiveOn(split, site, t) <==> exists x :: x in split && Uses(x, c, site, t);
    }
  }

  predicate Uses(d: Demand, c: Channel, site: string, t: int) {
    d.site == site && Occupies(d, t) && ChannelOf(d) == c
  }

  // ----- more demand is never better -----

  lemma {:induction false} DemandMonotone(d: seq<nat>, e: seq<nat>, mask: nat, n: nat)
    requires |d| == |e| == TYPE_COUNT && n <= TYPE_COUNT
    requires forall i | 0 <= i < TYPE_COUNT :: d[i] <= e[i]
    ensures DemandIn(d, mask, n) <= DemandIn(e, mask, n)
  {
    if n > 0 {
      DemandMonotone(d, e, mask, n - 1);
    }
  }

  /** Adding demands never shrinks a shortfall, at any site and instant. */
  lemma MoreDemandMoreShortfall(d1: seq<Demand>, d2: seq<Demand>, tuners: seq<Tuner>, site: string, t: int)
    requires forall d <- d1 :: d in d2
    ensures SiteVerdict(d1, tuners, site, t).shortfall <= SiteVerdict(d2, tuners, site, t).shortfall
  {
    if TunersAt(tuners, site) != [] {
      var few, many := LiveOn(d1, site, t), LiveOn(d2, site, t);
      var caps := CapacityTable(TunersAt(tuners, site));
      forall i: nat | i < TYPE_COUNT
        ensures Levels(few)[i] <= Levels(many)[i]
      {
        SubsetSize(OfKind(few, i), OfKind(many, i));
      }
      var v, w := Worst(Levels(few), caps), Worst(Levels(many), caps);
      if v.shortfall > 0 {
        DemandMonotone(Levels(few), Levels(many), v.mask, TYPE_COUNT);
        assert Excess(Levels(many), caps, v.mask) <= w.shortfall;
      }
    }
  }

  /** The range search keeps exactly the intervals that meet the half-open window, in order. */
  method Intersecting(overages: seq<Overage>, start: int, end: int) returns (out: seq<Overage>)
    ensures out == Filter(overages, (o: Overage) => o.startAt < end && o.endAt > start)
  {
    out := [];
    for k := 0 to |overages|
      invariant out == Filter(overages[..k], (o: Overage) => o.startAt < end && o.endAt > start)
    {
      assert overages[..k + 1][..k] == overages[..k];
      if overages[k].startAt < end && overages[k].endAt > start {
        out := out + [overages[k]];
      }
    }
    assert overages[..|overages|] == overages;
  }

  /** On a computed result and a non-empty window, an interval is kept iff it holds somewhere in the window. */
  lemma IntersectingIsExact(overages: seq<Overage>, start: int, end: int, o: Overage)
    requires Canonical(overages) && o in overages && start < end
    ensures o in Filter(overages, (o: Overage) => o.startAt < end && o.endAt > start)
       <==> exists t :: start <= t < end && Holds(o, o.site, t)
  {
    var keep := (o: Overage) => o.startAt < end && o.endAt > start;
    FilterMember(overages, keep, o);
    if keep(o) {
      var t := if o.startAt > start then o.startAt else start;
      assert start <= t < end && Holds(o, o.site, t);
    }
  }
}
