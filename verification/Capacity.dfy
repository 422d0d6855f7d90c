/** The capacity computation over all sites, and what its output means. */
module Capacity {
  import opened Common
  import opened Hall
  import opened HallCheck
  import opened Sorting
  import opened Names
  import opened Demands
  import opened Overages
  import opened Sweep

  // ----- the pointwise definition -----

  /** The distinct channels of known type that a site's demands keep busy at `t`. */
  function LiveOn(demands: seq<Demand>, site: string, t: int): set<Channel> {
    set d | d in demands && d.site == site && Occupies(d, t) :: ChannelOf(d)
  }

  function TunersAt(tuners: seq<Tuner>, site: string): seq<Tuner> {
    Filter(tuners, (u: Tuner) => u.site == site)
  }

  /** A demand of positive length. */
  function DemandsAt(demands: seq<Demand>, site: string): seq<Demand> {
    Filter(demands, (d: Demand) => d.site == site && d.startAt < d.endAt)
  }

  /** The verdict on a site at an instant. A site without any tuner row is not judged. */
  ghost function SiteVerdict(demands: seq<Demand>, tuners: seq<Tuner>, site: string, t: int): Verdict {
    if TunersAt(tuners, site) == [] then Verdict(0, 0)
    else Worst(Levels(LiveOn(demands, site, t)), CapacityTable(TunersAt(tuners, site)))
  }

  /** `list` is canonical and reports the verdict of every site and instant. */
  ghost predicate IsResult(list: seq<Overage>, demands: seq<Demand>, tuners: seq<Tuner>) {
    && Canonical(list)
    && forall site, t :: Reports(list, site, t, SiteVerdict(demands, tuners, site, t))
  }

  lemma LiveAtSite(demands: seq<Demand>, site: string, t: int)
    ensures Live(DemandsAt(demands, site), t) == LiveOn(demands, site, t)
  {
    forall d: Demand
      ensures d in DemandsAt(demands, site) <==> d in demands && d.site == site && d.startAt < d.endAt
    {
      FilterMember(demands, (d: Demand) => d.site == site && d.startAt < d.endAt, d);
    }
  }

  // ----- the computation -----

  method Compute(demands: seq<Demand>, tuners: seq<Tuner>) returns (out: seq<Overage>)
    ensures IsResult(out, demands, tuners)
  {
    hide Reports, SiteVerdict, IsResult, CapacityTable, VerdictAt;
    var tunersBySite := GroupTuners(tuners);
    var demandsBySite := GroupDemands(demands);
    var sites := JudgedSites(demandsBySite, tunersBySite);
    out := [];
    for k := 0 to |sites|
      invariant ListsOnly(out, sites[..k])
      invariant forall site, t | site in sites[..k] :: Reports(out, site, t, SiteVerdict(demands, tuners, site, t))
    {
      var site := sites[k];
      GroupedDemands(demands, site);
      var caps := Capacities(tunersBySite[site]);
      var more := ComputeSite(site, demandsBySite[site], caps);
      SiteReports(more, site, demands, tuners);
      AppendSite(out, more, sites, k, demands, tuners);
      out := out + more;
    }
    assert sites[..|sites|] == sites;
    UnjudgedSites(out, sites, demands, tuners);
  }

  lemma SiteReports(list: seq<Overage>, site: string, demands: seq<Demand>, tuners: seq<Tuner>)
    requires TunersAt(tuners, site) != []
    requires forall t ::
      Reports(list, site, t, VerdictAt(DemandsAt(demands, site), CapacityTable(TunersAt(tuners, site)), t))
    ensures forall t :: Reports(list, site, t, SiteVerdict(demands, tuners, site, t))
  {
    var caps := CapacityTable(TunersAt(tuners, site));
    forall t
      ensures Reports(list, site, t, SiteVerdict(demands, tuners, site, t))
    {
      LiveAtSite(demands, site, t);
      assert VerdictAt(DemandsAt(demands, site), caps, t) == SiteVerdict(demands, tuners, site, t);
    }
  }

  /** A canonical list about the given sites only. */
  ghost predicate ListsOnly(list: seq<Overage>, sites: seq<string>) {
    && Canonical(list)
    && forall o <- list :: o.site in sites
  }

  lemma AppendSite(out: seq<Overage>, more: seq<Overage>, sites: seq<string>, k: nat, demands: seq<Demand>,
      tuners: seq<Tuner>)
    requires k < |sites| && Ascending(sites)
    requires ListsOnly(out, sites[..k])
    requires Canonical(more) && forall o <- more :: o.site == sites[k]
    requires forall site, t | site in sites[..k] :: Reports(out, site, t, SiteVerdict(demands, tuners, site, t))
    requires forall t :: Reports(more, sites[k], t, SiteVerdict(demands, tuners, sites[k], t))
    ensures ListsOnly(out + more, sites[..k + 1])
    ensures forall site, t | site in sites[..k + 1] ::
      Reports(out + more, site, t, SiteVerdict(demands, tuners, site, t))
  {
    LessIrreflexive(sites[k]);
    assert forall o <- out :: Less(o.site, sites[k]);
    JoinCanonical(out, more, sites[k]);
    forall site, t | site in sites[..k + 1]
      ensures Reports(out + more, site, t, SiteVerdict(demands, tuners, site, t))
    {
      JoinReports(out, more, sites[k], site, t, SiteVerdict(demands, tuners, site, t));
    }
  }

  lemma JoinCanonical(out: seq<Overage>, more: seq<Overage>, site: string)
    requires Canonical(out) && Canonical(more)
    requires forall o <- out :: Less(o.site, site)
    requires forall o <- more :: o.site == site
    ensures Canonical(out + more)
  {
    LessIrreflexive(site);
    var list := out + more;
    assert forall i | 0 <= i < |out| :: list[i] in out;
    assert forall i | |out| <= i < |list| :: list[i] in more && list[i] == more[i - |out|];
    forall i, j | 0 <= i < j < |list|
      ensures Precedes(list[i], list[j])
    {
      if |out| <= i {
        assert Precedes(more[i - |out|], more[j - |out|]);
      }
    }
    forall i, j | 0 <= i && j == i + 1 < |list| && Touching(list[i], list[j])
      ensures !SameVerdict(list[i], list[j])
    {
      if |out| <= i {
        assert Touching(more[i - |out|], more[j - |out|]);
      }
    }
  }

  lemma JoinReports(out: seq<Overage>, more: seq<Overage>, last: string, site: string, t: int, v: Verdict)
    requires forall o <- out :: Less(o.site, last)
    requires forall o <- more :: o.site == last
    requires if site == last then Reports(more, site, t, v) else Reports(out, site, t, v)
    ensures Reports(out + more, site, t, v)
  {
    LessIrreflexive(last);
    if v.shortfall > 0 {
      var part := if site == last then more else out;
      var o :| o in part && Holds(o, site, t);
      assert o in out + more;
    }
  }

  /** Sites left out have nothing to report: no demand is live, or no tuner row is known. */
  lemma UnjudgedSites(out: seq<Overage>, sites: seq<string>, demands: seq<Demand>, tuners: seq<Tuner>)
    requires ListsOnly(out, sites)
    requires forall site, t | site in sites :: Reports(out, site, t, SiteVerdict(demands, tuners, site, t))
    requires forall site | DemandsAt(demands, site) != [] && TunersAt(tuners, site) != [] :: site in sites
    ensures IsResult(out, demands, tuners)
  {
    forall site, t
      ensures Reports(out, site, t, SiteVerdict(demands, tuners, site, t))
    {
      if site !in sites && TunersAt(tuners, site) != [] {
        LiveAtSite(demands, site, t);
        assert LiveOn(demands, site, t) == {};
        NothingLive(CapacityTable(TunersAt(tuners, site)));
      }
    }
  }

  // ----- grouping by site -----

  method GroupTuners(tuners: seq<Tuner>) returns (bySite: map<string, seq<Tuner>>)
    ensures forall site :: site in bySite <==> TunersAt(tuners, site) != []
    ensures forall site <- bySite :: bySite[site] == TunersAt(tuners, site)
  {
    bySite := map[];
    for k := 0 to |tuners|
      invariant forall site :: site in bySite <==> TunersAt(tuners[..k], site) != []
      invariant forall site <- bySite :: bySite[site] == TunersAt(tuners[..k], site)
    {
      var u := tuners[k];
      assert tuners[..k + 1][..k] == tuners[..k];
      bySite := bySite[u.site := (if u.site in bySite then bySite[u.site] else []) + [u]];
    }
    assert tuners[..|tuners|] == tuners;
  }

  /** Demands that occupy no instant are dropped here. */
  method GroupDemands(demands: seq<Demand>) returns (bySite: map<string, seq<Demand>>)
    ensures forall site :: site in bySite <==> DemandsAt(demands, site) != []
    ensures forall site <- bySite :: bySite[site] == DemandsAt(demands, site)
  {
    bySite := map[];
    for k := 0 to |demands|
      invariant forall site :: site in bySite <==> DemandsAt(demands[..k], site) != []
      invariant forall site <- bySite :: bySite[site] == DemandsAt(demands[..k], site)
    {
      var d := demands[k];
      assert demands[..k + 1][..k] == demands[..k];
      if !(d.endAt > d.startAt) {
        continue;
      }
      bySite := bySite[d.site := (if d.site in bySite then bySite[d.site] else []) + [d]];
    }
    assert demands[..|demands|] == demands;
  }

  lemma GroupedDemands(demands: seq<Demand>, site: string)
    ensures Proper(DemandsAt(demands, site))
  {
    forall d <- DemandsAt(demands, site)
      ensures d.startAt < d.endAt
    {
      FilterMember(demands, (d: Demand) => d.site == site && d.startAt < d.endAt, d);
    }
  }

  /** The sites with a demand and a tuner row, in ascending order. Map iteration order does not matter. */
  method JudgedSites(demandsBySite: map<string, seq<Demand>>, tunersBySite: map<string, seq<Tuner>>)
      returns (sites: seq<string>)
    ensures Ascending(sites)
    ensures forall site :: site in sites <==> site in demandsBySite && site in tunersBySite
  {
    sites := [];
    var todo := demandsBySite.Keys;
    while todo != {}
      invariant todo <= demandsBySite.Keys
      invariant forall site :: site in sites <==> site in demandsBySite && site !in todo && site in tunersBySite
      invariant forall i, j | 0 <= i < j < |sites| :: sites[i] != sites[j]
      decreases todo
    {
      var site :| site in todo;
      todo := todo - {site};
      if site !in tunersBySite {
        continue;
      }
      sites := sites + [site];
    }
    sites := SortNames(sites);
  }
}
