/**
 * The event sweep of one site.
 *
 * The sweep applies every event of an instant before it judges, keeps one counter per channel
 * and one distinct-channel count per type, and opens or closes an interval when the verdict changes.
 */
module Sweep {
  import opened Common
  import opened Hall
  import opened HallCheck
  import opened Sorting
  import opened Demands
  import opened Overages

  /** The verdict the definition gives: the worst set of types for the channels live at `t`. */
  ghost function VerdictAt(demands: seq<Demand>, caps: seq<nat>, t: int): Verdict
    requires |caps| == SUBSETS
  {
    Worst(Levels(Live(demands, t)), caps)
  }

  // ----- counters -----

  function Counter(cnt: map<Channel, int>, c: Channel): int {
    if c in cnt then cnt[c] else 0
  }

  function InUse(cnt: map<Channel, int>): set<Channel> {
    set c | c in cnt && cnt[c] > 0
  }

  lemma OfKindUp(channels: set<Channel>, c: Channel, kind: Kind)
    requires c !in channels
    ensures |OfKind(channels + {c}, kind)| == |OfKind(channels, kind)| + if kind == c.kind then 1 else 0
  {
    if kind == c.kind {
      assert OfKind(channels + {c}, kind) == OfKind(channels, kind) + {c};
    } else {
      assert OfKind(channels + {c}, kind) == OfKind(channels, kind);
    }
  }

  lemma LevelsUp(channels: set<Channel>, c: Channel)
    requires c !in channels && c.kind < TYPE_COUNT
    ensures Levels(channels + {c}) == Levels(channels)[c.kind := Levels(channels)[c.kind] + 1]
  {
    hide OfKind;
    forall i: nat | i < TYPE_COUNT
      ensures Levels(channels + {c})[i] == Levels(channels)[c.kind := Levels(channels)[c.kind] + 1][i]
    {
      OfKindUp(channels, c, i);
    }
  }

  /**
   * One event: the counter moves, and the count of its type moves only when a channel comes
   * into use or goes out of use.
   */
  method ApplyEvent(cnt: map<Channel, int>, d: array<nat>, ev: Event) returns (after: map<Channel, int>, changed: bool)
    requires d.Length == TYPE_COUNT && d[..] == Levels(InUse(cnt))
    requires ev.channel.kind < TYPE_COUNT && (ev.delta == 1 || ev.delta == -1)
    requires Counter(cnt, ev.channel) >= 0 && Counter(cnt, ev.channel) + ev.delta >= 0
    modifies d
    ensures after == cnt[ev.channel := Counter(cnt, ev.channel) + ev.delta]
    ensures d[..] == Levels(InUse(after))
    ensures changed <==> InUse(after) != InUse(cnt)
  {
    var c := ev.channel;
    after := cnt[c := Counter(cnt, c) + ev.delta];
    changed := false;
    ghost var before := InUse(cnt);
    if ev.delta > 0 && after[c] == 1 {
      LevelsUp(before, c);
      assert InUse(after) == before + {c};
      assert c !in before && c in InUse(after);
      d[c.kind] := d[c.kind] + 1;
      changed := true;
    } else if ev.delta < 0 && after[c] == 0 {
      LevelsUp(InUse(after), c);
      assert before == InUse(after) + {c};
      assert c in before && c !in InUse(after);
      d[c.kind] := d[c.kind] - 1;
      changed := true;
    } else {
      assert InUse(after) == before;
    }
  }

  /** The counters are exactly the sums of the events applied so far. */
  ghost predicate CountersShow(cnt: map<Channel, int>, applied: seq<Event>) {
    forall c :: Counter(cnt, c) == Sum(applied, Change(c))
  }

  lemma CountersStep(cnt: map<Channel, int>, events: seq<Event>, i: nat)
    requires i < |events| && CountersShow(cnt, events[..i])
    ensures CountersShow(cnt[events[i].channel := Counter(cnt, events[i].channel) + events[i].delta], events[..i + 1])
  {
    var after := cnt[events[i].channel := Counter(cnt, events[i].channel) + events[i].delta];
    assert events[..i + 1][..i] == events[..i];
    forall c
      ensures Counter(after, c) == Sum(events[..i + 1], Change(c))
    {
      assert Counter(cnt, c) == Sum(events[..i], Change(c));
    }
  }

  /** Between batches the channels in use are the live ones. */
  lemma InUseIsLive(demands: seq<Demand>, events: seq<Event>, i: nat, t: int, cnt: map<Channel, int>)
    requires IsTimeline(demands, events) && i <= |events| && CountersShow(cnt, events[..i])
    requires forall j | 0 <= j < i :: events[j].at <= t
    requires forall j | i <= j < |events| :: events[j].at > t
    ensures InUse(cnt) == Live(demands, t)
  {
    forall c
      ensures c in InUse(cnt) <==> c in Live(demands, t)
    {
      CounterShowsLive(demands, events, i, t, c);
      assert Counter(cnt, c) == Sum(events[..i], Change(c));
    }
  }

  // ----- the open interval -----

  /** What the closed intervals and the one still open say about `t`. */
  ghost predicate Told(out: seq<Overage>, open: Option<Overage>, current: Verdict, site: string, t: int, v: Verdict) {
    && (forall o <- out | Holds(o, site, t) :: v.shortfall > 0 && Matches(o, v))
    && (open.Some? && open.value.startAt <= t ==> v == current)
    && (v.shortfall > 0 ==> (exists o <- out :: Holds(o, site, t)) || (open.Some? && open.value.startAt <= t))
  }

  predicate Before(t: int, limit: Option<int>) {
    limit.Some? ==> t < limit.value
  }

  /** The sweep has processed every event up to `last`; nothing happens before `limit`. */
  ghost predicate Swept(
    site: string, demands: seq<Demand>, caps: seq<nat>,
    out: seq<Overage>, open: Option<Overage>, current: Verdict, last: int, limit: Option<int>)
    requires |caps| == SUBSETS
  {
    && Canonical(out)
    && (forall o <- out :: o.site == site && o.endAt <= last)
    && OpenFits(site, out, open, current, last)
    && (forall t | Before(t, limit) :: Told(out, open, current, site, t, VerdictAt(demands, caps, t)))
    && (forall t | last <= t && Before(t, limit) :: VerdictAt(demands, caps, t) == current)
  }

  ghost predicate OpenFits(site: string, out: seq<Overage>, open: Option<Overage>, current: Verdict, last: int) {
    && current.mask < SUBSETS
    && (open.Some? <==> current.shortfall > 0)
    && (open.Some? ==>
          && open.value.site == site && Matches(open.value, current) && open.value.startAt <= last
          && (forall o <- out :: o.endAt <= open.value.startAt)
          && (out != [] && Touching(out[|out| - 1], open.value) ==> !SameVerdict(out[|out| - 1], open.value)))
  }

  /** The verdict stays: the open interval runs on, and equal neighbours merge. */
  lemma SweepOn(
    site: string, demands: seq<Demand>, caps: seq<nat>,
    out: seq<Overage>, open: Option<Overage>, current: Verdict, last: int, at: int, limit: Option<int>)
    requires |caps| == SUBSETS && last < at && Before(at, limit)
    requires Swept(site, demands, caps, out, open, current, last, Some(at))
    requires forall t | at <= t && Before(t, limit) :: VerdictAt(demands, caps, t) == current
    ensures Swept(site, demands, caps, out, open, current, at, limit)
  {
    forall t | Before(t, limit)
      ensures Told(out, open, current, site, t, VerdictAt(demands, caps, t))
    {
      if t < at {
        assert Before(t, Some(at));
      }
    }
  }

  /** The list after the open interval, if any, is closed at `at`. */
  function Closed(out: seq<Overage>, open: Option<Overage>, at: int): seq<Overage> {
    if open.Some? then out + [open.value.(endAt := at)] else out
  }

  lemma ClosedIsCanonical(site: string, out: seq<Overage>, open: Option<Overage>, current: Verdict, last: int, at: int)
    requires Canonical(out) && last < at
    requires forall o <- out :: o.site == site && o.endAt <= last
    requires OpenFits(site, out, open, current, last)
    ensures Canonical(Closed(out, open, at))
    ensures forall o <- Closed(out, open, at) :: o.site == site && o.endAt <= at
  {
    if open.Some? {
      var list := Closed(out, open, at);
      forall i, j | 0 <= i < j < |list|
        ensures Precedes(list[i], list[j])
      {
        if j == |out| {
          assert list[i] in out;
        }
      }
    }
  }

  /** The verdict changes: the open interval ends here, and a new one begins if the site is over capacity. */
  lemma SweepChange(
    site: string, demands: seq<Demand>, caps: seq<nat>,
    out: seq<Overage>, open: Option<Overage>, current: Verdict, last: int, at: int, limit: Option<int>,
    v: Verdict, next: Option<Overage>)
    requires |caps| == SUBSETS && last < at && Before(at, limit)
    requires Swept(site, demands, caps, out, open, current, last, Some(at))
    requires forall t | at <= t && Before(t, limit) :: VerdictAt(demands, caps, t) == v
    requires v != current && v.mask < SUBSETS && (v.shortfall == 0 ==> v.mask == 0)
    requires next.Some? <==> v.shortfall > 0
    requires next.Some? ==> next.value.site == site && next.value.startAt == at && Matches(next.value, v)
    ensures Swept(site, demands, caps, Closed(out, open, at), next, v, at, limit)
  {
    var list := Closed(out, open, at);
    ClosedIsCanonical(site, out, open, current, last, at);
    if open.Some? && next.Some? {
      if v.shortfall == current.shortfall && TypeNames(v.mask) == TypeNames(current.mask) {
        TypeNamesInjective(v.mask, current.mask);
      }
    }
    assert OpenFits(site, list, next, v, at);
    forall t | Before(t, limit)
      ensures Told(list, next, v, site, t, VerdictAt(demands, caps, t))
    {
      ToldAfterClosing(site, out, open, current, at, next, v, t, VerdictAt(demands, caps, t));
    }
  }

  lemma ToldAfterClosing(
    site: string, out: seq<Overage>, open: Option<Overage>, current: Verdict, at: int,
    next: Option<Overage>, v: Verdict, t: int, here: Verdict)
    requires open.Some? ==> open.value.site == site && Matches(open.value, current) && current.shortfall > 0
    requires next.Some? <==> v.shortfall > 0
    requires next.Some? ==> next.value.startAt == at
    requires if t < at then Told(out, open, current, site, t, here) else here == v
    requires forall o <- out :: o.endAt <= at
    ensures Told(Closed(out, open, at), next, v, site, t, here)
  {
    if open.Some? && open.value.startAt <= t < at {
      var o := open.value.(endAt := at);
      assert o in Closed(out, open, at) && Holds(o, site, t);
    }
  }

  /** Before the first event nothing is live. */
  lemma SweepStart(site: string, demands: seq<Demand>, caps: seq<nat>, events: seq<Event>)
    requires |caps| == SUBSETS && IsTimeline(demands, events)
    ensures var limit := if events == [] then None else Some(events[0].at);
      var last := if events == [] then 0 else events[0].at - 1;
      Swept(site, demands, caps, [], None, Verdict(0, 0), last, limit)
  {
    var limit := if events == [] then None else Some(events[0].at);
    forall t | Before(t, limit)
      ensures VerdictAt(demands, caps, t) == Verdict(0, 0)
    {
      assert CountersShow(map[], events[..0]);
      InUseIsLive(demands, events, 0, t, map[]);
      assert Live(demands, t) == {};
      NothingLive(caps);
    }
  }

  lemma NothingLive(caps: seq<nat>)
    requires |caps| == SUBSETS
    ensures Worst(Levels({}), caps) == Verdict(0, 0)
  {
    var v := Worst(Levels({}), caps);
    DemandInCounts({}, v.mask, TYPE_COUNT);
    assert Needing({}, FirstKinds(v.mask, TYPE_COUNT)) == {};
  }

  /** After the last event nothing is live, so no interval is left open. */
  lemma NothingLeftOpen(
    site: string, demands: seq<Demand>, caps: seq<nat>, out: seq<Overage>, open: Option<Overage>, current: Verdict,
        last: int)
    requires |caps| == SUBSETS
    requires Swept(site, demands, caps, out, open, current, last, None)
    ensures open.None? && Canonical(out)
    ensures forall o <- out :: o.site == site
    ensures forall t :: Reports(out, site, t, VerdictAt(demands, caps, t))
  {
    var t := AfterAll(demands, last);
    assert Live(demands, t) == {};
    NothingLive(caps);
    assert Before(t, None);
    assert VerdictAt(demands, caps, t) == current;
    forall t
      ensures Reports(out, site, t, VerdictAt(demands, caps, t))
    {
      assert Before(t, None);
    }
  }

  lemma {:induction false} AfterAll(demands: seq<Demand>, from: int) returns (t: int)
    ensures from <= t
    ensures forall d <- demands :: d.endAt <= t
  {
    if demands == [] {
      t := from;
    } else {
      t := AfterAll(demands[1..], from);
      assert demands == [demands[0]] + demands[1..];
      if demands[0].endAt > t {
        t := demands[0].endAt;
      }
    }
  }

  // ----- the sweep -----

  method ComputeSite(site: string, demands: seq<Demand>, caps: seq<nat>) returns (out: seq<Overage>)
    requires Proper(demands) && |caps| == SUBSETS
    ensures Canonical(out)
    ensures forall o <- out :: o.site == site
    ensures forall t :: Reports(out, site, t, VerdictAt(demands, caps, t))
  {
    hide Swept, CountersShow, Worst, Levels, InUse, Canonical, Reports, EventsOf, Live, VerdictAt;
    var events := BuildEvents(demands);
    var byTime := (a: Event, b: Event) => a.at <= b.at;
    events := Sort(events, byTime);
    assert forall i, j | 0 <= i < j < |events| :: byTime(events[i], events[j]);
    DeltasAreUnits(demands, events);

    var cnt: map<Channel, int> := map[];
    var d := new nat[TYPE_COUNT](_ => 0);
    var current := Verdict(0, 0);
    var open: Option<Overage> := None;
    out := [];
    var i := 0;
    ghost var last := if events == [] then 0 else events[0].at - 1;
    SweepStart(site, demands, caps, events);
    InitialCounters(caps);
    while i < |events|
      invariant 0 <= i <= |events|
      invariant CountersShow(cnt, events[..i])
      invariant d[..] == Levels(InUse(cnt)) && current == Worst(d[..], caps)
      invariant forall j | i <= j < |events| :: last < events[j].at
      invariant Swept(site, demands, caps, out, open, current, last, NextTime(events, i))
    {
      var at := events[i].at;
      var changed;
      cnt, i, changed := ApplyBatch(demands, events, i, cnt, d);
      ghost var limit := NextTime(events, i);
      BatchVerdict(demands, caps, events, i, at, cnt);
      if !changed {
        SweepOn(site, demands, caps, out, open, current, last, at, limit);
        last := at;
        continue;
      }
      var v := Evaluate(d[..], caps);
      if v == current {
        SweepOn(site, demands, caps, out, open, current, last, at, limit);
        last := at;
        continue;
      }
      ghost var was, wasOpen := out, open;
      if open.Some? {
        out := out + [open.value.(endAt := at)];
        open := None;
      }
      if v.shortfall > 0 {
        open := Some(Overage(site, at, at, v.shortfall, TypeNames(v.mask)));
      }
      SweepChange(site, demands, caps, was, wasOpen, current, last, at, limit, v, open);
      current := v;
      last := at;
    }
    NothingLeftOpen(site, demands, caps, out, open, current, last);
  }

  lemma BatchVerdict(demands: seq<Demand>, caps: seq<nat>, events: seq<Event>, i: nat, at: int, cnt: map<Channel, int>)
    requires |caps| == SUBSETS
    requires IsTimeline(demands, events) && i <= |events| && CountersShow(cnt, events[..i])
    requires forall j | 0 <= j < i :: events[j].at <= at
    requires forall j | i <= j < |events| :: events[j].at > at
    ensures forall t | at <= t && Before(t, NextTime(events, i)) ::
              VerdictAt(demands, caps, t) == Worst(Levels(InUse(cnt)), caps)
  {
    forall t | at <= t && Before(t, NextTime(events, i))
      ensures VerdictAt(demands, caps, t) == Worst(Levels(InUse(cnt)), caps)
    {
      InUseIsLive(demands, events, i, t, cnt);
    }
  }

  ghost function NextTime(events: seq<Event>, i: nat): Option<int>
    requires i <= |events|
  {
    if i == |events| then None else Some(events[i].at)
  }

  lemma InitialCounters(caps: seq<nat>)
    requires |caps| == SUBSETS
    ensures CountersShow(map[], []) && Levels(InUse(map[])) == [0, 0, 0, 0]
    ensures Worst([0, 0, 0, 0], caps) == Verdict(0, 0)
  {
    assert InUse(map[]) == {};
    forall i | 0 <= i < TYPE_COUNT
      ensures Levels({})[i] == 0
    {
      assert OfKind({}, i) == {};
    }
    assert Levels({}) == [0, 0, 0, 0];
    NothingLive(caps);
  }

  method BuildEvents(demands: seq<Demand>) returns (events: seq<Event>)
    ensures events == EventsOf(demands)
  {
    events := [];
    for k := 0 to |demands|
      invariant events == EventsOf(demands[..k])
    {
      var d := demands[k];
      assert demands[..k + 1][..k] == demands[..k];
      if TypeIndex(d.channelType) < 0 {
        continue;
      }
      var ch := Channel(TypeIndex(d.channelType), d.channel);
      events := events + [Event(d.startAt, ch, 1), Event(d.endAt, ch, -1)];
    }
    assert demands[..|demands|] == demands;
  }

  lemma BatchBounds(demands: seq<Demand>, events: seq<Event>, start: nat)
    requires IsTimeline(demands, events) && start < |events|
    ensures forall j | 0 <= j <= start :: events[j].at <= events[start].at
    ensures forall i, j | start <= i <= j < |events| && events[i].at != events[start].at ::
      events[start].at < events[j].at
  {
  }

  /** Applies every event of the instant that begins at `start`. */
  method ApplyBatch(ghost demands: seq<Demand>, events: seq<Event>, start: nat, cnt: map<Channel, int>, d: array<nat>)
    returns (after: map<Channel, int>, i: nat, changed: bool)
    requires IsTimeline(demands, events) && UnitDeltas(events)
    requires start < |events| && CountersShow(cnt, events[..start])
    requires d.Length == TYPE_COUNT && d[..] == Levels(InUse(cnt))
    modifies d
    ensures start < i <= |events| && CountersShow(after, events[..i])
    ensures d[..] == Levels(InUse(after))
    ensures !changed ==> d[..] == old(d[..])
    ensures forall j | 0 <= j < i :: events[j].at <= events[start].at
    ensures forall j | i <= j < |events| :: events[j].at > events[start].at
  {
    hide Levels, InUse, IsTimeline;
    var at := events[start].at;
    BatchBounds(demands, events, start);
    i := start;
    after := cnt;
    changed := false;
    while i < |events| && events[i].at == at
      invariant start <= i <= |events| && CountersShow(after, events[..i])
      invariant d[..] == Levels(InUse(after))
      invariant !changed ==> InUse(after) == InUse(cnt)
      invariant forall j | 0 <= j < i :: events[j].at <= at
    {
      var ev := events[i];
      assert ev in events;
      CounterNeverNegative(demands, events, i, ev.channel);
      CounterNeverNegative(demands, events, i + 1, ev.channel);
      CountersStep(after, events, i);
      assert Counter(after, ev.channel) == Sum(events[..i], Change(ev.channel));
      assert Sum(events[..i + 1], Change(ev.channel)) == Counter(after, ev.channel) + ev.delta by {
        assert events[..i + 1][..i] == events[..i];
      }
      var moved;
      after, moved := ApplyEvent(after, d, ev);
      changed := changed || moved;
      i := i + 1;
    }
  }
}
