/**
 * What the capacity computation says, in terms of the demand and tuner rows alone: a need is a
 * type name and a channel name, and a tuner is a position in the list of rows.
 */
module CapacityRows {
  import opened Hall
  import opened HallCheck
  import opened Sorting
  import opened Demands
  import opened Overages
  import opened Capacity
  import opened Preview

  /** What one recording keeps busy at its site: a channel is named by its type and its name. */
  datatype Need = Need(channelType: string, channel: string)

  /** The different channels of a broadcast type that the demands of a site want at `t`. */
  function NeedsAt(demands: seq<Demand>, site: string, t: int): set<Need> {
    set d | d in demands && d.site == site && d.channelType in ["GR", "BS", "CS", "SKY"] && d.startAt <= t < d.endAt
      :: Need(d.channelType, d.channel)
  }

  predicate CanRecord(row: Tuner, site: string, channelType: string) {
    row.site == site && row.isAvailable && !row.isFault && channelType in row.types
  }

  /** `plan` gives different rows to some of the needs, each row one that can record the need. */
  ghost predicate IsPlan(needs: set<Need>, tuners: seq<Tuner>, site: string, plan: map<Need, nat>) {
    && plan.Keys <= needs
    && (forall n <- plan :: plan[n] < |tuners| && CanRecord(tuners[plan[n]], site, n.channelType))
    && (forall m, n | m in plan && n in plan && m != n :: plan[m] != plan[n])
  }

  /** Some plan leaves just `k` needs without a row, and no plan leaves fewer. */
  ghost predicate LeastUnserved(needs: set<Need>, tuners: seq<Tuner>, site: string, k: int) {
    && (exists plan :: IsPlan(needs, tuners, site, plan) && |needs - plan.Keys| == k)
    && (forall plan | IsPlan(needs, tuners, site, plan) :: k <= |needs - plan.Keys|)
  }

  function NeedsOf(needs: set<Need>, names: set<string>): set<Need> {
    set n | n in needs && n.channelType in names
  }

  /** The rows that can record a channel of one of the types. */
  function RowsFor(tuners: seq<Tuner>, site: string, names: set<string>): set<nat> {
    set i: nat | i < |tuners| && exists name <- names :: CanRecord(tuners[i], site, name)
  }

  /** By how much the needs of some types exceed the rows for them. */
  function Lack(needs: set<Need>, tuners: seq<Tuner>, site: string, names: set<string>): int {
    |NeedsOf(needs, names)| - |RowsFor(tuners, site, names)|
  }

  /** Sets with equally many types are told apart by this number. */
  function Weight(names: set<string>): nat {
    (if "GR" in names then 1 else 0) + (if "BS" in names then 2 else 0) +
    (if "CS" in names then 4 else 0) + (if "SKY" in names then 8 else 0)
  }

  /** `jammed` lists, in order, the fewest types whose needs alone exceed their rows by `k`. */
  ghost predicate IsJammed(needs: set<Need>, tuners: seq<Tuner>, site: string, k: int, jammed: seq<string>) {
    var names := set name <- jammed;
    && jammed == Filter(["GR", "BS", "CS", "SKY"], name => name in names)
    && Lack(needs, tuners, site, names) == k
    && forall other: set<string> | other <= {"GR", "BS", "CS", "SKY"} && Lack(needs, tuners, site, other) == k ::
         |names| < |other| || (|names| == |other| && Weight(names) <= Weight(other))
  }

  /** A site with tuner rows lacks `k` >= 1 tuners at `t`, at the types `jammed`. */
  ghost predicate Shortage(
    demands: seq<Demand>, tuners: seq<Tuner>, site: string, t: int, k: int, jammed: seq<string>)
  {
    var needs := NeedsAt(demands, site, t);
    && (exists row <- tuners :: row.site == site)
    && k >= 1 && LeastUnserved(needs, tuners, site, k) && IsJammed(needs, tuners, site, k, jammed)
  }

  /** At this site and instant the list holds exactly the shortage there is. */
  ghost predicate TellsShortage(list: seq<Overage>, demands: seq<Demand>, tuners: seq<Tuner>, site: string, t: int) {
    && (forall o <- list | Holds(o, site, t) :: Shortage(demands, tuners, site, t, o.shortfall, o.jammedTypes))
    && (forall k, jammed | Shortage(demands, tuners, site, t, k, jammed) :: exists o <- list :: Holds(o, site, t))
  }

  // ----- needs are live channels -----

  function AsChannel(n: Need): Channel
    requires TypeIndex(n.channelType) >= 0
  {
    Channel(TypeIndex(n.channelType), n.channel)
  }

  function AsNeed(c: Channel): Need
    requires c.kind < TYPE_COUNT
  {
    Need(CHANNEL_TYPES[c.kind], c.name)
  }

  ghost predicate KnownNeeds(needs: set<Need>) {
    forall n <- needs :: TypeIndex(n.channelType) >= 0
  }

  /** The same channels, named by type and by position. */
  ghost predicate Same(needs: set<Need>, channels: set<Channel>) {
    && KnownNeeds(needs) && Known(channels)
    && (forall n <- needs :: AsChannel(n) in channels)
    && (forall c <- channels :: AsNeed(c) in needs)
  }

  lemma NeedsAreLive(demands: seq<Demand>, site: string, t: int)
    ensures Same(NeedsAt(demands, site, t), LiveOn(demands, site, t))
  {
  }

  lemma Renaming()
    ensures forall n: Need | TypeIndex(n.channelType) >= 0 :: AsNeed(AsChannel(n)) == n
    ensures forall c: Channel | c.kind < TYPE_COUNT ::
      TypeIndex(AsNeed(c).channelType) >= 0 && AsChannel(AsNeed(c)) == c
  {
  }

  lemma {:induction false} SameSize(needs: set<Need>, channels: set<Channel>)
    requires Same(needs, channels)
    ensures |needs| == |channels|
  {
    hide AsChannel, AsNeed, TypeIndex;
    Renaming();
    if n :| n in needs {
      SameWithout(needs, channels, n);
      SameSize(needs - {n}, channels - {AsChannel(n)});
    } else {
      assert channels == {};
    }
  }

  lemma SameWithout(needs: set<Need>, channels: set<Channel>, n: Need)
    requires Same(needs, channels) && n in needs
    ensures Same(needs - {n}, channels - {AsChannel(n)})
  {
    hide AsChannel, AsNeed, TypeIndex;
    Renaming();
  }

  function KindsIn(names: set<string>): set<Kind> {
    set i: nat | i < TYPE_COUNT && CHANNEL_TYPES[i] in names
  }

  lemma NeedsOfSame(needs: set<Need>, channels: set<Channel>, names: set<string>)
    requires Same(needs, channels)
    ensures |NeedsOf(needs, names)| == |Needing(channels, KindsIn(names))|
  {
    assert Same(NeedsOf(needs, names), Needing(channels, KindsIn(names)));
    SameSize(NeedsOf(needs, names), Needing(channels, KindsIn(names)));
  }

  // ----- rows are countable tuners -----

  predicate Counts(row: Tuner, site: string) {
    row.site == site && row.Countable()
  }

  /** What every row offers at the site: nothing if it does not count. */
  function Offers(tuners: seq<Tuner>, site: string): Tuners {
    if tuners == [] then []
    else
      var last := tuners[|tuners| - 1];
      Offers(tuners[..|tuners| - 1], site) + [if Counts(last, site) then KindsNamed(last.types) else {}]
  }

  lemma {:induction false} OffersExact(tuners: seq<Tuner>, site: string)
    ensures |Offers(tuners, site)| == |tuners|
    ensures forall i: nat | i < |tuners| ::
      Offers(tuners, site)[i] == if Counts(tuners[i], site) then KindsNamed(tuners[i].types) else {}
  {
    hide KindsNamed, Counts;
    if tuners != [] {
      OffersExact(tuners[..|tuners| - 1], site);
    }
  }

  lemma OneMoreTuner(tuners: seq<Tuner>, site: string)
    requires tuners != []
    ensures var n := |tuners| - 1; var init := CountableKinds(TunersAt(tuners[..n], site));
      CountableKinds(TunersAt(tuners, site)) ==
        if Counts(tuners[n], site) then init + [KindsNamed(tuners[n].types)] else init
  {
    hide KindsNamed;
    var n := |tuners| - 1;
    if tuners[n].site == site {
      assert TunersAt(tuners, site) == TunersAt(tuners[..n], site) + [tuners[n]];
    } else {
      assert TunersAt(tuners, site) == TunersAt(tuners[..n], site);
    }
  }

  lemma {:induction false} OffersOffering(tuners: seq<Tuner>, site: string, kinds: set<Kind>)
    ensures Offering(Offers(tuners, site), kinds) == Offering(CountableKinds(TunersAt(tuners, site)), kinds)
  {
    hide KindsNamed, Offering, Counts;
    if tuners != [] {
      var init, last := tuners[..|tuners| - 1], tuners[|tuners| - 1];
      var offer := if Counts(last, site) then KindsNamed(last.types) else {};
      OffersOffering(init, site, kinds);
      OneMoreTuner(tuners, site);
      OfferingOfOneMore(Offers(init, site), offer, kinds);
      OfferingOfOneMore(CountableKinds(TunersAt(init, site)), offer, kinds);
      assert {} * kinds == {};
    }
  }

  /** A row can record a need exactly when it offers the kind of the channel. */
  lemma RowTakes(row: Tuner, site: string, n: Need)
    requires TypeIndex(n.channelType) >= 0
    ensures CanRecord(row, site, n.channelType)
       <==> AsChannel(n).kind in if Counts(row, site) then KindsNamed(row.types) else {}
  {
  }

  lemma {:induction false} RowsAreOffering(tuners: seq<Tuner>, site: string, names: set<string>)
    requires forall name <- names :: TypeIndex(name) >= 0
    ensures |RowsFor(tuners, site, names)| == Offering(Offers(tuners, site), KindsIn(names))
  {
    hide KindsNamed, Offering, Hit, TypeIndex, KindsIn, RowsFor, Counts;
    if tuners == [] {
      NoRows(site, names);
    } else {
      var n := |tuners| - 1;
      RowsAreOffering(tuners[..n], site, names);
      OneMoreRow(tuners, site, names);
      RowIsHit(tuners[n], site, names);
      OfferingOfOneMore(Offers(tuners[..n], site),
        if Counts(tuners[n], site) then KindsNamed(tuners[n].types) else {}, KindsIn(names));
    }
  }

  lemma NoRows(site: string, names: set<string>)
    ensures RowsFor([], site, names) == {} && Offering([], KindsIn(names)) == 0
  {
  }

  lemma OneMoreRow(tuners: seq<Tuner>, site: string, names: set<string>)
    requires tuners != []
    ensures var n := |tuners| - 1;
      |RowsFor(tuners, site, names)| == |RowsFor(tuners[..n], site, names)| +
        if exists name <- names :: CanRecord(tuners[n], site, name) then 1 else 0
  {
    var n := |tuners| - 1;
    if exists name <- names :: CanRecord(tuners[n], site, name) {
      assert RowsFor(tuners, site, names) == RowsFor(tuners[..n], site, names) + {n};
    } else {
      assert RowsFor(tuners, site, names) == RowsFor(tuners[..n], site, names);
    }
  }

  lemma RowIsHit(row: Tuner, site: string, names: set<string>)
    requires forall name <- names :: TypeIndex(name) >= 0
    ensures Hit(if Counts(row, site) then KindsNamed(row.types) else {}, KindsIn(names)) ==
      if exists name <- names :: CanRecord(row, site, name) then 1 else 0
  {
    var both := (if Counts(row, site) then KindsNamed(row.types) else {}) * KindsIn(names);
    assert forall name <- names | CanRecord(row, site, name) :: TypeIndex(name) in both;
    assert forall i <- both :: CHANNEL_TYPES[i] in names && CanRecord(row, site, CHANNEL_TYPES[i]);
  }

  // ----- plans are assignments -----

  lemma UnservedSame(needs: set<Need>, served: set<Need>, channels: set<Channel>, taken: set<Channel>)
    requires Same(needs, channels) && served <= needs && taken <= channels
    requires forall n <- needs :: TypeIndex(n.channelType) >= 0 && (n in served <==> AsChannel(n) in taken)
    ensures |needs - served| == |channels - taken|
  {
    hide AsChannel, AsNeed, TypeIndex;
    Renaming();
    assert Same(needs - served, channels - taken);
    SameSize(needs - served, channels - taken);
  }

  lemma NeedTwice(needs: set<Need>, channels: set<Channel>, n: Need)
    requires Same(needs, channels) && n in needs
    ensures TypeIndex(n.channelType) >= 0 && AsChannel(n) in channels
    ensures AsChannel(n).kind < TYPE_COUNT && AsNeed(AsChannel(n)) == n
  {
  }

  lemma ChannelTwice(needs: set<Need>, channels: set<Channel>, c: Channel)
    requires Same(needs, channels) && c in channels
    ensures c.kind < TYPE_COUNT && AsNeed(c) in needs
    ensures TypeIndex(AsNeed(c).channelType) >= 0 && AsChannel(AsNeed(c)) == c
  {
  }

  lemma SameIsKnown(needs: set<Need>, channels: set<Channel>)
    requires Same(needs, channels)
    ensures KnownNeeds(needs) && Known(channels)
  {
  }

  /** A plan, as an assignment. */
  function AsAssignment(plan: map<Need, nat>, channels: set<Channel>): map<Channel, nat>
    requires Known(channels)
  {
    map c | c in channels && AsNeed(c) in plan :: plan[AsNeed(c)]
  }

  /** An assignment, as a plan. */
  function AsPlan(assignment: map<Channel, nat>, needs: set<Need>): map<Need, nat>
    requires KnownNeeds(needs)
  {
    map n | n in needs && AsChannel(n) in assignment :: assignment[AsChannel(n)]
  }

  lemma PlanServes(needs: set<Need>, channels: set<Channel>, plan: map<Need, nat>)
    requires Same(needs, channels) && plan.Keys <= needs
    ensures |channels - AsAssignment(plan, channels).Keys| == |needs - plan.Keys|
  {
    hide AsChannel, AsNeed, TypeIndex;
    forall n | n in needs
      ensures n in plan <==> AsChannel(n) in AsAssignment(plan, channels)
    {
      NeedTwice(needs, channels, n);
    }
    UnservedSame(needs, plan.Keys, channels, AsAssignment(plan, channels).Keys);
  }

  lemma PlanAssigns(needs: set<Need>, channels: set<Channel>, tuners: seq<Tuner>, site: string, plan: map<Need, nat>)
    requires Same(needs, channels) && IsPlan(needs, tuners, site, plan)
    ensures plan.Keys <= needs && IsAssignment(channels, Offers(tuners, site), AsAssignment(plan, channels))
  {
    hide Same, Offers, AsChannel, AsNeed, TypeIndex, CanRecord, Counts, KindsNamed;
    OffersExact(tuners, site);
    SameIsKnown(needs, channels);
    var assignment := AsAssignment(plan, channels);
    forall c | c in assignment
      ensures AsChannel(AsNeed(c)) == c && c.kind in Offers(tuners, site)[assignment[c]]
    {
      ChannelTwice(needs, channels, c);
      RowTakes(tuners[assignment[c]], site, AsNeed(c));
    }
  }

  lemma AssignmentServes(needs: set<Need>, channels: set<Channel>, assignment: map<Channel, nat>)
    requires Same(needs, channels) && assignment.Keys <= channels
    ensures |needs - AsPlan(assignment, needs).Keys| == |channels - assignment.Keys|
  {
    hide AsChannel, AsNeed, TypeIndex;
    UnservedSame(needs, AsPlan(assignment, needs).Keys, channels, assignment.Keys);
  }

  lemma AssignmentPlans(
    needs: set<Need>, channels: set<Channel>, tuners: seq<Tuner>, site: string, assignment: map<Channel, nat>)
    requires Same(needs, channels) && IsAssignment(channels, Offers(tuners, site), assignment)
    ensures assignment.Keys <= channels && IsPlan(needs, tuners, site, AsPlan(assignment, needs))
  {
    hide Same, Offers, AsChannel, AsNeed, TypeIndex, CanRecord, Counts, KindsNamed;
    OffersExact(tuners, site);
    SameIsKnown(needs, channels);
    var plan := AsPlan(assignment, needs);
    forall n | n in plan
      ensures AsChannel(n).kind < TYPE_COUNT && AsNeed(AsChannel(n)) == n
      ensures CanRecord(tuners[plan[n]], site, n.channelType)
    {
      NeedTwice(needs, channels, n);
      RowTakes(tuners[plan[n]], site, n);
    }
  }

  ghost function ShortfallOf(channels: set<Channel>, tuners: seq<Tuner>, site: string): nat {
    Worst(Levels(channels), CapacityTable(TunersAt(tuners, site))).shortfall
  }

  lemma SomePlan(needs: set<Need>, channels: set<Channel>, tuners: seq<Tuner>, site: string)
    returns (plan: map<Need, nat>)
    requires Same(needs, channels)
    ensures IsPlan(needs, tuners, site, plan)
    ensures |needs - plan.Keys| <= ShortfallOf(channels, tuners, site)
  {
    hide Same, Worst, CountableKinds, TunersAt, CapacityTable, Levels, Offers, Offering, IsPlan, IsAssignment, AsPlan,
      Needing;
    SameIsKnown(needs, channels);
    var k := ShortfallOf(channels, tuners, site);
    WorstBoundsAll(channels, TunersAt(tuners, site));
    forall kinds: set<Kind>
      ensures |Needing(channels, kinds)| <= Offering(Offers(tuners, site), kinds) + k
    {
      OffersOffering(tuners, site, kinds);
    }
    var best := AssignmentExists(channels, Offers(tuners, site), k);
    AssignmentPlans(needs, channels, tuners, site, best);
    AssignmentServes(needs, channels, best);
    plan := AsPlan(best, needs);
  }

  lemma NoPlanDoesBetter(
    needs: set<Need>, channels: set<Channel>, tuners: seq<Tuner>, site: string, plan: map<Need, nat>)
    requires Same(needs, channels) && IsPlan(needs, tuners, site, plan)
    ensures ShortfallOf(channels, tuners, site) <= |needs - plan.Keys|
  {
    hide Same, Worst, CountableKinds, TunersAt, CapacityTable, Levels, Offers, Offering, IsPlan, IsAssignment,
      AsAssignment, Needing;
    SameIsKnown(needs, channels);
    var kinds := WorstIsAttained(channels, TunersAt(tuners, site));
    OffersOffering(tuners, site, kinds);
    PlanAssigns(needs, channels, tuners, site, plan);
    PlanServes(needs, channels, plan);
    NoAssignmentDoesBetter(channels, Offers(tuners, site), AsAssignment(plan, channels), kinds);
  }

  /** The shortfall of the sweep is the least number of needs without a row. */
  lemma ShortfallCounts(needs: set<Need>, channels: set<Channel>, tuners: seq<Tuner>, site: string)
    requires Same(needs, channels)
    ensures LeastUnserved(needs, tuners, site, ShortfallOf(channels, tuners, site))
  {
    hide Same, IsPlan, ShortfallOf;
    var best := SomePlan(needs, channels, tuners, site);
    NoPlanDoesBetter(needs, channels, tuners, site, best);
    forall plan | IsPlan(needs, tuners, site, plan)
      ensures ShortfallOf(channels, tuners, site) <= |needs - plan.Keys|
    {
      NoPlanDoesBetter(needs, channels, tuners, site, plan);
    }
  }

  // ----- jammed types are the worst mask -----

  predicate Broadcast(names: set<string>) {
    names <= {"GR", "BS", "CS", "SKY"}
  }

  lemma OneIn<T>(s: set<T>, x: T)
    ensures |s| == |s - {x}| + if x in s then 1 else 0
  {
    if x in s {
      assert s == (s - {x}) + {x};
    } else {
      assert s == s - {x};
    }
  }

  lemma SizeOfNames(names: set<string>)
    requires Broadcast(names)
    ensures |names| == (if "GR" in names then 1 else 0) + (if "BS" in names then 1 else 0) +
      (if "CS" in names then 1 else 0) + (if "SKY" in names then 1 else 0)
  {
    FourAre(names, "GR", "BS", "CS", "SKY");
  }

  lemma FourAre<T>(s: set<T>, a: T, b: T, c: T, d: T)
    requires s <= {a, b, c, d} && a != b && a != c && a != d && b != c && b != d && c != d
    ensures |s| ==
      (if a in s then 1 else 0) + (if b in s then 1 else 0) + (if c in s then 1 else 0) + (if d in s then 1 else 0)
  {
    OneIn(s, a);
    OneIn(s - {a}, b);
    OneIn(s - {a} - {b}, c);
    OneIn(s - {a} - {b} - {c}, d);
    assert s - {a} - {b} - {c} - {d} == {};
  }

  lemma KindsInAre(names: set<string>)
    ensures forall i: nat | i < TYPE_COUNT :: i in KindsIn(names) <==> CHANNEL_TYPES[i] in names
    ensures Weight(names) == MaskOf(KindsIn(names))
  {
  }

  /** A set of type names as a mask. */
  lemma WeightIsMask(names: set<string>)
    requires Broadcast(names)
    ensures Weight(names) < SUBSETS && KindsOf(Weight(names)) == KindsIn(names)
    ensures BitCount(Weight(names)) == |names|
  {
    hide KindsIn, Weight, Bit, MaskOf;
    KindsInAre(names);
    MaskBits(KindsIn(names));
    SizeOfNames(names);
    assert CHANNEL_TYPES[0] == "GR" && CHANNEL_TYPES[1] == "BS";
    assert CHANNEL_TYPES[2] == "CS" && CHANNEL_TYPES[3] == "SKY";
    assert forall i | i in KindsIn(names) :: i < TYPE_COUNT by {
      OnlyKnownKinds(names);
    }
  }

  lemma OnlyKnownKinds(names: set<string>)
    ensures forall i <- KindsIn(names) :: i < TYPE_COUNT
  {
  }

  lemma WeightsDiffer(a: set<string>, b: set<string>)
    requires Broadcast(a) && Broadcast(b) && Weight(a) == Weight(b)
    ensures a == b
  {
    forall name
      ensures name in a <==> name in b
    {
    }
  }

  /** The list of types, position by position. */
  lemma PrintedAre(mask: nat)
    ensures TypeNames(mask) ==
      (if Bit(mask, 0) then ["GR"] else []) + (if Bit(mask, 1) then ["BS"] else []) +
      (if Bit(mask, 2) then ["CS"] else []) + (if Bit(mask, 3) then ["SKY"] else [])
  {
    hide Bit;
    assert NamesFrom(mask, 4) == [];
    assert NamesFrom(mask, 3) == if Bit(mask, 3) then ["SKY"] else [];
    assert NamesFrom(mask, 2) == (if Bit(mask, 2) then ["CS"] else []) + NamesFrom(mask, 3);
    assert NamesFrom(mask, 1) == (if Bit(mask, 1) then ["BS"] else []) + NamesFrom(mask, 2);
    assert NamesFrom(mask, 0) == (if Bit(mask, 0) then ["GR"] else []) + NamesFrom(mask, 1);
  }

  lemma FilterFour<T>(a: T, b: T, c: T, d: T, p: T -> bool)
    ensures Filter([a, b, c, d], p) ==
      (if p(a) then [a] else []) + (if p(b) then [b] else []) + (if p(c) then [c] else []) + (if p(d) then [d] else [])
  {
    assert [a, b, c, d][..3] == [a, b, c] && [a, b, c][..2] == [a, b] && [a, b][..1] == [a] && [a][..0] == [];
    assert Filter([a], p) == if p(a) then [a] else [];
    assert Filter([a, b], p) == Filter([a], p) + if p(b) then [b] else [];
    assert Filter([a, b, c], p) == Filter([a, b], p) + if p(c) then [c] else [];
  }

  lemma NamesOfMask(mask: nat)
    requires mask < SUBSETS
    ensures var names := set name <- TypeNames(mask);
      Broadcast(names) && KindsIn(names) == KindsOf(mask)
  {
    hide Bit, TypeNames;
    var names := set name <- TypeNames(mask);
    PrintedAre(mask);
    forall i: nat | i < TYPE_COUNT
      ensures CHANNEL_TYPES[i] in names <==> Bit(mask, i)
    {
      NamesAreBits(mask, 0, i);
    }
  }

  /** The printed types of a mask are the names it stands for, in order. */
  lemma PrintedTypes(mask: nat)
    requires mask < SUBSETS
    ensures var names := set name <- TypeNames(mask);
      && Broadcast(names) && Weight(names) == mask
      && TypeNames(mask) == Filter(["GR", "BS", "CS", "SKY"], name => name in names)
  {
    hide Bit, TypeNames, Weight, MaskOf, KindsIn, Filter, Broadcast;
    var names := set name <- TypeNames(mask);
    PrintedAre(mask);
    NamesOfMask(mask);
    KindsRoundTrip(mask);
    KindsInAre(names);
    FilterFour("GR", "BS", "CS", "SKY", name => name in names);
    assert CHANNEL_TYPES[0] == "GR" && CHANNEL_TYPES[1] == "BS";
    assert CHANNEL_TYPES[2] == "CS" && CHANNEL_TYPES[3] == "SKY";
    assert forall i: nat | i < TYPE_COUNT :: CHANNEL_TYPES[i] in names <==> Bit(mask, i);
  }

  ghost function ExcessOf(channels: set<Channel>, tuners: seq<Tuner>, site: string, mask: nat): int
    requires mask < SUBSETS
  {
    Excess(Levels(channels), CapacityTable(TunersAt(tuners, site)), mask)
  }

  lemma LackIsExcess(needs: set<Need>, channels: set<Channel>, tuners: seq<Tuner>, site: string, names: set<string>)
    requires Same(needs, channels) && Broadcast(names)
    ensures Weight(names) < SUBSETS
    ensures Lack(needs, tuners, site, names) == ExcessOf(channels, tuners, site, Weight(names))
  {
    hide Same, Offering, Offers, TunersAt, Levels, CountableKinds, Needing, NeedsOf, RowsFor, DemandIn, KindsIn, Weight,
      FirstKinds;
    WeightIsMask(names);
    NeedsOfSame(needs, channels, names);
    assert forall name <- names :: TypeIndex(name) >= 0;
    RowsAreOffering(tuners, site, names);
    OffersOffering(tuners, site, KindsIn(names));
    DemandInCounts(channels, Weight(names), TYPE_COUNT);
    AllKinds(Weight(names));
  }

  lemma AllKinds(mask: nat)
    ensures FirstKinds(mask, TYPE_COUNT) == KindsOf(mask)
  {
  }

  /** The types the sweep prints are the jammed ones. */
  lemma WorstIsJammed(needs: set<Need>, channels: set<Channel>, tuners: seq<Tuner>, site: string)
    requires Same(needs, channels)
    ensures var v := Worst(Levels(channels), CapacityTable(TunersAt(tuners, site)));
      v.shortfall > 0 ==> IsJammed(needs, tuners, site, v.shortfall, TypeNames(v.mask))
  {
    hide Same, Levels, CapacityTable, TunersAt, Lack, Excess, Weight, BitCount, TypeNames;
    var caps := CapacityTable(TunersAt(tuners, site));
    var v := Worst(Levels(channels), caps);
    SameIsKnown(needs, channels);
    if v.shortfall > 0 {
      var names := set name <- TypeNames(v.mask);
      PrintedTypes(v.mask);
      WeightIsMask(names);
      LackIsExcess(needs, channels, tuners, site, names);
      EmptyMaskHasNoExcess(channels, caps);
      forall other: set<string> | Broadcast(other) && Lack(needs, tuners, site, other) == v.shortfall
        ensures |names| < |other| || (|names| == |other| && Weight(names) <= Weight(other))
      {
        LackIsExcess(needs, channels, tuners, site, other);
        WeightIsMask(other);
        assert Narrower(v.mask, Weight(other));
      }
    }
  }

  lemma JammedIsUnique(
    needs: set<Need>, tuners: seq<Tuner>, site: string, k: int, a: seq<string>, b: seq<string>)
    requires IsJammed(needs, tuners, site, k, a) && IsJammed(needs, tuners, site, k, b)
    ensures a == b
  {
    hide Lack, Weight, Filter;
    var inA, inB := set name <- a, set name <- b;
    FilteredIsBroadcast(a);
    FilteredIsBroadcast(b);
    WeightsDiffer(inA, inB);
  }

  lemma FilteredIsBroadcast(jammed: seq<string>)
    requires var names := set name <- jammed; jammed == Filter(["GR", "BS", "CS", "SKY"], name => name in names)
    ensures Broadcast(set name <- jammed)
  {
    var names := set name <- jammed;
    forall name | name in names
      ensures name in {"GR", "BS", "CS", "SKY"}
    {
      FilterMember(["GR", "BS", "CS", "SKY"], name => name in names, name);
    }
  }

  lemma RowsExist(tuners: seq<Tuner>, site: string)
    ensures TunersAt(tuners, site) != [] <==> exists row <- tuners :: row.site == site
  {
    var here := (u: Tuner) => u.site == site;
    forall row
      ensures row in TunersAt(tuners, site) <==> row.site == site && row in tuners
    {
      FilterMember(tuners, here, row);
    }
    if TunersAt(tuners, site) != [] {
      assert TunersAt(tuners, site)[0] in TunersAt(tuners, site);
    }
  }

  // ----- main results -----

  /** The verdict of the sweep is the shortage of the rows, if there is one. */
  lemma VerdictIsShortage(
    demands: seq<Demand>, tuners: seq<Tuner>, site: string, t: int, k: int, jammed: seq<string>)
    ensures var v := SiteVerdict(demands, tuners, site, t);
      Shortage(demands, tuners, site, t, k, jammed) <==>
        v.shortfall > 0 && k == v.shortfall && jammed == TypeNames(v.mask)
  {
    hide TypeNames, TunersAt, LeastUnserved, IsJammed, Levels, CapacityTable, LiveOn, NeedsAt, Same;
    var needs, channels := NeedsAt(demands, site, t), LiveOn(demands, site, t);
    var v := SiteVerdict(demands, tuners, site, t);
    RowsExist(tuners, site);
    NeedsAreLive(demands, site, t);
    if TunersAt(tuners, site) != [] {
      ShortfallCounts(needs, channels, tuners, site);
      WorstIsJammed(needs, channels, tuners, site);
      if Shortage(demands, tuners, site, t, k, jammed) {
        LeastIsUnique(needs, tuners, site, k, v.shortfall);
        JammedIsUnique(needs, tuners, site, k, jammed, TypeNames(v.mask));
      }
    }
  }

  lemma LeastIsUnique(needs: set<Need>, tuners: seq<Tuner>, site: string, a: int, b: int)
    requires LeastUnserved(needs, tuners, site, a) && LeastUnserved(needs, tuners, site, b)
    ensures a == b
  {
  }

  /** A list is the result exactly when it is canonical and holds, everywhere, just the shortage there is. */
  lemma ResultTellsShortages(list: seq<Overage>, demands: seq<Demand>, tuners: seq<Tuner>)
    ensures IsResult(list, demands, tuners)
       <==> Canonical(list) && forall site, t :: TellsShortage(list, demands, tuners, site, t)
  {
    hide Shortage, SiteVerdict, Canonical;
    forall site, t
      ensures TellsShortage(list, demands, tuners, site, t) <==>
        Reports(list, site, t, SiteVerdict(demands, tuners, site, t))
    {
      TellsVerdict(list, demands, tuners, site, t);
    }
  }

  lemma TellsVerdict(list: seq<Overage>, demands: seq<Demand>, tuners: seq<Tuner>, site: string, t: int)
    ensures TellsShortage(list, demands, tuners, site, t)
       <==> Reports(list, site, t, SiteVerdict(demands, tuners, site, t))
  {
    hide Shortage, SiteVerdict, TypeNames;
    forall k, jammed
      ensures var v := SiteVerdict(demands, tuners, site, t);
        Shortage(demands, tuners, site, t, k, jammed) <==>
          v.shortfall > 0 && k == v.shortfall && jammed == TypeNames(v.mask)
    {
      VerdictIsShortage(demands, tuners, site, t, k, jammed);
    }
    var v := SiteVerdict(demands, tuners, site, t);
    assert v.shortfall > 0 ==> Shortage(demands, tuners, site, t, v.shortfall, TypeNames(v.mask));
  }

  /** A site is silent at `t` exactly when it has no tuner rows or some plan serves every need. */
  lemma SilentIffServed(list: seq<Overage>, demands: seq<Demand>, tuners: seq<Tuner>, site: string, t: int)
    requires IsResult(list, demands, tuners)
    ensures var needs := NeedsAt(demands, site, t);
      (forall o <- list :: !Holds(o, site, t)) <==>
        || (forall row <- tuners :: row.site != site)
        || exists plan :: IsPlan(needs, tuners, site, plan) && plan.Keys == needs
  {
    hide TunersAt, Levels, CapacityTable, LiveOn, NeedsAt, Same, IsPlan;
    var needs, channels := NeedsAt(demands, site, t), LiveOn(demands, site, t);
    assert Reports(list, site, t, SiteVerdict(demands, tuners, site, t));
    RowsExist(tuners, site);
    NeedsAreLive(demands, site, t);
    if TunersAt(tuners, site) != [] {
      ShortfallCounts(needs, channels, tuners, site);
      AllServed(needs, tuners, site, SiteVerdict(demands, tuners, site, t).shortfall);
    }
  }

  lemma AllServed(needs: set<Need>, tuners: seq<Tuner>, site: string, k: int)
    requires LeastUnserved(needs, tuners, site, k)
    ensures k >= 0
    ensures k == 0 <==> exists plan :: IsPlan(needs, tuners, site, plan) && plan.Keys == needs
  {
    hide IsPlan;
    var best :| IsPlan(needs, tuners, site, best) && |needs - best.Keys| == k;
    PlanKeys(needs, tuners, site, best);
    if k == 0 {
      assert needs - best.Keys == {};
    }
    forall plan | IsPlan(needs, tuners, site, plan) && plan.Keys == needs
      ensures k == 0
    {
      assert needs - plan.Keys == {};
    }
  }

  lemma PlanKeys(needs: set<Need>, tuners: seq<Tuner>, site: string, plan: map<Need, nat>)
    requires IsPlan(needs, tuners, site, plan)
    ensures plan.Keys <= needs
  {
  }

  /** The preview holds, everywhere, the shortage after the change if it is greater than the one before. */
  lemma PreviewTellsGrowth(
    list: seq<Overage>, current: seq<Demand>, after: seq<Demand>, tuners: seq<Tuner>, site: string, t: int)
    requires IsPreview(list, current, after, tuners)
    ensures forall o <- list | Holds(o, site, t) ::
      && Shortage(after, tuners, site, t, o.shortfall, o.jammedTypes)
      && forall k, jammed | Shortage(current, tuners, site, t, k, jammed) :: k < o.shortfall
    ensures forall k, jammed | Shortage(after, tuners, site, t, k, jammed) ::
      || (exists o <- list :: Holds(o, site, t))
      || (exists j, names :: Shortage(current, tuners, site, t, j, names) && j >= k)
  {
    hide Shortage, SiteVerdict, TypeNames;
    assert ShowsGrowth(list, current, after, tuners, site, t);
    forall k, jammed
      ensures var v := SiteVerdict(after, tuners, site, t);
        Shortage(after, tuners, site, t, k, jammed) <==>
          v.shortfall > 0 && k == v.shortfall && jammed == TypeNames(v.mask)
      ensures var v := SiteVerdict(current, tuners, site, t);
        Shortage(current, tuners, site, t, k, jammed) <==>
          v.shortfall > 0 && k == v.shortfall && jammed == TypeNames(v.mask)
    {
      VerdictIsShortage(after, tuners, site, t, k, jammed);
      VerdictIsShortage(current, tuners, site, t, k, jammed);
    }
    var was := SiteVerdict(current, tuners, site, t);
    assert was.shortfall > 0 ==> Shortage(current, tuners, site, t, was.shortfall, TypeNames(was.mask));
  }

  /** Candidates whose channels are needed anyway while they run make no difference. */
  lemma NeededCandidatesAddNothing(current: seq<Demand>, candidates: seq<Demand>, tuners: seq<Tuner>, out: seq<Overage>)
    requires IsPreview(out, current, current + candidates, tuners)
    requires forall d <- candidates, t | d.channelType in ["GR", "BS", "CS", "SKY"] && d.startAt <= t < d.endAt ::
      Need(d.channelType, d.channel) in NeedsAt(current, d.site, t)
    ensures out == []
  {
    forall d <- candidates, t | Occupies(d, t)
      ensures ChannelOf(d) in LiveOn(current, d.site, t)
    {
      NeedsAreLive(current, d.site, t);
      assert Need(d.channelType, d.channel) in NeedsAt(current, d.site, t);
    }
    BusyCandidatesAddNothing(current, candidates, tuners, out);
  }
}
