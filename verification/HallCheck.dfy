/**
 * The capacity check at one instant: type masks, the capacity table, and the search for the most
 * violated set of types. The last lemma states what the reported number means.
 */
module HallCheck {
  import opened Hall

  const CHANNEL_TYPES: seq<string> := ["GR", "BS", "CS", "SKY"]
  const TYPE_COUNT := 4
  const SUBSETS := 16
  const BIT: seq<nat> := [1, 2, 4, 8]

  datatype Tuner = Tuner(site: string, types: seq<string>, isAvailable: bool, isFault: bool) {
    /** Counts towards capacity: present and not permanently broken. */
    predicate Countable() {
      isAvailable && !isFault
    }
  }

  /** How far the worst set of types is over capacity, and which set that is. */
  datatype Verdict = Verdict(shortfall: nat, mask: nat)

  // ----- masks -----

  predicate Bit(mask: nat, i: nat)
    requires i < TYPE_COUNT
  {
    (mask / BIT[i]) % 2 == 1
  }

  function KindsOf(mask: nat): set<Kind> {
    set i | 0 <= i < TYPE_COUNT && Bit(mask, i)
  }

  function MaskOf(kinds: set<Kind>): nat {
    (if 0 in kinds then 1 else 0) + (if 1 in kinds then 2 else 0) +
    (if 2 in kinds then 4 else 0) + (if 3 in kinds then 8 else 0)
  }

  function BitCount(mask: nat): nat {
    (if Bit(mask, 0) then 1 else 0) + (if Bit(mask, 1) then 1 else 0) +
    (if Bit(mask, 2) then 1 else 0) + (if Bit(mask, 3) then 1 else 0)
  }

  lemma MaskBits(kinds: set<Kind>)
    ensures MaskOf(kinds) < SUBSETS
    ensures forall i | 0 <= i < TYPE_COUNT :: Bit(MaskOf(kinds), i) <==> i in kinds
  {
    var b0 := if 0 in kinds then 1 else 0;
    var b1 := if 1 in kinds then 1 else 0;
    var b2 := if 2 in kinds then 1 else 0;
    var b3 := if 3 in kinds then 1 else 0;
    assert MaskOf(kinds) == b0 + 2 * b1 + 4 * b2 + 8 * b3;
    assert MaskOf(kinds) / 2 == b1 + 2 * b2 + 4 * b3;
    assert MaskOf(kinds) / 4 == b2 + 2 * b3;
    assert MaskOf(kinds) / 8 == b3;
  }

  /** Masks and sets of types name the same thing. */
  lemma MaskRoundTrip(kinds: set<Kind>)
    requires forall i <- kinds :: i < TYPE_COUNT
    ensures MaskOf(kinds) < SUBSETS && KindsOf(MaskOf(kinds)) == kinds
  {
    MaskBits(kinds);
  }

  lemma KindsRoundTrip(mask: nat)
    requires mask < SUBSETS
    ensures MaskOf(KindsOf(mask)) == mask
  {
    assert forall i | 0 <= i < TYPE_COUNT :: i in KindsOf(mask) <==> Bit(mask, i);
    assert mask == mask % 2 + 2 * ((mask / 2) % 2) + 4 * ((mask / 4) % 2) + 8 * ((mask / 8) % 2);
  }

  /** The position of a type name among the broadcast types, or -1. */
  function TypeIndex(name: string): (i: int)
    ensures -1 <= i < TYPE_COUNT
    ensures i >= 0 <==> name in CHANNEL_TYPES
    ensures i >= 0 ==> CHANNEL_TYPES[i] == name
  {
    if name == "GR" then 0
    else if name == "BS" then 1
    else if name == "CS" then 2
    else if name == "SKY" then 3
    else -1
  }

  /** The kinds a tuner lists; unknown names are ignored. */
  function KindsNamed(types: seq<string>): set<Kind> {
    set i: nat | i < TYPE_COUNT && CHANNEL_TYPES[i] in types
  }

  /** Setting bit `i`. */
  function WithBit(mask: nat, i: nat): (r: nat)
    requires mask < SUBSETS && i < TYPE_COUNT
  {
    if Bit(mask, i) then mask else mask + BIT[i]
  }

  lemma WithBitAdds(mask: nat, i: nat)
    requires mask < SUBSETS && i < TYPE_COUNT
    ensures WithBit(mask, i) < SUBSETS && KindsOf(WithBit(mask, i)) == KindsOf(mask) + {i}
  {
    KindsRoundTrip(mask);
    MaskRoundTrip(KindsOf(mask) + {i});
    assert WithBit(mask, i) == MaskOf(KindsOf(mask) + {i});
  }

  lemma KindsNamedStep(types: seq<string>, name: string)
    ensures KindsNamed(types + [name])
         == KindsNamed(types) + if TypeIndex(name) >= 0 then {TypeIndex(name) as nat} else {}
  {
  }

  method TypeMask(types: seq<string>) returns (mask: nat)
    ensures mask < SUBSETS && KindsOf(mask) == KindsNamed(types)
  {
    hide KindsOf, KindsNamed, Bit, WithBit;
    mask := 0;
    NoKinds();
    for k := 0 to |types|
      invariant mask < SUBSETS && KindsOf(mask) == KindsNamed(types[..k])
    {
      var i := TypeIndex(types[k]);
      assert types[..k + 1] == types[..k] + [types[k]];
      KindsNamedStep(types[..k], types[k]);
      if i >= 0 {
        WithBitAdds(mask, i);
        mask := WithBit(mask, i);
      }
    }
    assert types[..|types|] == types;
  }

  lemma NoKinds()
    ensures KindsOf(0) == {} == KindsNamed([])
  {
    MaskBits({});
  }

  /** The type names of a mask, in the order of CHANNEL_TYPES. */
  function NamesFrom(mask: nat, i: nat): seq<string>
    requires i <= TYPE_COUNT
    decreases TYPE_COUNT - i
  {
    if i == TYPE_COUNT then []
    else (if Bit(mask, i) then [CHANNEL_TYPES[i]] else []) + NamesFrom(mask, i + 1)
  }

  function TypeNames(mask: nat): seq<string> {
    NamesFrom(mask, 0)
  }

  lemma {:induction false} NamesAreBits(mask: nat, i: nat, j: nat)
    requires i <= TYPE_COUNT && j < TYPE_COUNT
    ensures CHANNEL_TYPES[j] in NamesFrom(mask, i) <==> i <= j && Bit(mask, j)
    decreases TYPE_COUNT - i
  {
    if i < TYPE_COUNT {
      NamesAreBits(mask, i + 1, j);
    }
  }

  /** The printed list of types determines the mask. */
  lemma TypeNamesInjective(a: nat, b: nat)
    requires a < SUBSETS && b < SUBSETS && TypeNames(a) == TypeNames(b)
    ensures a == b
  {
    forall j: nat | j < TYPE_COUNT
      ensures Bit(a, j) <==> Bit(b, j)
    {
      NamesAreBits(a, 0, j);
      NamesAreBits(b, 0, j);
    }
    assert KindsOf(a) == KindsOf(b);
    KindsRoundTrip(a);
    KindsRoundTrip(b);
  }

  // ----- capacity table -----

  /** The countable tuners, as sets of kinds. */
  function CountableKinds(tuners: seq<Tuner>): Tuners {
    if tuners == [] then []
    else
      var last := tuners[|tuners| - 1];
      CountableKinds(tuners[..|tuners| - 1]) + if last.Countable() then [KindsNamed(last.types)] else []
  }

  /** Entry `a` counts the countable tuners that support a type of mask `a`. */
  ghost function CapacityTable(tuners: seq<Tuner>): (caps: seq<nat>)
    ensures |caps| == SUBSETS
  {
    seq(SUBSETS, a requires 0 <= a < SUBSETS => Offering(CountableKinds(tuners), KindsOf(a)))
  }

  predicate Share(a: nat, b: nat) {
    exists i | 0 <= i < TYPE_COUNT :: Bit(a, i) && Bit(b, i)
  }

  lemma OfferingOfOneMore(tuners: Tuners, more: set<Kind>, kinds: set<Kind>)
    ensures Offering(tuners + [more], kinds) == Offering(tuners, kinds) + Hit(more, kinds)
  {
    assert (tuners + [more])[..|tuners|] == tuners;
  }

  lemma ShareIsHit(a: nat, b: nat)
    ensures Share(a, b) <==> Hit(KindsOf(b), KindsOf(a)) == 1
  {
    if i :| 0 <= i < TYPE_COUNT && Bit(a, i) && Bit(b, i) {
      assert i in KindsOf(b) * KindsOf(a);
    } else {
      assert KindsOf(b) * KindsOf(a) == {};
    }
  }

  lemma TableOfOneMore(tuners: seq<Tuner>, a: nat)
    requires tuners != [] && a < SUBSETS
    ensures var last := tuners[|tuners| - 1];
      CapacityTable(tuners)[a] == CapacityTable(tuners[..|tuners| - 1])[a] +
        if last.Countable() then Hit(KindsNamed(last.types), KindsOf(a)) else 0
  {
    var init, last := CountableKinds(tuners[..|tuners| - 1]), tuners[|tuners| - 1];
    if last.Countable() {
      OfferingOfOneMore(init, KindsNamed(last.types), KindsOf(a));
    } else {
      assert CountableKinds(tuners) == init;
    }
  }

  /** A tuner that is not countable, or supports no known type, counts towards no mask. */
  lemma TableUnchanged(tuners: seq<Tuner>)
    requires tuners != []
    requires !tuners[|tuners| - 1].Countable() || KindsNamed(tuners[|tuners| - 1].types) == {}
    ensures CapacityTable(tuners) == CapacityTable(tuners[..|tuners| - 1])
  {
    forall a: nat | a < SUBSETS
      ensures CapacityTable(tuners)[a] == CapacityTable(tuners[..|tuners| - 1])[a]
    {
      TableOfOneMore(tuners, a);
    }
  }

  method Capacities(tuners: seq<Tuner>) returns (caps: seq<nat>)
    ensures caps == CapacityTable(tuners)
  {
    hide CapacityTable, KindsNamed;
    var table := new nat[SUBSETS](_ => 0);
    TableOfNone();
    for k := 0 to |tuners|
      invariant table[..] == CapacityTable(tuners[..k])
    {
      ghost var upTo := tuners[..k + 1];
      assert upTo[..k] == tuners[..k];
      if !tuners[k].Countable() {
        TableUnchanged(upTo);
        continue;
      }
      var mask := TypeMask(tuners[k].types);
      if mask == 0 {
        NoKinds();
        TableUnchanged(upTo);
        continue;
      }
      AddTuner(table, mask, CapacityTable(tuners[..k]));
      forall a: nat | a < SUBSETS
        ensures table[a] == CapacityTable(upTo)[a]
      {
        TableOfOneMore(upTo, a);
      }
    }
    assert tuners[..|tuners|] == tuners;
    caps := table[..];
  }

  lemma TableOfNone()
    ensures CapacityTable([]) == seq(SUBSETS, _ => 0)
  {
  }

  /** The inner loop of `Capacities`: one more tuner for every mask that meets its mask. */
  method AddTuner(table: array<nat>, mask: nat, ghost was: seq<nat>)
    requires table.Length == SUBSETS == |was| && mask < SUBSETS
    requires forall a: nat | a < SUBSETS :: table[a] == was[a]
    modifies table
    ensures forall a: nat | a < SUBSETS :: table[a] == was[a] + Hit(KindsOf(mask), KindsOf(a))
  {
    assert KindsOf(0) == {};
    for a := 1 to SUBSETS
      invariant forall b: nat | b < a :: table[b] == was[b] + Hit(KindsOf(mask), KindsOf(b))
      invariant forall b: nat | a <= b < SUBSETS :: table[b] == was[b]
    {
      ShareIsHit(a, mask);
      if Share(a, mask) {
        table[a] := table[a] + 1;
      }
    }
  }

  // ----- the worst set of types -----

  /** The demand of the first `n` types, counting only those in `mask`. */
  function DemandIn(d: seq<nat>, mask: nat, n: nat): nat
    requires |d| == TYPE_COUNT && n <= TYPE_COUNT
  {
    if n == 0 then 0 else DemandIn(d, mask, n - 1) + if Bit(mask, n - 1) then d[n - 1] else 0
  }

  function Excess(d: seq<nat>, caps: seq<nat>, mask: nat): int
    requires |d| == TYPE_COUNT && |caps| == SUBSETS && mask < SUBSETS
  {
    DemandIn(d, mask, TYPE_COUNT) - caps[mask]
  }

  /** Fewer types first, then the smaller mask. */
  predicate Narrower(a: nat, b: nat) {
    BitCount(a) < BitCount(b) || (BitCount(a) == BitCount(b) && a <= b)
  }

  /** `v` is the largest excess among the non-empty masks below `n`, at its narrowest mask. */
  ghost predicate IsWorstBelow(d: seq<nat>, caps: seq<nat>, n: nat, v: Verdict)
    requires |d| == TYPE_COUNT && |caps| == SUBSETS && n <= SUBSETS
  {
    && (v.shortfall == 0 ==> v.mask == 0)
    && (v.shortfall > 0 ==> 1 <= v.mask < n && Excess(d, caps, v.mask) == v.shortfall)
    && forall a: nat | 1 <= a < n ::
         && Excess(d, caps, a) <= v.shortfall
         && (Excess(d, caps, a) == v.shortfall > 0 ==> Narrower(v.mask, a))
  }

  /** The verdict for demand `d` per type against `caps`: there is exactly one. */
  ghost function Worst(d: seq<nat>, caps: seq<nat>): (v: Verdict)
    requires |d| == TYPE_COUNT && |caps| == SUBSETS
    ensures IsWorstBelow(d, caps, SUBSETS, v)
  {
    WorstExists(d, caps);
    var v: Verdict :| IsWorstBelow(d, caps, SUBSETS, v);
    v
  }

  lemma WorstExists(d: seq<nat>, caps: seq<nat>)
    requires |d| == TYPE_COUNT && |caps| == SUBSETS
    ensures exists v: Verdict :: IsWorstBelow(d, caps, SUBSETS, v)
  {
    var v := WorstBelow(d, caps, SUBSETS);
  }

  lemma {:induction false} WorstBelow(d: seq<nat>, caps: seq<nat>, n: nat) returns (v: Verdict)
    requires |d| == TYPE_COUNT && |caps| == SUBSETS && n <= SUBSETS
    ensures IsWorstBelow(d, caps, n, v)
  {
    v := Verdict(0, 0);
    if n > 1 {
      v := WorstBelow(d, caps, n - 1);
      var e := Excess(d, caps, n - 1);
      if e > v.shortfall || (e == v.shortfall > 0 && !Narrower(v.mask, n - 1)) {
        v := Verdict(e, n - 1);
      }
    }
  }

  lemma WorstIsUnique(d: seq<nat>, caps: seq<nat>, v: Verdict, w: Verdict)
    requires |d| == TYPE_COUNT && |caps| == SUBSETS
    requires IsWorstBelow(d, caps, SUBSETS, v) && IsWorstBelow(d, caps, SUBSETS, w)
    ensures v == w
  {
    if v.shortfall > 0 {
      assert Excess(d, caps, v.mask) <= w.shortfall;
    }
    if w.shortfall > 0 {
      assert Excess(d, caps, w.mask) <= v.shortfall;
    }
  }

  method Evaluate(d: seq<nat>, caps: seq<nat>) returns (best: Verdict)
    requires |d| == TYPE_COUNT && |caps| == SUBSETS
    ensures IsWorstBelow(d, caps, SUBSETS, best)
    ensures best == Worst(d, caps)
  {
    best := Verdict(0, 0);
    for a: nat := 1 to SUBSETS
      invariant IsWorstBelow(d, caps, a, best)
    {
      var sum: int := 0;
      for i := 0 to TYPE_COUNT
        invariant sum == DemandIn(d, a, i)
      {
        if Bit(a, i) {
          sum := sum + d[i];
        }
      }
      var shortfall: int := sum - caps[a];
      if shortfall <= 0 || shortfall < best.shortfall {
        continue;
      }
      if shortfall == best.shortfall && BitCount(a) >= BitCount(best.mask) {
        continue;
      }
      best := Verdict(shortfall, a);
    }
    WorstIsUnique(d, caps, best, Worst(d, caps));
  }

  // ----- what the shortfall means -----

  function OfKind(channels: set<Channel>, kind: Kind): set<Channel> {
    set c | c in channels && c.kind == kind
  }

  /** The number of distinct channels of each type. */
  function Levels(channels: set<Channel>): (d: seq<nat>)
    ensures |d| == TYPE_COUNT
  {
    seq(TYPE_COUNT, i requires 0 <= i < TYPE_COUNT => |OfKind(channels, i)|)
  }

  predicate Known(channels: set<Channel>) {
    forall c <- channels :: c.kind < TYPE_COUNT
  }

  lemma NeedingOneMore(channels: set<Channel>, kinds: set<Kind>, kind: Kind)
    requires kind !in kinds
    ensures |Needing(channels, kinds + {kind})| == |Needing(channels, kinds)| + |OfKind(channels, kind)|
  {
    assert Needing(channels, kinds + {kind}) == Needing(channels, kinds) + OfKind(channels, kind);
  }

  function FirstKinds(mask: nat, n: nat): set<Kind>
    requires n <= TYPE_COUNT
  {
    set i | 0 <= i < n && Bit(mask, i)
  }

  lemma {:induction false} DemandInCounts(channels: set<Channel>, mask: nat, n: nat)
    requires n <= TYPE_COUNT
    ensures DemandIn(Levels(channels), mask, n) == |Needing(channels, FirstKinds(mask, n))|
  {
    if n == 0 {
      assert Needing(channels, FirstKinds(mask, 0)) == {};
    } else {
      DemandInCounts(channels, mask, n - 1);
      NeedingOneMore(channels, FirstKinds(mask, n - 1), n - 1);
      if Bit(mask, n - 1) {
        assert FirstKinds(mask, n) == FirstKinds(mask, n - 1) + {n - 1};
      } else {
        assert FirstKinds(mask, n) == FirstKinds(mask, n - 1);
      }
    }
  }

  lemma {:induction false} OfferingOfKnown(tuners: seq<Tuner>, kinds: set<Kind>, known: set<Kind>)
    requires known == set i | i in kinds && i < TYPE_COUNT
    ensures Offering(CountableKinds(tuners), kinds) == Offering(CountableKinds(tuners), known)
  {
    if tuners != [] {
      var init, last := tuners[..|tuners| - 1], tuners[|tuners| - 1];
      OfferingOfKnown(init, kinds, known);
      if last.Countable() {
        OfferingOfOneMore(CountableKinds(init), KindsNamed(last.types), kinds);
        OfferingOfOneMore(CountableKinds(init), KindsNamed(last.types), known);
        assert KindsNamed(last.types) * kinds == KindsNamed(last.types) * known;
      } else {
        assert CountableKinds(tuners) == CountableKinds(init);
      }
    }
  }

  /** The excess of a mask is the excess demand of its set of types. */
  lemma ExcessOfKinds(channels: set<Channel>, tuners: seq<Tuner>, kinds: set<Kind>) returns (mask: nat)
    requires Known(channels)
    ensures mask < SUBSETS
    ensures Excess(Levels(channels), CapacityTable(tuners), mask)
         == |Needing(channels, kinds)| - Offering(CountableKinds(tuners), kinds)
  {
    var known := set i | i in kinds && i < TYPE_COUNT;
    mask := MaskOf(known);
    MaskRoundTrip(known);
    DemandInCounts(channels, mask, TYPE_COUNT);
    assert KindsOf(mask) == FirstKinds(mask, TYPE_COUNT);
    assert Needing(channels, kinds) == Needing(channels, known);
    OfferingOfKnown(tuners, kinds, known);
  }

  lemma EmptyMaskHasNoExcess(channels: set<Channel>, caps: seq<nat>)
    requires |caps| == SUBSETS
    ensures Excess(Levels(channels), caps, 0) <= 0
  {
    DemandInCounts(channels, 0, TYPE_COUNT);
    assert Needing(channels, FirstKinds(0, TYPE_COUNT)) == {};
  }

  /** The shortfall bounds the excess of every set of types. */
  lemma WorstBoundsAll(channels: set<Channel>, tuners: seq<Tuner>)
    requires Known(channels)
    ensures DeficiencyAtMost(channels, CountableKinds(tuners), Worst(Levels(channels), CapacityTable(tuners)).shortfall)
  {
    hide Levels, CapacityTable, Excess, Needing, Offering;
    var v := Worst(Levels(channels), CapacityTable(tuners));
    EmptyMaskHasNoExcess(channels, CapacityTable(tuners));
    forall kinds: set<Kind>
      ensures |Needing(channels, kinds)| <= Offering(CountableKinds(tuners), kinds) + v.shortfall
    {
      var mask := ExcessOfKinds(channels, tuners, kinds);
      assert Excess(Levels(channels), CapacityTable(tuners), mask) <= v.shortfall;
    }
  }

  /** Some set of types attains the shortfall. */
  lemma WorstIsAttained(channels: set<Channel>, tuners: seq<Tuner>) returns (worst: set<Kind>)
    ensures |Needing(channels, worst)| - Offering(CountableKinds(tuners), worst)
         == Worst(Levels(channels), CapacityTable(tuners)).shortfall
  {
    var v := Worst(Levels(channels), CapacityTable(tuners));
    if v.shortfall == 0 {
      worst := {};
      assert Needing(channels, {}) == {};
      OfferingOfNone(CountableKinds(tuners));
    } else {
      worst := KindsOf(v.mask);
      DemandInCounts(channels, v.mask, TYPE_COUNT);
      assert worst == FirstKinds(v.mask, TYPE_COUNT);
    }
  }

  lemma {:induction false} OfferingOfNone(tuners: Tuners)
    ensures Offering(tuners, {}) == 0
  {
    if tuners != [] {
      OfferingOfNone(tuners[..|tuners| - 1]);
      assert tuners[|tuners| - 1] * {} == {};
    }
  }

  /**
   * The reported shortfall is the least number of active channels that any assignment of
   * distinct countable tuners leaves unserved: some assignment attains it and none does better.
   */
  lemma ShortfallIsLeastUnserved(channels: set<Channel>, tuners: seq<Tuner>) returns (best: map<Channel, nat>)
    requires Known(channels)
    ensures
      var k := Worst(Levels(channels), CapacityTable(tuners)).shortfall;
      && IsAssignment(channels, CountableKinds(tuners), best)
      && |channels - best.Keys| == k
      && forall other | IsAssignment(channels, CountableKinds(tuners), other) :: k <= |channels - other.Keys|
  {
    var k := Worst(Levels(channels), CapacityTable(tuners)).shortfall;
    WorstBoundsAll(channels, tuners);
    var kinds := WorstIsAttained(channels, tuners);
    best := AssignmentExists(channels, CountableKinds(tuners), k);
    forall other | IsAssignment(channels, CountableKinds(tuners), other)
      ensures k <= |channels - other.Keys|
    {
      NoAssignmentDoesBetter(channels, CountableKinds(tuners), other, kinds);
    }
  }

  /** Nothing is reported exactly when every active channel can have a tuner of its own. */
  lemma NoShortfallIffAllServed(channels: set<Channel>, tuners: seq<Tuner>)
    requires Known(channels)
    ensures Worst(Levels(channels), CapacityTable(tuners)).shortfall == 0
       <==> exists all: map<Channel, nat> :: IsAssignment(channels, CountableKinds(tuners), all) && all.Keys == channels
  {
    var best := ShortfallIsLeastUnserved(channels, tuners);
    if |channels - best.Keys| == 0 {
      assert channels - best.Keys == {};
      assert best.Keys == channels;
    }
    forall all: map<Channel, nat> | IsAssignment(channels, CountableKinds(tuners), all) && all.Keys == channels
      ensures Worst(Levels(channels), CapacityTable(tuners)).shortfall == 0
    {
      assert channels - all.Keys == {};
    }
  }
}
