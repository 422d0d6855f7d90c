/**
 * The time axis of the original recording and that of the cut version. `keep` are the ranges
 * the cut version retains. The maps take any list; for ranges that are non-empty, ascending and
 * without overlap, which is what `KeepRanges` returns, they count kept time.
 */
module KeepMap {
  import opened Common
  import opened Timeline
  import opened KeepRanges

  ghost predicate Ordered(keep: seq<Range>) {
    && (forall r <- keep :: r.startMs < r.endMs)
    && (forall i, j | 0 <= i < j < |keep| :: keep[i].endMs <= keep[j].startMs)
  }

  function Clamp(x: int, low: int, high: int): int
    requires low <= high
  {
    if x < low then low else if x > high then high else x
  }

  /** The amount of kept time before `t`. */
  function KeptBefore(keep: seq<Range>, t: int): int {
    if keep == [] then 0
    else
      var r := keep[|keep| - 1];
      var here := if r.startMs <= r.endMs then Clamp(t - r.startMs, 0, r.endMs - r.startMs) else 0;
      KeptBefore(keep[..|keep| - 1], t) + here
  }

  /** The kept instants in [from, t). */
  function KeptInstants(keep: seq<Range>, from: int, t: int): set<int> {
    set x | from <= x < t && Kept(keep, x)
  }

  lemma OrderedInit(keep: seq<Range>)
    requires Ordered(keep) && keep != []
    ensures Ordered(keep[..|keep| - 1])
    ensures keep[|keep| - 1].startMs < keep[|keep| - 1].endMs
    ensures forall r <- keep[..|keep| - 1] :: r.endMs <= keep[|keep| - 1].startMs
  {
    assert keep[|keep| - 1] in keep;
  }

  // ----- order and range of the map -----

  lemma {:induction false} KeptBeforeMonotone(keep: seq<Range>, a: int, b: int)
    requires Ordered(keep) && a <= b
    ensures 0 <= KeptBefore(keep, a) <= KeptBefore(keep, b) <= TotalMs(keep)
  {
    if keep != [] {
      OrderedInit(keep);
      KeptBeforeMonotone(keep[..|keep| - 1], a, b);
    }
  }

  /** Before every range nothing is kept yet. */
  lemma {:induction false} KeptBeforeNone(keep: seq<Range>, t: int)
    requires Ordered(keep) && forall r <- keep :: t <= r.startMs
    ensures KeptBefore(keep, t) == 0
  {
    if keep != [] {
      var init, r := keep[..|keep| - 1], keep[|keep| - 1];
      OrderedInit(keep);
      assert r in keep && forall q <- init :: q in keep;
      KeptBeforeNone(init, t);
    }
  }

  /** After every range everything is. */
  lemma {:induction false} KeptBeforeEnds(keep: seq<Range>, t: int)
    requires Ordered(keep) && forall r <- keep :: r.endMs <= t
    ensures KeptBefore(keep, t) == TotalMs(keep)
  {
    if keep != [] {
      var init, r := keep[..|keep| - 1], keep[|keep| - 1];
      OrderedInit(keep);
      assert r in keep && forall q <- init :: q in keep;
      KeptBeforeEnds(init, t);
    }
  }

  /** Each kept millisecond counts once, any other not at all. */
  lemma {:induction false} KeptBeforeStep(keep: seq<Range>, t: int)
    requires Ordered(keep)
    ensures KeptBefore(keep, t + 1) == KeptBefore(keep, t) + if Kept(keep, t) then 1 else 0
  {
    if keep != [] {
      var init, r := keep[..|keep| - 1], keep[|keep| - 1];
      OrderedInit(keep);
      assert keep == init + [r];
      KeptBeforeStep(init, t);
      KeptAppend(init, r, t);
    }
  }

  /** Between two instants it counts the kept ones. */
  lemma {:induction false} KeptBetween(keep: seq<Range>, a: int, b: int)
    requires Ordered(keep) && a <= b
    ensures KeptBefore(keep, b) - KeptBefore(keep, a) == |KeptInstants(keep, a, b)|
    decreases b - a
  {
    hide Ordered, KeptBefore, Kept;
    if a < b {
      KeptBetween(keep, a, b - 1);
      KeptBeforeStep(keep, b - 1);
      assert KeptInstants(keep, a, b) == KeptInstants(keep, a, b - 1) + if Kept(keep, b - 1) then {b - 1} else {};
    } else {
      assert KeptInstants(keep, a, b) == {};
    }
  }

  /** `KeptBefore` really counts kept instants. */
  lemma KeptBeforeCounts(keep: seq<Range>, from: int, t: int)
    requires Ordered(keep)
    requires forall r <- keep :: from <= r.startMs
    ensures KeptBefore(keep, t) == |KeptInstants(keep, from, t)|
  {
    hide KeptBefore, Kept;
    KeptBeforeNone(keep, from);
    if from <= t {
      KeptBetween(keep, from, t);
    } else {
      KeptBeforeNone(keep, t);
      assert KeptInstants(keep, from, t) == {};
    }
  }

  lemma {:induction false} NoneKeptBetween(keep: seq<Range>, a: int, b: int)
    requires Ordered(keep) && a <= b
    ensures (forall t | a <= t < b :: !Kept(keep, t)) <==> KeptBefore(keep, a) == KeptBefore(keep, b)
    decreases b - a
  {
    if a < b {
      KeptBeforeStep(keep, a);
      NoneKeptBetween(keep, a + 1, b);
      KeptBeforeMonotone(keep, a + 1, b);
    }
  }

  // ----- MapMs -----

  lemma {:induction false} KeptBeforeSplit(keep: seq<Range>, i: nat, t: int)
    requires Ordered(keep) && i <= |keep|
    requires forall k | i <= k < |keep| :: t <= keep[k].startMs
    ensures KeptBefore(keep, t) == KeptBefore(keep[..i], t)
  {
    if i < |keep| {
      OrderedInit(keep);
      KeptBeforeSplit(keep[..|keep| - 1], i, t);
      assert keep[..|keep| - 1][..i] == keep[..i];
    } else {
      assert keep[..i] == keep;
    }
  }

  /** The first range that `t` has not passed, or the number of ranges. */
  function FirstOpen(keep: seq<Range>, t: int): (i: nat)
    ensures i <= |keep|
    ensures forall k | 0 <= k < i :: keep[k].startMs <= t && keep[k].endMs <= t
    ensures i < |keep| ==> t < keep[i].startMs || t < keep[i].endMs
  {
    if keep == [] || t < keep[0].startMs || t < keep[0].endMs then 0 else 1 + FirstOpen(keep[1..], t)
  }

  /** The ranges passed count in full, the next one up to `t`. */
  function MapOf(keep: seq<Range>, t: int): int {
    var i := FirstOpen(keep, t);
    TotalMs(keep[..i]) + if i < |keep| then Max(0, t - keep[i].startMs) else 0
  }

  lemma FirstOpenIs(keep: seq<Range>, t: int, i: nat)
    requires i <= |keep| && forall k | 0 <= k < i :: keep[k].startMs <= t && keep[k].endMs <= t
    requires i < |keep| ==> t < keep[i].startMs || t < keep[i].endMs
    ensures FirstOpen(keep, t) == i
  {
    var j := FirstOpen(keep, t);
    assert !(j < i) && !(i < j);
  }

  /** On ordered ranges the map counts the kept time before `t`. */
  lemma MapOfOrdered(keep: seq<Range>, t: int)
    requires Ordered(keep)
    ensures MapOf(keep, t) == KeptBefore(keep, t)
  {
    var i := FirstOpen(keep, t);
    if i < |keep| && keep[i].startMs <= t {
      KeptBeforeInside(keep, i, t);
    } else {
      forall k | i <= k < |keep|
        ensures t <= keep[k].startMs
      {
        assert keep[i] in keep;
      }
      KeptBeforeSplit(keep, i, t);
      KeptBeforeEnds(keep[..i], t);
    }
  }

  method MapMs(keep: seq<Range>, t: int) returns (out: int)
    ensures out == MapOf(keep, t)
    ensures Ordered(keep) ==> out == KeptBefore(keep, t)
  {
    if Ordered(keep) {
      MapOfOrdered(keep, t);
    }
    EmptyTotal(keep);
    out := 0;
    for i := 0 to |keep|
      invariant out == TotalMs(keep[..i])
      invariant forall k | 0 <= k < i :: keep[k].startMs <= t && keep[k].endMs <= t
    {
      var r := keep[i];
      TotalStep(keep, i);
      if t < r.startMs {
        FirstOpenIs(keep, t, i);
        return;
      }
      if t >= r.endMs {
        out := out + (r.endMs - r.startMs);
        continue;
      }
      FirstOpenIs(keep, t, i);
      return out + (t - r.startMs);
    }
    FirstOpenIs(keep, t, |keep|);
  }

  // ----- UnmapMs -----

  /** `t` is where the kept time `x` begins: inside a range, or the very end once all is used up. */
  ghost predicate IsUnmapped(keep: seq<Range>, x: int, t: int) {
    if keep == [] then t == 0
    else
      && KeptBefore(keep, t) == Clamp(x, 0, Max(0, TotalMs(keep)))
      && (if x < TotalMs(keep) then Kept(keep, t) else t == keep[|keep| - 1].endMs)
  }

  /** There is only one such instant. */
  lemma UnmappedIsUnique(keep: seq<Range>, x: int, a: int, b: int)
    requires Ordered(keep) && IsUnmapped(keep, x, a) && IsUnmapped(keep, x, b)
    ensures a == b
  {
    if keep != [] && x < TotalMs(keep) && a != b {
      var low, high := if a < b then a else b, if a < b then b else a;
      KeptBeforeStep(keep, low);
      KeptBeforeMonotone(keep, low + 1, high);
      assert false;
    }
  }

  lemma {:induction false} TotalUpTo(keep: seq<Range>, i: nat)
    requires Ordered(keep) && i <= |keep|
    ensures 0 <= TotalMs(keep[..i]) <= TotalMs(keep)
    ensures i < |keep| ==> TotalMs(keep[..i]) < TotalMs(keep)
  {
    if i == |keep| {
      assert keep[..i] == keep;
      KeptBeforeMonotone(keep, 0, 0);
    } else {
      OrderedInit(keep);
      TotalUpTo(keep[..|keep| - 1], i);
      assert keep[..|keep| - 1][..i] == keep[..i];
    }
  }

  /** An instant in the range `i`, or at the end of the last one. */
  lemma KeptBeforeInside(keep: seq<Range>, i: nat, t: int)
    requires Ordered(keep) && i < |keep|
    requires keep[i].startMs <= t <= keep[i].endMs
    ensures KeptBefore(keep, t) == TotalMs(keep[..i]) + (t - keep[i].startMs)
  {
    assert keep[i] in keep;
    KeptBeforeSplit(keep, i + 1, t);
    assert keep[..i + 1][..i] == keep[..i];
    assert forall r <- keep[..i] :: r.endMs <= t;
    assert forall r <- keep[..i] :: r in keep;
    KeptBeforeEnds(keep[..i], t);
  }

  /** The range from `i` on in which the kept time `x` ends up; the last one if it is too much. */
  function FirstFilled(keep: seq<Range>, x: int, i: nat): (r: nat)
    requires i < |keep|
    ensures i <= r < |keep|
    ensures forall k | i < k <= r :: TotalMs(keep[..k]) <= x
    ensures x < TotalMs(keep[..r + 1]) || r == |keep| - 1
    decreases |keep| - i
  {
    if x < TotalMs(keep[..i + 1]) || i == |keep| - 1 then i else FirstFilled(keep, x, i + 1)
  }

  function UnmapOf(keep: seq<Range>, x: int): int {
    if keep == [] then 0
    else if x <= 0 then keep[0].startMs
    else
      var i := FirstFilled(keep, x, 0);
      keep[i].startMs + Min(Max(x - TotalMs(keep[..i]), 0), keep[i].endMs - keep[i].startMs)
  }

  lemma FirstFilledIs(keep: seq<Range>, x: int, i: nat)
    requires i < |keep| && forall k | 0 < k <= i :: TotalMs(keep[..k]) <= x
    requires x < TotalMs(keep[..i + 1]) || i == |keep| - 1
    ensures FirstFilled(keep, x, 0) == i
  {
    var j := FirstFilled(keep, x, 0);
    assert !(j < i) && !(i < j);
  }

  /** On ordered ranges it is the one instant that the specification allows. */
  lemma UnmapOfOrdered(keep: seq<Range>, x: int)
    requires Ordered(keep)
    ensures IsUnmapped(keep, x, UnmapOf(keep, x))
  {
    hide TotalMs;
    EmptyTotal(keep);
    if keep != [] {
      assert keep[0] in keep;
      TotalStep(keep, 0);
      if x <= 0 {
        UnmappedInside(keep, x, 0, 0);
      } else {
        var i := FirstFilled(keep, x, 0);
        assert keep[i] in keep;
        UnmappedInside(keep, x, i, Min(Max(x - TotalMs(keep[..i]), 0), keep[i].endMs - keep[i].startMs));
      }
    }
  }

  method UnmapMs(keep: seq<Range>, t: int) returns (out: int)
    ensures out == UnmapOf(keep, t)
    ensures Ordered(keep) ==> IsUnmapped(keep, t, out)
  {
    hide TotalMs;
    if Ordered(keep) {
      UnmapOfOrdered(keep, t);
    }
    out := 0;
    EmptyTotal(keep);
    if |keep| == 0 || t <= 0 {
      if |keep| == 0 {
        return;
      }
      return keep[0].startMs;
    }
    var offset := 0;
    for i := 0 to |keep|
      invariant i < |keep|
      invariant offset == TotalMs(keep[..i])
      invariant forall k | 0 < k <= i :: TotalMs(keep[..k]) <= t
    {
      var r := keep[i];
      var length := r.endMs - r.startMs;
      var end := offset + length;
      TotalStep(keep, i);
      if t < end || i == |keep| - 1 {
        FirstFilledIs(keep, t, i);
        var within := t - offset;
        if within < 0 {
          within := 0;
        }
        if within > length {
          within := length;
        }
        return r.startMs + within;
      }
      offset := end;
    }
    assert false;
  }

  lemma EmptyTotal(keep: seq<Range>)
    ensures TotalMs(keep[..0]) == 0
  {
  }

  lemma TotalStep(keep: seq<Range>, i: nat)
    requires i < |keep|
    ensures TotalMs(keep[..i + 1]) == TotalMs(keep[..i]) + (keep[i].endMs - keep[i].startMs)
  {
    assert keep[..i + 1][..i] == keep[..i];
  }

  lemma UnmappedInside(keep: seq<Range>, t: int, i: nat, within: int)
    requires Ordered(keep) && i < |keep|
    requires within == Clamp(t - TotalMs(keep[..i]), 0, Max(0, keep[i].endMs - keep[i].startMs))
    requires i > 0 ==> TotalMs(keep[..i]) <= t
    requires t < TotalMs(keep[..i + 1]) || i == |keep| - 1
    ensures IsUnmapped(keep, t, keep[i].startMs + within)
  {
    var at := keep[i].startMs + within;
    assert keep[i] in keep;
    KeptBeforeInside(keep, i, at);
    TotalStep(keep, i);
    TotalUpTo(keep, i);
    TotalUpTo(keep, i + 1);
    EmptyTotal(keep);
    if i == |keep| - 1 {
      assert keep[..i + 1] == keep;
    }
    if t < TotalMs(keep) {
      assert InRange(keep[i], at);
    }
  }

  // ----- the two maps together -----

  /** From the original to the cut version and back: a kept instant returns to itself. */
  lemma UnmapAfterMapKept(keep: seq<Range>, t: int, back: int)
    requires Ordered(keep) && Kept(keep, t)
    requires IsUnmapped(keep, KeptBefore(keep, t), back)
    ensures back == t
  {
    KeptBeforeStep(keep, t);
    KeptBeforeMonotone(keep, t, t + 1);
    UnmappedIsUnique(keep, KeptBefore(keep, t), back, t);
  }

  /** An instant that is not kept returns as the start of the next kept range. */
  lemma UnmapAfterMapGap(keep: seq<Range>, t: int, i: nat, back: int)
    requires Ordered(keep) && i < |keep|
    requires t < keep[i].startMs
    requires forall k | 0 <= k < i :: keep[k].endMs <= t
    requires IsUnmapped(keep, KeptBefore(keep, t), back)
    ensures back == keep[i].startMs
  {
    var start := keep[i].startMs;
    assert keep[i] in keep;
    forall x | t <= x < start
      ensures !Kept(keep, x)
    {
      forall r <- keep
        ensures !InRange(r, x)
      {
        var k :| 0 <= k < |keep| && keep[k] == r;
        assert k < i || k == i || keep[i].endMs <= keep[k].startMs;
      }
    }
    NoneKeptBetween(keep, t, start);
    assert InRange(keep[i], start);
    UnmapAfterMapKept(keep, start, back);
  }

  /** After the last range every instant returns as its end. */
  lemma UnmapAfterMapEnd(keep: seq<Range>, t: int, back: int)
    requires Ordered(keep) && keep != []
    requires keep[|keep| - 1].endMs <= t
    requires IsUnmapped(keep, KeptBefore(keep, t), back)
    ensures back == keep[|keep| - 1].endMs
  {
    OrderedInit(keep);
    forall r <- keep
      ensures r.endMs <= t
    {
      var i :| 0 <= i < |keep| && keep[i] == r;
      assert r in keep;
    }
    KeptBeforeEnds(keep, t);
    KeptBeforeMonotone(keep, t, t);
  }

  // ----- the ranges of a derived timeline -----

  /** What `KeepRanges` returns for a derived timeline is what the maps ask for, and fits the timeline. */
  lemma KeptRangesAreOrdered(spans: seq<Span>, durationMs: int)
    requires Layered(spans)
    ensures
      var pieces := TimelineOf(spans, durationMs);
      && Ordered(KeepRangesOf(pieces))
      && TotalMs(KeepRangesOf(pieces)) == LengthOf(spans, durationMs) - CutMs(pieces) - TotalMs(DroppedOf(pieces))
  {
    hide Layered, LengthOf, CutMs, TimelineOf, KeepRangesOf, DroppedOf;
    KeepRangesExact(spans, durationMs);
  }
}
