/** The automatic layer made from detected commercials, and the check of the user layer. */
module Layers {
  import opened Common
  import opened Frames
  import opened Sorting
  import opened Timeline
  import opened KeepRanges

  // ----- the automatic layer -----

  /** The time the detected ranges claim. */
  function ClaimedMs(ranges: seq<Range>): int {
    if ranges == [] then 0
    else
      var r := ranges[|ranges| - 1];
      ClaimedMs(ranges[..|ranges| - 1]) + if r.endMs > r.startMs then r.endMs - r.startMs else 0
  }

  /** The programme length, or the last end of a range if that is later. */
  function LongestEnd(ranges: seq<Range>, durationMs: int): int {
    if ranges == [] then durationMs
    else Max(LongestEnd(ranges[..|ranges| - 1], durationMs), ranges[|ranges| - 1].endMs)
  }

  function CmSpans(ranges: seq<Range>): seq<Span> {
    if ranges == [] then []
    else
      var r := ranges[|ranges| - 1];
      CmSpans(ranges[..|ranges| - 1]) +
      if r.endMs <= r.startMs then [] else [Span(r.startMs, r.endMs, LABEL_CM, true)]
  }

  /** A detection that claims more than half of the recording is not believed. */
  function AutoSpansOf(ranges: seq<Range>, durationMs: int): seq<Span> {
    var length := LongestEnd(ranges, durationMs);
    if length <= 0 || ClaimedMs(ranges) * 2 > length then [] else QuantizedOf(CmSpans(ranges))
  }

  method AutoSpans(ranges: seq<Range>, durationMs: int) returns (spans: seq<Span>)
    ensures spans == AutoSpansOf(ranges, durationMs)
  {
    var cutMs, length := 0, durationMs;
    for k := 0 to |ranges|
      invariant cutMs == ClaimedMs(ranges[..k]) && length == LongestEnd(ranges[..k], durationMs)
    {
      var r := ranges[k];
      assert ranges[..k + 1][..k] == ranges[..k];
      if r.endMs > r.startMs {
        cutMs := cutMs + (r.endMs - r.startMs);
      }
      if r.endMs > length {
        length := r.endMs;
      }
    }
    assert ranges[..|ranges|] == ranges;
    if length <= 0 || cutMs * 2 > length {
      return [];
    }
    spans := [];
    for k := 0 to |ranges|
      invariant spans == CmSpans(ranges[..k])
    {
      var r := ranges[k];
      assert ranges[..k + 1][..k] == ranges[..k];
      if r.endMs <= r.startMs {
        continue;
      }
      spans := spans + [Span(r.startMs, r.endMs, LABEL_CM, true)];
    }
    assert ranges[..|ranges|] == ranges;
    spans := Quantized(spans);
  }

  // ----- the user layer -----

  datatype Rejection = Meaningless(span: Span) | Empty(span: Span) | Overlapping(earlier: Span, later: Span)

  /** A label or a cut mark: a span without either would say nothing. */
  predicate Meaningful(s: Span) {
    s.text != "" || s.cut
  }

  predicate Apart(a: Span, b: Span) {
    a.endMs <= b.startMs || b.endMs <= a.startMs
  }

  /** Says something and keeps some length when quantised. */
  predicate Storable(s: Span) {
    Meaningful(s) && QuantizeMs(s.startMs) < QuantizeMs(s.endMs)
  }

  /** What a storable user layer is, in terms of its spans alone. */
  ghost predicate Acceptable(spans: seq<Span>) {
    && (forall s <- spans :: Storable(s))
    && (forall i, j | 0 <= i < j < |spans| :: Apart(QuantizeSpan(spans[i]), QuantizeSpan(spans[j])))
  }

  /** The first span, in the given order, that is meaningless or empties when quantised. */
  ghost predicate FirstBad(spans: seq<Span>, k: nat, rejection: Rejection)
    requires k < |spans|
  {
    && (forall i | 0 <= i < k :: Storable(spans[i]))
    && !Storable(spans[k])
    && rejection == (if !Meaningful(spans[k]) then Meaningless(spans[k]) else Empty(spans[k]))
  }

  method Validate(spans: seq<Span>) returns (r: Result<seq<Span>, Rejection>)
    ensures r.Success? <==> Acceptable(spans)
    ensures r.Success? ==> r.value == QuantizedOf(spans)
    ensures r.Failure? && !r.error.Overlapping? ==> exists k: nat | k < |spans| :: FirstBad(spans, k, r.error)
    ensures r.Failure? && r.error.Overlapping? ==>
              && r.error.earlier in QuantizedOf(spans) && r.error.later in QuantizedOf(spans)
              && r.error.earlier.startMs <= r.error.later.startMs < r.error.earlier.endMs
  {
    hide QuantizedOf, QuantizeMs, Acceptable;
    for k := 0 to |spans|
      invariant forall i | 0 <= i < k :: Storable(spans[i])
    {
      var s := spans[k];
      UnstorableIsUnacceptable(spans, s);
      if s.text == "" && !s.cut {
        assert FirstBad(spans, k, Meaningless(s));
        return Failure(Meaningless(s));
      }
      var q := QuantizeSpan(s);
      if q.endMs <= q.startMs {
        assert FirstBad(spans, k, Empty(s));
        return Failure(Empty(s));
      }
    }
    var quantized := Quantized(spans);
    var i := 1;
    while i < |quantized|
      invariant 1 <= i
      invariant forall k | 0 < k < i && k < |quantized| :: quantized[k - 1].endMs <= quantized[k].startMs
    {
      if quantized[i].startMs < quantized[i - 1].endMs {
        OverlapIsUnacceptable(spans, i);
        return Failure(Overlapping(quantized[i - 1], quantized[i]));
      }
      i := i + 1;
    }
    AscendingIsAcceptable(spans);
    return Success(quantized);
  }

  lemma UnstorableIsUnacceptable(spans: seq<Span>, s: Span)
    requires s in spans
    ensures !Storable(s) ==> !Acceptable(spans)
  {
  }

  lemma OverlapIsUnacceptable(spans: seq<Span>, i: nat)
    requires var q := QuantizedOf(spans); 0 < i < |q| && q[i].startMs < q[i - 1].endMs
    ensures !Acceptable(spans)
    ensures var q := QuantizedOf(spans); q[i - 1] in q && q[i] in q && q[i - 1].startMs <= q[i].startMs
  {
    QuantizedIsLayered(spans);
    if Acceptable(spans) {
      AcceptableIsAscending(spans);
    }
  }

  /** Each span ends before the next begins. */
  ghost predicate Ascending(spans: seq<Span>) {
    forall k | 0 < k < |spans| :: spans[k - 1].endMs <= spans[k].startMs
  }

  function AllQuantized(spans: seq<Span>): seq<Span> {
    seq(|spans|, i requires 0 <= i < |spans| => QuantizeSpan(spans[i]))
  }

  lemma {:induction false} NothingDropped(spans: seq<Span>)
    requires forall s <- spans :: QuantizeMs(s.startMs) < QuantizeMs(s.endMs)
    ensures NonEmptyQuantized(spans) == AllQuantized(spans)
  {
    if spans != [] {
      var init, last := spans[..|spans| - 1], spans[|spans| - 1];
      assert spans == init + [last];
      NothingDropped(init);
      assert AllQuantized(spans) == AllQuantized(init) + [QuantizeSpan(last)];
    }
  }

  lemma QuantizedPermutes(spans: seq<Span>)
    requires forall s <- spans :: QuantizeMs(s.startMs) < QuantizeMs(s.endMs)
    ensures multiset(QuantizedOf(spans)) == multiset(AllQuantized(spans))
  {
    NothingDropped(spans);
    ByStartIsPreorder();
    SortedIsSorted(NonEmptyQuantized(spans), ByStart);
  }

  /** Disjoint spans leave sorted neighbours apart. */
  lemma AcceptableIsAscending(spans: seq<Span>)
    requires Acceptable(spans)
    ensures Ascending(QuantizedOf(spans))
  {
    QuantizedPermutes(spans);
    PairwiseOfPermutation(AllQuantized(spans), QuantizedOf(spans), Apart);
    var q := QuantizedOf(spans);
    QuantizedIsLayered(spans);
    forall k | 0 < k < |q|
      ensures q[k - 1].endMs <= q[k].startMs
    {
      assert Apart(q[k - 1], q[k]);
      assert q[k - 1] in q && q[k] in q;
    }
  }

  lemma {:induction false} AscendingIsDisjoint(q: seq<Span>, i: nat, j: nat)
    requires Ascending(q) && i < j < |q|
    requires forall s <- q :: s.startMs < s.endMs
    ensures q[i].endMs <= q[j].startMs
    decreases j - i
  {
    assert q[j - 1].endMs <= q[j].startMs;
    if i < j - 1 {
      AscendingIsDisjoint(q, i, j - 1);
      assert q[j - 1] in q;
    }
  }

  /** Comparing sorted neighbours is enough: it finds every overlap. */
  lemma AscendingIsAcceptable(spans: seq<Span>)
    requires forall s <- spans :: Storable(s)
    requires Ascending(QuantizedOf(spans))
    ensures Acceptable(spans)
  {
    var q := QuantizedOf(spans);
    QuantizedIsLayered(spans);
    forall i, j | 0 <= i < j < |q|
      ensures Apart(q[i], q[j])
    {
      AscendingIsDisjoint(q, i, j);
    }
    QuantizedPermutes(spans);
    PairwiseOfPermutation(q, AllQuantized(spans), Apart);
    forall i, j | 0 <= i < j < |spans|
      ensures Apart(QuantizeSpan(spans[i]), QuantizeSpan(spans[j]))
    {
      assert Apart(AllQuantized(spans)[i], AllQuantized(spans)[j]);
    }
  }

  // ----- order and repetition -----

  lemma {:induction false} AllQuantizedPermutes(a: seq<Span>, b: seq<Span>)
    requires multiset(a) == multiset(b)
    ensures multiset(AllQuantized(a)) == multiset(AllQuantized(b))
    decreases |a|
  {
    hide QuantizeSpan;
    SameElements(a, b);
    if a != [] {
      var j := FindLast(a, b);
      AllQuantizedPermutes(a[..|a| - 1], Without(b, j));
      assert AllQuantized(a) == AllQuantized(a[..|a| - 1]) + [QuantizeSpan(a[|a| - 1])];
      assert AllQuantized(b) == AllQuantized(b[..j]) + [QuantizeSpan(b[j])] + AllQuantized(b[j + 1..]);
      assert AllQuantized(Without(b, j)) == AllQuantized(b[..j]) + AllQuantized(b[j + 1..]);
    }
  }

  /** The order in which the user layer is sent does not matter. */
  lemma ValidationIgnoresOrder(a: seq<Span>, b: seq<Span>)
    requires multiset(a) == multiset(b) && Acceptable(a)
    ensures Acceptable(b) && QuantizedOf(a) == QuantizedOf(b)
  {
    SameElements(a, b);
    AllQuantizedPermutes(a, b);
    assert Pairwise(AllQuantized(a), Apart);
    PairwiseOfPermutation(AllQuantized(a), AllQuantized(b), Apart);
    forall i, j | 0 <= i < j < |b|
      ensures Apart(QuantizeSpan(b[i]), QuantizeSpan(b[j]))
    {
      assert Apart(AllQuantized(b)[i], AllQuantized(b)[j]);
    }
    QuantizedPermutes(a);
    QuantizedPermutes(b);
    StrictlyAscending(a);
    QuantizedIsLayered(b);
    StrictOrderIsUnique(QuantizedOf(a), QuantizedOf(b), ByStart);
  }

  lemma StrictlyAscending(spans: seq<Span>)
    requires Acceptable(spans)
    ensures var q := QuantizedOf(spans);
      forall i, j | 0 <= i < j < |q| :: !ByStart(q[j], q[i])
  {
    var q := QuantizedOf(spans);
    AcceptableIsAscending(spans);
    QuantizedIsLayered(spans);
    forall i, j | 0 <= i < j < |q|
      ensures !ByStart(q[j], q[i])
    {
      AscendingIsDisjoint(q, i, j);
      assert q[i] in q;
    }
  }

  /** What validation returns is accepted again, unchanged. */
  lemma ValidatedIsFixpoint(spans: seq<Span>)
    requires Acceptable(spans)
    ensures Acceptable(QuantizedOf(spans)) && QuantizedOf(QuantizedOf(spans)) == QuantizedOf(spans)
  {
    var q := QuantizedOf(spans);
    QuantizedIsLayered(spans);
    QuantizedFixpoint(q);
    AcceptableIsAscending(spans);
    forall s <- q
      ensures Storable(s)
    {
      QuantizedMembers(spans, s);
    }
    AscendingIsAcceptable(q);
  }

  // ----- adopting the automatic layer -----

  /** Detected ranges that do not overlap; empty ones claim nothing. */
  ghost predicate DisjointRanges(ranges: seq<Range>) {
    forall i, j | 0 <= i < j < |ranges| && ranges[i].startMs < ranges[i].endMs && ranges[j].startMs < ranges[j].endMs ::
      ranges[i].endMs <= ranges[j].startMs || ranges[j].endMs <= ranges[i].startMs
  }

  lemma {:induction false} CmSpanSources(ranges: seq<Range>, s: Span)
    requires s in CmSpans(ranges)
    ensures exists r <- ranges :: s == Span(r.startMs, r.endMs, LABEL_CM, true) && r.startMs < r.endMs
  {
    var init, last := ranges[..|ranges| - 1], ranges[|ranges| - 1];
    assert ranges == init + [last];
    if s in CmSpans(init) {
      CmSpanSources(init, s);
    }
  }

  lemma ApartFromLast(ranges: seq<Range>, q: Span)
    requires ranges != [] && DisjointRanges(ranges)
    requires ranges[|ranges| - 1].startMs < ranges[|ranges| - 1].endMs
    requires q in NonEmptyQuantized(CmSpans(ranges[..|ranges| - 1]))
    ensures Apart(q, QuantizeSpan(Span(ranges[|ranges| - 1].startMs, ranges[|ranges| - 1].endMs, LABEL_CM, true)))
  {
    var init, last := ranges[..|ranges| - 1], ranges[|ranges| - 1];
    NonEmptyMembers(CmSpans(init), q);
    var p :| p in CmSpans(init) && QuantizeSpan(p) == q;
    CmSpanSources(init, p);
    var r :| r in init && p == Span(r.startMs, r.endMs, LABEL_CM, true) && r.startMs < r.endMs;
    var i :| 0 <= i < |init| && init[i] == r;
    assert ranges[i] == r;
    QuantizedApart(p, Span(last.startMs, last.endMs, LABEL_CM, true));
  }

  lemma {:induction false} CmSpansApart(ranges: seq<Range>)
    requires DisjointRanges(ranges)
    ensures Pairwise(NonEmptyQuantized(CmSpans(ranges)), Apart)
  {
    hide QuantizeMs;
    if ranges != [] {
      var init, last := ranges[..|ranges| - 1], ranges[|ranges| - 1];
      CmSpansApart(init);
      if last.startMs < last.endMs {
        assert CmSpans(ranges)[..|CmSpans(ranges)| - 1] == CmSpans(init);
        forall q | q in NonEmptyQuantized(CmSpans(init))
          ensures Apart(q, QuantizeSpan(Span(last.startMs, last.endMs, LABEL_CM, true)))
        {
          ApartFromLast(ranges, q);
        }
      } else {
        assert CmSpans(ranges) == CmSpans(init);
      }
    }
  }

  /** Quantisation is monotone, so what is apart stays apart. */
  lemma QuantizedApart(a: Span, b: Span)
    requires Apart(a, b)
    ensures Apart(QuantizeSpan(a), QuantizeSpan(b))
  {
    if a.endMs <= b.startMs {
      QuantizeMonotone(a.endMs, b.startMs);
    } else {
      QuantizeMonotone(b.endMs, a.startMs);
    }
  }

  /**
   * Taking the automatic layer over as the user layer is accepted unchanged and leaves the
   * derived timeline as it was.
   */
  lemma AdoptingChangesNothing(ranges: seq<Range>, durationMs: int)
    requires DisjointRanges(ranges)
    ensures
      var auto := AutoSpansOf(ranges, durationMs);
      && Acceptable(auto)
      && QuantizedOf(auto) == auto
      && TimelineOf(QuantizedOf(QuantizedOf(auto)), durationMs) == TimelineOf(QuantizedOf(auto), durationMs)
  {
    var auto := AutoSpansOf(ranges, durationMs);
    var cm := CmSpans(ranges);
    ByStartIsPreorder();
    QuantizedIsLayered(cm);
    if auto != [] {
      QuantizedFixpoint(auto);
      forall s <- auto
        ensures Meaningful(s)
      {
        QuantizedMembers(cm, s);
        var p :| p in cm && QuantizeSpan(p) == s;
        CmSpanSources(ranges, p);
      }
      CmSpansApart(ranges);
      SortedIsSorted(NonEmptyQuantized(cm), ByStart);
      PairwiseOfPermutation(NonEmptyQuantized(cm), auto, Apart);
      forall i, j | 0 <= i < j < |auto|
        ensures Apart(QuantizeSpan(auto[i]), QuantizeSpan(auto[j]))
      {
        assert auto[i] in auto && auto[j] in auto && Apart(auto[i], auto[j]);
      }
    }
  }

  // ----- how much the automatic layer can cut -----

  function SpanMs(spans: seq<Span>): int {
    if spans == [] then 0
    else SpanMs(spans[..|spans| - 1]) + (spans[|spans| - 1].endMs - spans[|spans| - 1].startMs)
  }

  lemma {:induction false} SpanMsConcat(a: seq<Span>, b: seq<Span>)
    ensures SpanMs(a + b) == SpanMs(a) + SpanMs(b)
  {
    if b == [] {
      assert a + b == a;
    } else {
      assert (a + b)[..|a + b| - 1] == a + b[..|b| - 1];
      SpanMsConcat(a, b[..|b| - 1]);
    }
  }

  lemma {:induction false} SpanMsPermutes(a: seq<Span>, b: seq<Span>)
    requires multiset(a) == multiset(b)
    ensures SpanMs(a) == SpanMs(b)
    decreases |a|
  {
    SameElements(a, b);
    if a != [] {
      var j := FindLast(a, b);
      SpanMsPermutes(a[..|a| - 1], Without(b, j));
      assert b == b[..j] + [b[j]] + b[j + 1..];
      SpanMsConcat(b[..j] + [b[j]], b[j + 1..]);
      SpanMsConcat(b[..j], [b[j]]);
      SpanMsConcat(b[..j], b[j + 1..]);
      assert [b[j]][..0] == [];
    }
  }

  /** The pieces of a timeline cut no more than the spans it is made from. */
  lemma {:induction false} PiecesCutAtMost(spans: seq<Span>)
    requires forall s <- spans :: s.startMs < s.endMs
    ensures CutMs(PiecesOf(spans)) <= SpanMs(spans)
  {
    if spans != [] {
      var init, s := spans[..|spans| - 1], spans[|spans| - 1];
      assert s in spans && spans == init + [s];
      PiecesCutAtMost(init);
      PiecesUnfold(init, s);
      LastPiecesCut(PiecesOf(init), s, CursorAfter(init));
    }
  }

  lemma LastPiecesCut(pieces: seq<Span>, s: Span, cursor: int)
    requires s.startMs < s.endMs
    ensures CutMs(pieces + LastPieces(s, cursor)) <= CutMs(pieces) + (s.endMs - s.startMs)
  {
    hide CutMs;
    var start := Max(s.startMs, cursor);
    var stop := Max(s.endMs, start);
    var all := pieces;
    if start > cursor {
      CutAppend(all, Span(cursor, start, "", false));
      all := all + [Span(cursor, start, "", false)];
    }
    if stop > start {
      CutAppend(all, Span(start, stop, s.text, s.cut));
      all := all + [Span(start, stop, s.text, s.cut)];
    }
    assert all == pieces + LastPieces(s, cursor);
  }

  lemma CutAppend(pieces: seq<Span>, p: Span)
    ensures CutMs(pieces + [p]) == CutMs(pieces) + if p.cut then p.endMs - p.startMs else 0
  {
    assert (pieces + [p])[..|pieces|] == pieces;
  }

  /** Rounding both ends lengthens a span by less than a frame and a bit. */
  lemma QuantizedLength(a: int, b: int)
    requires a < b
    ensures QuantizeMs(b) - QuantizeMs(a) <= b - a + 34
  {
    if b > 0 {
      QuantizeNear(b);
    }
    if a > 0 {
      QuantizeNear(a);
    }
  }

  lemma {:induction false} QuantizedClaim(ranges: seq<Range>)
    ensures SpanMs(NonEmptyQuantized(CmSpans(ranges))) <= ClaimedMs(ranges) + 34 * |NonEmptyQuantized(CmSpans(ranges))|
  {
    hide QuantizeMs;
    if ranges != [] {
      var init, r := ranges[..|ranges| - 1], ranges[|ranges| - 1];
      QuantizedClaim(init);
      if r.startMs < r.endMs {
        var s := Span(r.startMs, r.endMs, LABEL_CM, true);
        var before := NonEmptyQuantized(CmSpans(init));
        assert CmSpans(ranges)[..|CmSpans(ranges)| - 1] == CmSpans(init);
        QuantizedLength(r.startMs, r.endMs);
        if QuantizeSpan(s).startMs < QuantizeSpan(s).endMs {
          assert NonEmptyQuantized(CmSpans(ranges)) == before + [QuantizeSpan(s)];
          assert (before + [QuantizeSpan(s)])[..|before|] == before;
        } else {
          assert NonEmptyQuantized(CmSpans(ranges)) == before;
        }
      } else {
        assert CmSpans(ranges) == CmSpans(init);
      }
    }
  }

  lemma TailIsNotCut(spans: seq<Span>, durationMs: int)
    ensures CutMs(TimelineOf(spans, durationMs)) == CutMs(PiecesOf(spans))
  {
    var pieces, all := PiecesOf(spans), TimelineOf(spans, durationMs);
    if |all| > |pieces| {
      assert all[..|all| - 1] == pieces;
    } else {
      assert all == pieces;
    }
  }

  /** The timeline of a quantised layer cuts no more than the quantised spans. */
  lemma LayerCutsAtMost(spans: seq<Span>, durationMs: int)
    ensures CutMs(TimelineOf(QuantizedOf(QuantizedOf(spans)), durationMs)) <= SpanMs(NonEmptyQuantized(spans))
    ensures |QuantizedOf(spans)| == |NonEmptyQuantized(spans)|
  {
    hide OnFrames, CutMs, SpanMs, TimelineOf, PiecesOf, TotalPreorder;
    var layer := QuantizedOf(spans);
    QuantizedIsLayered(spans);
    ByStartIsPreorder();
    SortedIsSorted(NonEmptyQuantized(spans), ByStart);
    QuantizedFixpoint(layer);
    assert |multiset(layer)| == |multiset(NonEmptyQuantized(spans))|;
    SpanMsPermutes(NonEmptyQuantized(spans), layer);
    PiecesCutAtMost(layer);
    TailIsNotCut(layer, durationMs);
  }

  /**
   * Whatever was detected, overlapping ranges included, the automatic timeline cuts at most half of
   * the recording, but for the rounding of the span ends.
   */
  lemma AutomaticCutIsBounded(ranges: seq<Range>, durationMs: int)
    ensures
      var auto := AutoSpansOf(ranges, durationMs);
      var cut := CutMs(TimelineOf(QuantizedOf(auto), durationMs));
      if auto == [] then cut == 0 else 2 * cut <= LongestEnd(ranges, durationMs) + 68 * |auto|
  {
    hide QuantizedOf, NonEmptyQuantized, CutMs, TimelineOf, LongestEnd, ClaimedMs, CmSpans, SpanMs;
    if AutoSpansOf(ranges, durationMs) == [] {
      NoSpans(durationMs);
    } else {
      LayerCutsAtMost(CmSpans(ranges), durationMs);
      QuantizedClaim(ranges);
    }
  }

  lemma NoSpans(durationMs: int)
    ensures CutMs(TimelineOf(QuantizedOf([]), durationMs)) == 0
  {
    QuantizedFixpoint([]);
    TailIsNotCut([], durationMs);
  }

  // ----- what the automatic layer cuts -----

  /** Claims add up. */
  lemma {:induction false} ClaimsAddUp(a: seq<Range>, b: seq<Range>)
    ensures ClaimedMs(a + b) == ClaimedMs(a) + ClaimedMs(b)
    ensures forall r :: ClaimedMs([r]) == Max(0, r.endMs - r.startMs)
  {
    hide ClaimedMs;
    NoClaim();
    forall r
      ensures ClaimedMs([r]) == Max(0, r.endMs - r.startMs)
    {
      OneMoreClaim([], r);
      assert [] + [r] == [r];
    }
    if b == [] {
      assert a + b == a;
    } else {
      var init, last := b[..|b| - 1], b[|b| - 1];
      ClaimsAddUp(a, init);
      OneMoreClaim(init, last);
      OneMoreClaim(a + init, last);
      assert b == init + [last] && a + b == a + init + [last];
    }
  }

  lemma NoClaim()
    ensures ClaimedMs([]) == 0
  {
  }

  lemma OneMoreClaim(ranges: seq<Range>, r: Range)
    ensures ClaimedMs(ranges + [r]) == ClaimedMs(ranges) + Max(0, r.endMs - r.startMs)
  {
    assert (ranges + [r])[..|ranges|] == ranges;
  }

  /** The detection is judged against the programme length or the greatest end, whichever is later. */
  lemma {:induction false} LongestEndIs(ranges: seq<Range>, durationMs: int)
    ensures LongestEnd(ranges, durationMs) >= durationMs
    ensures forall r <- ranges :: r.endMs <= LongestEnd(ranges, durationMs)
    ensures LongestEnd(ranges, durationMs) == durationMs ||
      exists r <- ranges :: r.endMs == LongestEnd(ranges, durationMs)
  {
    if ranges != [] {
      var init, last := ranges[..|ranges| - 1], ranges[|ranges| - 1];
      assert ranges == init + [last];
      LongestEndIs(init, durationMs);
    }
  }

  /** The detection is believed: it claims at most half of the longer of programme and detection. */
  predicate Believed(ranges: seq<Range>, durationMs: int) {
    0 < LongestEnd(ranges, durationMs) && ClaimedMs(ranges) * 2 <= LongestEnd(ranges, durationMs)
  }

  lemma {:induction false} CmSpansAre(ranges: seq<Range>, s: Span)
    ensures s in CmSpans(ranges) <==>
      s.startMs < s.endMs && s.text == "CM" && s.cut && Range(s.startMs, s.endMs) in ranges
  {
    if ranges != [] {
      CmSpansAre(ranges[..|ranges| - 1], s);
      assert ranges == ranges[..|ranges| - 1] + [ranges[|ranges| - 1]];
    }
  }

  /** The automatic layer holds exactly the detected ranges, moved to frames, unless the detection is not believed. */
  lemma AutoSpansAre(ranges: seq<Range>, durationMs: int, s: Span)
    ensures s in AutoSpansOf(ranges, durationMs) <==>
      && Believed(ranges, durationMs) && s.startMs < s.endMs && s.text == "CM" && s.cut
      && exists r <- ranges :: s.startMs == QuantizeMs(r.startMs) && s.endMs == QuantizeMs(r.endMs)
  {
    hide CmSpans, QuantizedOf, QuantizeMs, ClaimedMs, LongestEnd;
    QuantizedMembers(CmSpans(ranges), s);
    forall c
      ensures c in CmSpans(ranges) <==>
        c.startMs < c.endMs && c.text == "CM" && c.cut && Range(c.startMs, c.endMs) in ranges
    {
      CmSpansAre(ranges, c);
    }
    forall r | r in ranges && QuantizeMs(r.startMs) < QuantizeMs(r.endMs)
      ensures Span(r.startMs, r.endMs, "CM", true) in CmSpans(ranges)
    {
      if r.endMs <= r.startMs {
        QuantizeMonotone(r.endMs, r.startMs);
      }
    }
    assert forall r: Range :: QuantizeSpan(Span(r.startMs, r.endMs, "CM", true)).startMs == QuantizeMs(r.startMs);
  }

  /** The automatic timeline shows a commercial exactly where a believed detection has one. */
  lemma AutomaticMark(ranges: seq<Range>, durationMs: int, t: int)
    ensures MarkAt(QuantizedOf(AutoSpansOf(ranges, durationMs)), t) ==
      if Believed(ranges, durationMs) && exists r <- ranges :: QuantizeMs(r.startMs) <= t < QuantizeMs(r.endMs)
      then Mark("CM", true) else Mark("", false)
  {
    hide QuantizedOf, QuantizeMs, Believed, AutoSpansOf, MarkAt;
    var spans := AutoSpansOf(ranges, durationMs);
    AutoIsLayered(ranges, durationMs);
    MarkIsInForce(spans, t);
    forall s
      ensures s in spans <==>
        && Believed(ranges, durationMs) && s.startMs < s.endMs && s.text == "CM" && s.cut
        && exists r <- ranges :: s.startMs == QuantizeMs(r.startMs) && s.endMs == QuantizeMs(r.endMs)
    {
      AutoSpansAre(ranges, durationMs, s);
    }
    assert forall s <- spans :: OnFrames(s);
    if Believed(ranges, durationMs) {
      forall r | r in ranges && QuantizeMs(r.startMs) <= t < QuantizeMs(r.endMs)
        ensures exists s <- spans :: Reaches(s, t)
      {
        var s := Span(QuantizeMs(r.startMs), QuantizeMs(r.endMs), "CM", true);
        assert s in spans && OnFrames(s);
      }
    }
  }

  lemma AutoIsLayered(ranges: seq<Range>, durationMs: int)
    ensures Layered(AutoSpansOf(ranges, durationMs))
  {
    QuantizedIsLayered(CmSpans(ranges));
  }

  /** A span that keeps some length is meaningless exactly when, alone, it leaves nothing but main content. */
  lemma MeaninglessIsMain(s: Span)
    requires QuantizeMs(s.startMs) < QuantizeMs(s.endMs)
    ensures !Meaningful(s) <==> forall t :: MarkAt(QuantizedOf([s]), t) == MAIN
  {
    hide QuantizedOf, QuantizeMs, MarkAt;
    var first := QuantizeMs(s.startMs);
    assert Reaches(s, first) && [s][0] == s;
    assert MarkAt(QuantizedOf([s]), first) == Mark(s.text, s.cut) by {
      MarkIsInForce([s], first);
    }
    forall t
      ensures var m := MarkAt(QuantizedOf([s]), t); SaysAt([s], t, m.text, m.cut)
    {
      MarkIsInForce([s], t);
    }
  }
}
