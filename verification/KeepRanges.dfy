/** The parts of a timeline that a cut version keeps. */
module KeepRanges {
  import opened Frames
  import opened Sorting
  import opened Timeline

  /** Less than one frame long: both ends have the same frame number. */
  predicate SubFrame(r: Range) {
    MsToFrame(r.endMs) <= MsToFrame(r.startMs)
  }

  predicate HasFrame(r: Range) {
    !SubFrame(r)
  }

  predicate InRange(r: Range, t: int) {
    r.startMs <= t < r.endMs
  }

  predicate Kept(ranges: seq<Range>, t: int) {
    exists r <- ranges :: InRange(r, t)
  }

  /** The runs after one more kept piece, which extends the last run if it touches it. */
  function Extend(runs: seq<Range>, s: Span): seq<Range> {
    if runs != [] && runs[|runs| - 1].endMs == s.startMs
    then runs[..|runs| - 1] + [Range(runs[|runs| - 1].startMs, s.endMs)]
    else runs + [Range(s.startMs, s.endMs)]
  }

  /** The non-cut pieces, runs of adjacent ones joined. */
  function MergedOf(pieces: seq<Span>): seq<Range> {
    if pieces == [] then []
    else
      var runs, s := MergedOf(pieces[..|pieces| - 1]), pieces[|pieces| - 1];
      if s.cut || s.endMs <= s.startMs then runs else Extend(runs, s)
  }

  function KeepRangesOf(pieces: seq<Span>): seq<Range> {
    Filter(MergedOf(pieces), HasFrame)
  }

  method KeepRanges(pieces: seq<Span>) returns (kept: seq<Range>)
    ensures kept == KeepRangesOf(pieces)
  {
    hide Extend, Filter;
    var buffer := new Range[|pieces|];
    var n: nat := 0;
    for k := 0 to |pieces|
      invariant n <= k && buffer[..n] == MergedOf(pieces[..k])
    {
      assert pieces[..k + 1][..k] == pieces[..k];
      if pieces[k].cut || pieces[k].endMs <= pieces[k].startMs {
        continue;
      }
      n := PushOrExtend(buffer, n, pieces[k]);
    }
    assert pieces[..|pieces|] == pieces;
    var w := DropSubFrames(buffer, n);
    kept := buffer[..w];
  }

  /** Extends the last range in the buffer if the piece continues it, else appends one. */
  method PushOrExtend(buffer: array<Range>, n: nat, s: Span) returns (m: nat)
    requires n < buffer.Length
    modifies buffer
    ensures m <= n + 1
    ensures buffer[..m] == Extend(old(buffer[..n]), s)
  {
    if n > 0 && buffer[n - 1].endMs == s.startMs {
      buffer[n - 1] := Range(buffer[n - 1].startMs, s.endMs);
      return n;
    }
    buffer[n] := Range(s.startMs, s.endMs);
    m := n + 1;
  }

  /** Writes the survivors over the front of the buffer it is reading. */
  method DropSubFrames(buffer: array<Range>, n: nat) returns (w: nat)
    requires n <= buffer.Length
    modifies buffer
    ensures w <= n
    ensures buffer[..w] == Filter(old(buffer[..n]), HasFrame)
  {
    hide SubFrame;
    ghost var runs := buffer[..n];
    w := 0;
    for r := 0 to n
      invariant w <= r
      invariant buffer[..w] == Filter(runs[..r], HasFrame)
      invariant forall i | r <= i < n :: buffer[i] == runs[i]
    {
      assert runs[..r + 1][..r] == runs[..r];
      if !SubFrame(buffer[r]) {
        buffer[w] := buffer[r];
        w := w + 1;
      }
    }
    assert runs[..n] == runs;
  }

  // ----- the joined runs of a gapless timeline -----

  /** Non-empty ranges in ascending order with a gap between neighbours. */
  ghost predicate Separated(ranges: seq<Range>) {
    && (forall r <- ranges :: r.startMs < r.endMs)
    && (forall i, j | 0 <= i < j < |ranges| :: ranges[i].endMs < ranges[j].startMs)
  }

  function TotalMs(ranges: seq<Range>): int {
    if ranges == [] then 0
    else TotalMs(ranges[..|ranges| - 1]) + (ranges[|ranges| - 1].endMs - ranges[|ranges| - 1].startMs)
  }

  function CutMs(pieces: seq<Span>): int {
    if pieces == [] then 0
    else
      var p := pieces[|pieces| - 1];
      CutMs(pieces[..|pieces| - 1]) + if p.cut then p.endMs - p.startMs else 0
  }

  ghost predicate Uncut(pieces: seq<Span>, t: int) {
    exists p <- pieces :: Covers(p, t) && !p.cut
  }

  lemma ExtendIsSeparated(runs: seq<Range>, s: Span)
    requires Separated(runs) && s.startMs < s.endMs && forall r <- runs :: r.endMs <= s.startMs
    ensures Separated(Extend(runs, s)) && forall r <- Extend(runs, s) :: r.endMs <= s.endMs
  {
    if runs != [] {
      assert runs[|runs| - 1] in runs;
    }
  }

  lemma MergedStep(pieces: seq<Span>)
    ensures MergedOf(pieces) ==
      if pieces == [] then []
      else
        var runs, s := MergedOf(pieces[..|pieces| - 1]), pieces[|pieces| - 1];
        if s.cut || s.endMs <= s.startMs then runs else Extend(runs, s)
  {
  }

  lemma {:induction false} MergedIsSeparated(pieces: seq<Span>, start: int, end: int)
    requires Tiles(pieces, start, end)
    ensures Separated(MergedOf(pieces))
    ensures forall r <- MergedOf(pieces) :: r.endMs <= end
  {
    hide Tiles, MergedOf, Extend, Separated;
    MergedStep(pieces);
    if pieces != [] {
      TilesInit(pieces, start, end);
      var s := pieces[|pieces| - 1];
      MergedIsSeparated(pieces[..|pieces| - 1], start, s.startMs);
      ExtendIsSeparated(MergedOf(pieces[..|pieces| - 1]), s);
    } else {
      NothingIsSeparated();
    }
  }

  lemma NothingIsSeparated()
    ensures Separated([])
  {
  }

  /** The runs cover exactly the time that is not cut. */
  lemma {:induction false} MergedCovers(pieces: seq<Span>, start: int, end: int, t: int)
    requires Tiles(pieces, start, end)
    ensures Kept(MergedOf(pieces), t) <==> Uncut(pieces, t)
  {
    if pieces != [] {
      TilesInit(pieces, start, end);
      var init, s := pieces[..|pieces| - 1], pieces[|pieces| - 1];
      assert pieces == init + [s];
      MergedCovers(init, start, s.startMs, t);
      MergedIsSeparated(init, start, s.startMs);
      var runs := MergedOf(init);
      assert Uncut(pieces, t) <==> Uncut(init, t) || (Covers(s, t) && !s.cut);
      if !s.cut {
        ExtendCovers(runs, s, t);
      }
    }
  }

  lemma KeptAppend(runs: seq<Range>, r: Range, t: int)
    ensures Kept(runs + [r], t) <==> Kept(runs, t) || InRange(r, t)
  {
    assert forall x :: x in runs + [r] <==> x in runs || x == r;
  }

  lemma ExtendCovers(runs: seq<Range>, s: Span, t: int)
    requires Separated(runs) && s.startMs < s.endMs
    ensures Kept(Extend(runs, s), t) <==> Kept(runs, t) || Covers(s, t)
  {
    KeptAppend(runs, Range(s.startMs, s.endMs), t);
    if runs != [] {
      var init, last := runs[..|runs| - 1], runs[|runs| - 1];
      assert last in runs;
      assert runs == init + [last];
      KeptAppend(init, last, t);
      KeptAppend(init, Range(last.startMs, s.endMs), t);
    }
  }

  lemma TotalAppend(runs: seq<Range>, r: Range)
    ensures TotalMs(runs + [r]) == TotalMs(runs) + (r.endMs - r.startMs)
  {
    assert (runs + [r])[..|runs|] == runs;
  }

  lemma ExtendTotal(runs: seq<Range>, s: Span)
    ensures TotalMs(Extend(runs, s)) == TotalMs(runs) + (s.endMs - s.startMs)
  {
    TotalAppend(runs, Range(s.startMs, s.endMs));
    if runs != [] {
      TotalAppend(runs[..|runs| - 1], Range(runs[|runs| - 1].startMs, s.endMs));
    }
  }

  lemma {:induction false} MergedTotal(pieces: seq<Span>, start: int, end: int)
    requires Tiles(pieces, start, end)
    ensures TotalMs(MergedOf(pieces)) + CutMs(pieces) == end - start
  {
    if pieces != [] {
      TilesInit(pieces, start, end);
      var init, s := pieces[..|pieces| - 1], pieces[|pieces| - 1];
      MergedTotal(init, start, s.startMs);
      var runs := MergedOf(init);
      if !s.cut {
        ExtendTotal(runs, s);
      }
    }
  }

  // ----- timelines from `TimelineOf` -----

  predicate OnFrame(ms: int) {
    QuantizeMs(ms) == ms
  }

  lemma LayeredIsNonEmpty(spans: seq<Span>)
    requires Layered(spans)
    ensures forall s <- spans :: s.startMs < s.endMs
  {
  }

  lemma FirstFrame()
    ensures OnFrame(0)
  {
  }

  lemma {:induction false} PiecesOnFrames(spans: seq<Span>)
    requires Layered(spans)
    ensures OnFrame(CursorAfter(spans))
    ensures forall p <- PiecesOf(spans) :: OnFrame(p.startMs) && OnFrame(p.endMs)
  {
    hide QuantizeMs, PiecesOf;
    if spans != [] {
      var init, s := spans[..|spans| - 1], spans[|spans| - 1];
      assert spans == init + [s];
      PiecesOnFrames(init);
      PiecesUnfold(init, s);
      CursorUnfold(init, s);
      assert OnFrames(s);
    } else {
      NoPieces();
      FirstFrame();
    }
  }

  lemma {:induction false} MergedOnFrames(pieces: seq<Span>)
    requires forall p <- pieces :: OnFrame(p.startMs) && OnFrame(p.endMs)
    ensures forall r <- MergedOf(pieces) :: OnFrame(r.startMs) && OnFrame(r.endMs)
  {
    if pieces != [] {
      MergedOnFrames(pieces[..|pieces| - 1]);
      assert pieces[|pieces| - 1] in pieces;
    }
  }

  /** A range between different frame boundaries has at least one frame. */
  lemma FramesAreKept(ranges: seq<Range>)
    requires forall r <- ranges :: OnFrame(r.startMs) && OnFrame(r.endMs) && r.startMs < r.endMs
    ensures Filter(ranges, HasFrame) == ranges
  {
    forall r <- ranges
      ensures !SubFrame(r)
    {
      SameOrder(r.endMs, r.startMs);
    }
    FilterAll(ranges, HasFrame);
  }

  lemma {:induction false} FilterAll<T>(s: seq<T>, p: T -> bool)
    requires forall x <- s :: p(x)
    ensures Filter(s, p) == s
  {
    if s != [] {
      assert s[|s| - 1] in s && s == s[..|s| - 1] + [s[|s| - 1]];
      FilterAll(s[..|s| - 1], p);
    }
  }

  /** A run from a frame boundary that holds no whole frame is at most 17 ms long. */
  lemma SubFrameIsShort(r: Range)
    requires OnFrame(r.startMs) && r.startMs < r.endMs && SubFrame(r)
    ensures r.endMs - r.startMs <= 17 && !OnFrame(r.endMs)
  {
    SameOrder(r.endMs, r.startMs);
    QuantizeNear(r.endMs);
  }

  /**
   * The runs of a derived timeline: every run begins on a frame boundary, and only the last can
   * end off one, which is then the unquantised end of the programme.
   */
  lemma DerivedRuns(spans: seq<Span>, durationMs: int) returns (runs: seq<Range>)
    requires Layered(spans)
    ensures runs == MergedOf(TimelineOf(spans, durationMs)) && Separated(runs)
    ensures RunsOnFrames(runs)
    ensures runs != [] && !OnFrame(runs[|runs| - 1].endMs) ==>
              runs[|runs| - 1].endMs == durationMs == LengthOf(spans, durationMs)
  {
    hide CursorAfter, PiecesOf, OnFrame, LengthOf, AimedEnd, Extend, Layered, Separated, MergedOf, Tiles, RunsOnFrames;
    var pieces, all := PiecesOf(spans), TimelineOf(spans, durationMs);
    LayeredIsNonEmpty(spans);
    TimelineTiles(spans, durationMs);
    PiecesTile(spans);
    MergedIsSeparated(pieces, 0, CursorAfter(spans));
    MergedIsSeparated(all, 0, LengthOf(spans, durationMs));
    PiecesOnFrames(spans);
    MergedOnFrames(pieces);
    runs := MergedOf(all);
    if !(CursorAfter(spans) < AimedEnd(spans, durationMs)) {
      assert all == pieces;
      AllOnFrames(runs);
    } else {
      var tail := Span(CursorAfter(spans), AimedEnd(spans, durationMs), "", false);
      assert all[..|all| - 1] == pieces;
      MergedStep(all);
      TilesInit(all, 0, LengthOf(spans, durationMs));
      LastRunEnd(spans, durationMs);
      ExtendOnFrames(MergedOf(pieces), tail);
    }
  }

  /** Every run begins on a frame boundary, and all but the last end on one. */
  ghost predicate RunsOnFrames(runs: seq<Range>) {
    && (forall r <- runs :: OnFrame(r.startMs))
    && (forall i | 0 <= i < |runs| - 1 :: OnFrame(runs[i].endMs))
  }

  lemma AllOnFrames(runs: seq<Range>)
    requires forall r <- runs :: OnFrame(r.startMs) && OnFrame(r.endMs)
    ensures RunsOnFrames(runs) && (runs != [] ==> OnFrame(runs[|runs| - 1].endMs))
  {
    assert runs != [] ==> runs[|runs| - 1] in runs;
  }

  lemma ExtendOnFrames(runs: seq<Range>, s: Span)
    requires forall r <- runs :: OnFrame(r.startMs) && OnFrame(r.endMs)
    requires OnFrame(s.startMs)
    ensures RunsOnFrames(Extend(runs, s))
    ensures Extend(runs, s)[|Extend(runs, s)| - 1].endMs == s.endMs
  {
    if runs != [] {
      assert runs[|runs| - 1] in runs;
    }
  }

  lemma LastRunEnd(spans: seq<Span>, durationMs: int)
    requires Layered(spans) && CursorAfter(spans) < AimedEnd(spans, durationMs)
    ensures AimedEnd(spans, durationMs) == durationMs
  {
    EndsByCursor(spans);
    PiecesTile(spans);
    if spans != [] {
      assert spans[|spans| - 1] in spans;
    }
  }

  /** The run, if any, that `KeepRanges` drops. */
  function DroppedOf(pieces: seq<Span>): seq<Range> {
    var runs := MergedOf(pieces);
    if runs != [] && SubFrame(runs[|runs| - 1]) then [runs[|runs| - 1]] else []
  }

  /**
   * On every derived timeline the kept ranges are separated and cover exactly the time that is
   * not cut, except that one trailing run of at most 17 ms may be dropped; that run ends at the
   * programme length, which is then off the frame grid.
   */
  lemma KeepRangesExact(spans: seq<Span>, durationMs: int)
    requires Layered(spans)
    ensures
      var pieces := TimelineOf(spans, durationMs);
      var kept, dropped := KeepRangesOf(pieces), DroppedOf(pieces);
      && Separated(kept)
      && MergedOf(pieces) == kept + dropped
      && (forall t :: Kept(kept + dropped, t) <==> Uncut(pieces, t))
      && (forall r <- dropped ::
            0 < r.endMs - r.startMs <= 17 && r.endMs == durationMs == LengthOf(spans, durationMs) &&
                !OnFrame(durationMs))
      && TotalMs(kept) + CutMs(pieces) + TotalMs(dropped) == LengthOf(spans, durationMs)
  {
    hide OnFrame, LengthOf, TimelineOf, MergedOf, Uncut, Layered, CutMs, Kept, TotalMs, Separated, Tiles, RunsOnFrames,
      KeepRangesOf, DroppedOf;
    var pieces := TimelineOf(spans, durationMs);
    var runs := DerivedRuns(spans, durationMs);
    LayeredIsNonEmpty(spans);
    TimelineTiles(spans, durationMs);
    MergedTotal(pieces, 0, LengthOf(spans, durationMs));
    forall t
      ensures Kept(runs, t) <==> Uncut(pieces, t)
    {
      MergedCovers(pieces, 0, LengthOf(spans, durationMs), t);
    }
    RunsAreSplit(pieces);
  }

  /** The runs are those kept and the one dropped, if any. */
  lemma RunsAreSplit(pieces: seq<Span>)
    requires Separated(MergedOf(pieces)) && RunsOnFrames(MergedOf(pieces))
    ensures
      var runs, kept, dropped := MergedOf(pieces), KeepRangesOf(pieces), DroppedOf(pieces);
      && Separated(kept) && runs == kept + dropped && TotalMs(runs) == TotalMs(kept) + TotalMs(dropped)
      && forall r <- dropped ::
           runs != [] && r == runs[|runs| - 1] && 0 < r.endMs - r.startMs <= 17 && !OnFrame(r.endMs)
  {
    hide MergedOf, OnFrame, SubFrame, RunsOnFrames, TotalMs, Filter, Separated;
    var runs := MergedOf(pieces);
    NothingTotals();
    if runs == [] {
      NothingFiltered();
      assert runs + [] == runs;
    } else {
      DropTail(runs);
      var init, last := runs[..|runs| - 1], runs[|runs| - 1];
      if SubFrame(last) {
        TotalAppend(init, last);
        TotalAppend([], last);
        assert [] + [last] == [last];
      } else {
        assert runs + [] == runs;
      }
    }
  }

  lemma NothingTotals()
    ensures TotalMs([]) == 0
  {
  }

  lemma NothingFiltered()
    ensures Filter([], HasFrame) == []
  {
  }

  /** Only the last run can be shorter than a frame, and then by rounding alone. */
  lemma DropTail(runs: seq<Range>)
    requires runs != [] && Separated(runs) && RunsOnFrames(runs)
    ensures
      var init, last := runs[..|runs| - 1], runs[|runs| - 1];
      && Filter(runs, HasFrame) == (if SubFrame(last) then init else runs)
      && Separated(init) && runs == init + [last]
      && (SubFrame(last) ==> 0 < last.endMs - last.startMs <= 17 && !OnFrame(last.endMs))
  {
    hide SubFrame, OnFrame, Separated, RunsOnFrames;
    var init, last := runs[..|runs| - 1], runs[|runs| - 1];
    SeparatedInit(runs);
    FramesInit(runs);
    FramesAreKept(init);
    if SubFrame(last) {
      SubFrameIsShort(last);
    }
  }

  lemma SeparatedInit(runs: seq<Range>)
    requires runs != [] && Separated(runs)
    ensures
      var init, last := runs[..|runs| - 1], runs[|runs| - 1];
      && Separated(init) && runs == init + [last] && last.startMs < last.endMs
      && forall r <- init :: r.startMs < r.endMs
  {
    var init, last := runs[..|runs| - 1], runs[|runs| - 1];
    assert runs == init + [last];
    assert last in runs;
  }

  lemma FramesInit(runs: seq<Range>)
    requires runs != [] && RunsOnFrames(runs)
    ensures
      var init, last := runs[..|runs| - 1], runs[|runs| - 1];
      OnFrame(last.startMs) && forall r <- init :: OnFrame(r.startMs) && OnFrame(r.endMs)
  {
    hide OnFrame;
    var init, last := runs[..|runs| - 1], runs[|runs| - 1];
    assert last in runs;
    forall r <- init
      ensures OnFrame(r.startMs) && OnFrame(r.endMs)
    {
      var i :| 0 <= i < |init| && init[i] == r;
      assert runs[i] == r && runs[i] in runs;
    }
  }

  /** What is not cut, in terms of the spans: main content and the spans kept by the user. */
  lemma UncutIsMark(spans: seq<Span>, durationMs: int, t: int)
    requires Layered(spans)
    ensures Uncut(TimelineOf(spans, durationMs), t) <==>
              0 <= t < LengthOf(spans, durationMs) && !MarkAt(spans, t).cut
  {
    var pieces := TimelineOf(spans, durationMs);
    TimelineTiles(spans, durationMs);
    TilesBounded(pieces, 0, LengthOf(spans, durationMs));
    TimelineShows(spans, durationMs, t);
    if 0 <= t < LengthOf(spans, durationMs) {
      var p := PieceAt(pieces, 0, LengthOf(spans, durationMs), t);
    }
  }

  lemma {:induction false} PieceAt(pieces: seq<Span>, start: int, end: int, t: int) returns (p: Span)
    requires Tiles(pieces, start, end) && start <= t < end
    ensures p in pieces && Covers(p, t)
  {
    TilesInit(pieces, start, end);
    p := pieces[|pieces| - 1];
    if t < p.startMs {
      p := PieceAt(pieces[..|pieces| - 1], start, p.startMs, t);
    }
  }

  // ----- in terms of the spans that were given -----

  ghost predicate CutAt(spans: seq<Span>, t: int) {
    exists i :: InForce(spans, t, i) && spans[i].cut
  }

  lemma CutIsMark(spans: seq<Span>, t: int)
    ensures CutAt(spans, t) <==> MarkAt(QuantizedOf(spans), t).cut
  {
    hide QuantizedOf, QuantizeMs, MarkAt;
    MarkIsInForce(spans, t);
  }

  /**
   * What is kept of the recording is the time inside the timeline at which the span in force is not
   * cut, but for one trailing run of at most 17 ms in front of an off-frame programme length.
   */
  lemma KeptTime(spans: seq<Span>, durationMs: int, t: int)
    ensures
      var kept := KeepRangesOf(TimelineOf(QuantizedOf(spans), durationMs));
      exists end :: IsLength(spans, durationMs, end)
        && (Kept(kept, t) ==> 0 <= t < end && !CutAt(spans, t))
        && (0 <= t < end && !CutAt(spans, t) ==>
             Kept(kept, t) || (durationMs - 17 <= t < durationMs == end && QuantizeMs(durationMs) != durationMs))
  {
    hide QuantizedOf, QuantizeMs, TimelineOf, KeepRangesOf, DroppedOf, CutAt, IsLength, Uncut, Separated, LengthOf,
      MergedOf, Layered, TotalMs, CutMs;
    var q := QuantizedOf(spans);
    var pieces := TimelineOf(q, durationMs);
    var kept, dropped := KeepRangesOf(pieces), DroppedOf(pieces);
    QuantizedIsLayered(spans);
    LengthIs(spans, durationMs);
    KeepRangesExact(q, durationMs);
    UncutIsMark(q, durationMs, t);
    CutIsMark(spans, t);
    assert Kept(kept + dropped, t) <==> Kept(kept, t) || Kept(dropped, t);
  }
}
