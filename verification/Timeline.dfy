/**
 * Chapter spans and the timeline derived from them. A span is a half-open interval of the
 * original recording in milliseconds; a timeline covers the programme without gaps.
 */
module Timeline {
  import opened Common
  import opened Frames
  import opened Sorting

  const LABEL_CM := "CM"

  /** `text` is the label; it is empty when the span has none. */
  datatype Span = Span(startMs: int, endMs: int, text: string, cut: bool)

  datatype Range = Range(startMs: int, endMs: int)

  predicate Covers(s: Span, t: int) {
    s.startMs <= t < s.endMs
  }

  // ----- quantisation -----

  function QuantizeSpan(s: Span): Span {
    Span(QuantizeMs(s.startMs), QuantizeMs(s.endMs), s.text, s.cut)
  }

  predicate ByStart(a: Span, b: Span) {
    a.startMs <= b.startMs
  }

  /** The quantised spans that are not empty, in the given order. */
  function NonEmptyQuantized(spans: seq<Span>): seq<Span> {
    if spans == [] then []
    else
      var q := QuantizeSpan(spans[|spans| - 1]);
      NonEmptyQuantized(spans[..|spans| - 1]) + if q.endMs <= q.startMs then [] else [q]
  }

  function QuantizedOf(spans: seq<Span>): seq<Span> {
    Sorted(NonEmptyQuantized(spans), ByStart)
  }

  method Quantized(spans: seq<Span>) returns (out: seq<Span>)
    ensures out == QuantizedOf(spans)
  {
    out := [];
    for k := 0 to |spans|
      invariant out == NonEmptyQuantized(spans[..k])
    {
      assert spans[..k + 1][..k] == spans[..k];
      var q := QuantizeSpan(spans[k]);
      if q.endMs <= q.startMs {
        continue;
      }
      out := out + [q];
    }
    assert spans[..|spans|] == spans;
    out := Sorted(out, ByStart);
  }

  predicate OnFrames(s: Span) {
    QuantizeMs(s.startMs) == s.startMs && QuantizeMs(s.endMs) == s.endMs
  }

  /** Non-empty spans between frame boundaries, by start. */
  ghost predicate Layered(spans: seq<Span>) {
    && (forall s <- spans :: 0 <= s.startMs < s.endMs && OnFrames(s))
    && (forall i, j | 0 <= i < j < |spans| :: spans[i].startMs <= spans[j].startMs)
  }

  ghost predicate Disjoint(spans: seq<Span>) {
    forall i, j | 0 <= i < j < |spans| :: spans[i].endMs <= spans[j].startMs || spans[j].endMs <= spans[i].startMs
  }

  lemma ByStartIsPreorder()
    ensures TotalPreorder(ByStart)
  {
  }

  lemma {:induction false} NonEmptyMembers(spans: seq<Span>, q: Span)
    ensures q in NonEmptyQuantized(spans) <==> q.startMs < q.endMs && exists s <- spans :: QuantizeSpan(s) == q
  {
    if spans != [] {
      var init, last := spans[..|spans| - 1], spans[|spans| - 1];
      assert spans == init + [last];
      NonEmptyMembers(init, q);
    }
  }

  /** The quantised layer holds exactly the quantised spans that did not become empty. */
  lemma QuantizedMembers(spans: seq<Span>, q: Span)
    ensures q in QuantizedOf(spans) <==> q.startMs < q.endMs && exists s <- spans :: QuantizeSpan(s) == q
  {
    ByStartIsPreorder();
    SortedIsSorted(NonEmptyQuantized(spans), ByStart);
    SameElements(QuantizedOf(spans), NonEmptyQuantized(spans));
    NonEmptyMembers(spans, q);
  }

  lemma QuantizedIsLayered(spans: seq<Span>)
    ensures Layered(QuantizedOf(spans))
  {
    ByStartIsPreorder();
    SortedIsSorted(NonEmptyQuantized(spans), ByStart);
    forall q <- QuantizedOf(spans)
      ensures 0 <= q.startMs < q.endMs && OnFrames(q)
    {
      QuantizedMembers(spans, q);
      var s :| s in spans && QuantizeSpan(s) == q;
      QuantizeIdempotent(s.startMs);
      QuantizeIdempotent(s.endMs);
    }
    assert forall i, j | 0 <= i < j < |QuantizedOf(spans)| :: ByStart(QuantizedOf(spans)[i], QuantizedOf(spans)[j]);
  }

  lemma {:induction false} LayeredUnchanged(spans: seq<Span>)
    requires forall s <- spans :: s.startMs < s.endMs && OnFrames(s)
    ensures NonEmptyQuantized(spans) == spans
  {
    if spans != [] {
      var init, last := spans[..|spans| - 1], spans[|spans| - 1];
      assert spans == init + [last];
      LayeredUnchanged(init);
      assert QuantizeSpan(last) == last;
    }
  }

  /** Quantising again changes nothing, order included. */
  lemma QuantizedFixpoint(spans: seq<Span>)
    requires Layered(spans)
    ensures QuantizedOf(spans) == spans
  {
    ByStartIsPreorder();
    LayeredUnchanged(spans);
    SortedFixpoint(spans, ByStart);
  }

  /** Spans that tie on their start keep the order in which they were given. */
  lemma QuantizedIsStable(spans: seq<Span>, x: Span)
    ensures Ties(QuantizedOf(spans), x, ByStart) == Ties(NonEmptyQuantized(spans), x, ByStart)
  {
    ByStartIsPreorder();
    SortedIsStable(NonEmptyQuantized(spans), x, ByStart);
  }

  // ----- the derived timeline -----

  /** Where the pieces made from `spans` end. */
  function CursorAfter(spans: seq<Span>): int {
    if spans == [] then 0
    else
      var cursor := CursorAfter(spans[..|spans| - 1]);
      var start := Max(spans[|spans| - 1].startMs, cursor);
      var stop := Max(spans[|spans| - 1].endMs, start);
      if stop > start then stop else cursor
  }

  /** The pieces made from `spans`, with main content between them. */
  function PiecesOf(spans: seq<Span>): seq<Span> {
    if spans == [] then []
    else
      var s := spans[|spans| - 1];
      var cursor := CursorAfter(spans[..|spans| - 1]);
      var start := Max(s.startMs, cursor);
      var stop := Max(s.endMs, start);
      PiecesOf(spans[..|spans| - 1])
      + (if start > cursor then [Span(cursor, start, "", false)] else [])
      + (if stop > start then [Span(start, stop, s.text, s.cut)] else [])
  }

  /** The end the code aims for: the programme length, the end of the last span, at least 0. */
  function AimedEnd(spans: seq<Span>, durationMs: int): int {
    var end := if |spans| > 0 && spans[|spans| - 1].endMs > durationMs then spans[|spans| - 1].endMs else durationMs;
    if end < 0 then 0 else end
  }

  function TimelineOf(spans: seq<Span>, durationMs: int): seq<Span> {
    PiecesOf(spans) +
    if CursorAfter(spans) < AimedEnd(spans, durationMs)
    then [Span(CursorAfter(spans), AimedEnd(spans, durationMs), "", false)] else []
  }

  /** Non-empty pieces from `start` to `end`, each beginning where the one before it ends. */
  ghost predicate Tiles(pieces: seq<Span>, start: int, end: int) {
    && (forall p <- pieces :: p.startMs < p.endMs)
    && (forall i, j | 0 <= i && j == i + 1 < |pieces| :: pieces[i].endMs == pieces[j].startMs)
    && (if pieces == [] then start == end else pieces[0].startMs == start && pieces[|pieces| - 1].endMs == end)
  }

  lemma TilesAppend(pieces: seq<Span>, start: int, end: int, p: Span)
    requires Tiles(pieces, start, end) && p.startMs == end && p.startMs < p.endMs
    ensures Tiles(pieces + [p], start, p.endMs)
  {
  }

  lemma TilesInit(pieces: seq<Span>, start: int, end: int)
    requires Tiles(pieces, start, end) && pieces != []
    ensures Tiles(pieces[..|pieces| - 1], start, pieces[|pieces| - 1].startMs)
    ensures pieces[|pieces| - 1].startMs < pieces[|pieces| - 1].endMs == end
  {
    var n := |pieces| - 1;
    assert pieces[n] in pieces;
    if n > 0 {
      assert pieces[n - 1].endMs == pieces[n].startMs;
    }
  }

  lemma {:induction false} PiecesTile(spans: seq<Span>)
    requires forall s <- spans :: s.startMs < s.endMs
    ensures Tiles(PiecesOf(spans), 0, CursorAfter(spans))
    ensures CursorAfter(spans) >= 0
  {
    hide PiecesOf, CursorAfter, Tiles;
    if spans != [] {
      var init, s := spans[..|spans| - 1], spans[|spans| - 1];
      assert s in spans && spans == init + [s];
      PiecesTile(init);
      PiecesUnfold(init, s);
      CursorUnfold(init, s);
      LastPiecesTile(PiecesOf(init), s, CursorAfter(init));
    } else {
      NoPieces();
      NothingTiles();
    }
  }

  lemma NothingTiles()
    ensures Tiles([], 0, 0)
  {
  }

  lemma LastPiecesTile(pieces: seq<Span>, s: Span, cursor: int)
    requires Tiles(pieces, 0, cursor)
    ensures
      var start := Max(s.startMs, cursor);
      var stop := Max(s.endMs, start);
      s.startMs < s.endMs ==> Tiles(pieces + LastPieces(s, cursor), 0, if stop > start then stop else cursor)
  {
    hide Tiles;
    var start := Max(s.startMs, cursor);
    var stop := Max(s.endMs, start);
    var all := pieces;
    if start > cursor {
      TilesAppend(all, 0, cursor, Span(cursor, start, "", false));
      all := all + [Span(cursor, start, "", false)];
    }
    if stop > start {
      TilesAppend(all, 0, start, Span(start, stop, s.text, s.cut));
      all := all + [Span(start, stop, s.text, s.cut)];
    }
    assert all == pieces + LastPieces(s, cursor);
  }

  /** The greatest of `least` and the ends of the spans. */
  function GreatestEnd(spans: seq<Span>, least: int): int {
    if spans == [] then least else Max(GreatestEnd(spans[..|spans| - 1], least), spans[|spans| - 1].endMs)
  }

  lemma {:induction false} CursorIsGreatestEnd(spans: seq<Span>)
    requires forall s <- spans :: s.startMs < s.endMs
    ensures CursorAfter(spans) == GreatestEnd(spans, 0)
  {
    if spans != [] {
      CursorIsGreatestEnd(spans[..|spans| - 1]);
      assert spans[|spans| - 1] in spans;
    }
  }

  lemma {:induction false} GreatestEndBounds(spans: seq<Span>, least: int)
    ensures least <= GreatestEnd(spans, least)
    ensures forall s <- spans :: s.endMs <= GreatestEnd(spans, least)
    ensures GreatestEnd(spans, least) == least || exists s <- spans :: s.endMs == GreatestEnd(spans, least)
  {
    if spans != [] {
      var init, last := spans[..|spans| - 1], spans[|spans| - 1];
      assert spans == init + [last];
      GreatestEndBounds(init, least);
    }
  }

  /** The length of the timeline: no known time is cut off. */
  function LengthOf(spans: seq<Span>, durationMs: int): int {
    GreatestEnd(spans, Max(0, durationMs))
  }

  /** The derived timeline covers [0, length) without gap or overlap, overlapping spans included. */
  lemma TimelineTiles(spans: seq<Span>, durationMs: int)
    requires forall s <- spans :: s.startMs < s.endMs
    ensures Tiles(TimelineOf(spans, durationMs), 0, LengthOf(spans, durationMs))
  {
    hide PiecesOf, CursorAfter, GreatestEnd, Tiles;
    PiecesTile(spans);
    CursorIsGreatestEnd(spans);
    NothingEnds(0);
    GreatestEndOfMax(spans, 0, Max(0, durationMs));
    GreatestEndBounds(spans, 0);
    if spans != [] {
      assert spans[|spans| - 1] in spans;
    }
    if CursorAfter(spans) < AimedEnd(spans, durationMs) {
      TilesAppend(PiecesOf(spans), 0, CursorAfter(spans),
        Span(CursorAfter(spans), AimedEnd(spans, durationMs), "", false));
    } else {
      assert PiecesOf(spans) + [] == PiecesOf(spans);
    }
  }

  lemma NothingEnds(least: int)
    ensures GreatestEnd([], least) == least
  {
  }

  lemma {:induction false} GreatestEndOfMax(spans: seq<Span>, a: int, b: int)
    requires a <= b
    ensures GreatestEnd(spans, b) == Max(GreatestEnd(spans, a), b)
  {
    if spans != [] {
      GreatestEndOfMax(spans[..|spans| - 1], a, b);
    }
  }

  // ----- what the timeline says at an instant -----

  /** The label and the cut mark at an instant. */
  datatype Mark = Mark(text: string, cut: bool)

  const MAIN := Mark("", false)

  /** The first span that contains `t`, or main content. */
  function MarkAt(spans: seq<Span>, t: int): Mark {
    if spans == [] then MAIN
    else if exists s <- spans[..|spans| - 1] :: Covers(s, t) then MarkAt(spans[..|spans| - 1], t)
    else if Covers(spans[|spans| - 1], t) then Mark(spans[|spans| - 1].text, spans[|spans| - 1].cut)
    else MAIN
  }

  /** Every piece that contains `t` carries the mark. */
  ghost predicate Shows(pieces: seq<Span>, t: int, mark: Mark) {
    forall p <- pieces | Covers(p, t) :: Mark(p.text, p.cut) == mark
  }

  /** The pieces the last span adds. */
  function LastPieces(s: Span, cursor: int): seq<Span> {
    var start := Max(s.startMs, cursor);
    var stop := Max(s.endMs, start);
    (if start > cursor then [Span(cursor, start, "", false)] else []) +
    (if stop > start then [Span(start, stop, s.text, s.cut)] else [])
  }

  lemma MarkOfOneMore(init: seq<Span>, s: Span, t: int)
    requires Layered(init + [s])
    ensures MarkAt(init + [s], t) ==
      if t < CursorAfter(init) then MarkAt(init, t)
      else if Covers(s, t) then Mark(s.text, s.cut)
      else MAIN
  {
    hide MarkAt, CursorAfter;
    var all := init + [s];
    assert all[..|init|] == init;
    assert forall r <- init :: r in all;
    MarkOfCovered(all, t);
    EndsByCursor(init);
    if !exists r <- init :: Covers(r, t) {
      NoMark(init, t);
      if Covers(s, t) {
        if t < CursorAfter(init) {
          GapBefore(init, s, t);
        }
      } else {
        NoMark(all, t);
      }
    }
  }

  lemma CursorUnfold(init: seq<Span>, s: Span)
    ensures CursorAfter(init + [s]) ==
      var start := Max(s.startMs, CursorAfter(init));
      var stop := Max(s.endMs, start);
      if stop > start then stop else CursorAfter(init)
  {
    assert (init + [s])[..|init|] == init;
  }

  lemma NoPieces()
    ensures PiecesOf([]) == [] && CursorAfter([]) == 0
  {
  }

  lemma PiecesUnfold(init: seq<Span>, s: Span)
    ensures PiecesOf(init + [s]) == PiecesOf(init) + LastPieces(s, CursorAfter(init))
  {
    assert (init + [s])[..|init|] == init;
  }

  lemma LastPiecesShow(init: seq<Span>, s: Span, t: int)
    requires Layered(init + [s])
    ensures Shows(LastPieces(s, CursorAfter(init)), t, MarkAt(init + [s], t))
  {
    hide MarkAt, CursorAfter, Layered;
    MarkOfOneMore(init, s, t);
  }

  lemma {:induction false} PiecesShow(spans: seq<Span>, t: int)
    requires Layered(spans)
    ensures Shows(PiecesOf(spans), t, MarkAt(spans, t))
  {
    hide MarkAt, CursorAfter, LastPieces, Tiles;
    if spans != [] {
      var init, s := spans[..|spans| - 1], spans[|spans| - 1];
      assert spans == init + [s];
      PiecesShow(init, t);
      PiecesTile(init);
      TilesBounded(PiecesOf(init), 0, CursorAfter(init));
      MarkOfOneMore(init, s, t);
      LastPiecesShow(init, s, t);
      PiecesUnfold(init, s);
    }
  }

  lemma EndsByCursor(spans: seq<Span>)
    requires Layered(spans)
    ensures forall s <- spans :: s.endMs <= CursorAfter(spans)
  {
    CursorIsGreatestEnd(spans);
    GreatestEndBounds(spans, 0);
  }

  /** Before the cursor a later span contains only what an earlier one contains. */
  lemma GapBefore(init: seq<Span>, s: Span, t: int)
    requires Layered(init + [s]) && t < CursorAfter(init) && Covers(s, t)
    ensures exists r <- init :: Covers(r, t)
  {
    assert forall r <- init :: r in init + [s];
    assert s in init + [s];
    CursorIsGreatestEnd(init);
    GreatestEndBounds(init, 0);
    var r :| r in init && r.endMs == CursorAfter(init);
    var i :| 0 <= i < |init| && init[i] == r;
    assert (init + [s])[i].startMs <= (init + [s])[|init|].startMs;
    assert Covers(r, t);
  }

  lemma {:induction false} TilesBounded(pieces: seq<Span>, start: int, end: int)
    requires Tiles(pieces, start, end)
    ensures start <= end
    ensures forall p <- pieces :: start <= p.startMs && p.endMs <= end
  {
    if pieces != [] {
      hide Tiles;
      var init, last := pieces[..|pieces| - 1], pieces[|pieces| - 1];
      assert pieces == init + [last];
      TilesInit(pieces, start, end);
      TilesBounded(init, start, last.startMs);
    }
  }

  /**
   * At every instant of the timeline each piece there carries the mark of the first span, in
   * the order of starts, that contains the instant; main content where there is none.
   */
  lemma TimelineShows(spans: seq<Span>, durationMs: int, t: int)
    requires Layered(spans)
    ensures Shows(TimelineOf(spans, durationMs), t, MarkAt(spans, t))
  {
    PiecesTile(spans);
    TilesBounded(PiecesOf(spans), 0, CursorAfter(spans));
    PiecesShow(spans, t);
    EndsByCursor(spans);
    if t >= CursorAfter(spans) {
      NoMark(spans, t);
    }
  }

  lemma {:induction false} NoMark(spans: seq<Span>, t: int)
    requires forall s <- spans :: !Covers(s, t)
    ensures MarkAt(spans, t) == MAIN
  {
  }

  lemma MarkOfCovered(spans: seq<Span>, t: int)
    requires spans != []
    ensures (exists r <- spans[..|spans| - 1] :: Covers(r, t)) ==> MarkAt(spans, t) == MarkAt(spans[..|spans| - 1], t)
    ensures
      var last := spans[|spans| - 1];
      Covers(last, t) && !(exists r <- spans[..|spans| - 1] :: Covers(r, t)) ==>
          MarkAt(spans, t) == Mark(last.text, last.cut)
  {
  }

  /** For disjoint spans the mark is that of the only span containing the instant. */
  lemma {:induction false} DisjointMark(spans: seq<Span>, s: Span, t: int)
    requires Disjoint(spans) && s in spans && Covers(s, t)
    ensures MarkAt(spans, t) == Mark(s.text, s.cut)
  {
    hide MarkAt;
    var init, last := spans[..|spans| - 1], spans[|spans| - 1];
    assert spans == init + [last];
    MarkOfCovered(spans, t);
    if s in init {
      DisjointMark(init, s, t);
    } else {
      forall r <- init
        ensures !Covers(r, t)
      {
        var i :| 0 <= i < |init| && init[i] == r;
        assert spans[i] == r && spans[|spans| - 1] == s;
      }
    }
  }

  // ----- what the timeline says of the spans that were given -----

  /** `t` lies between the frame boundaries nearest to the ends of the span. */
  predicate Reaches(s: Span, t: int) {
    QuantizeMs(s.startMs) <= t < QuantizeMs(s.endMs)
  }

  /** Of the spans that reach `t` the one with the least start, in frames, and the first of those in the list. */
  ghost predicate InForce(spans: seq<Span>, t: int, i: int) {
    && 0 <= i < |spans| && Reaches(spans[i], t)
    && forall j | 0 <= j < |spans| && Reaches(spans[j], t) ::
         QuantizeMs(spans[i].startMs) < QuantizeMs(spans[j].startMs) ||
         (QuantizeMs(spans[i].startMs) == QuantizeMs(spans[j].startMs) && i <= j)
  }

  /** At `t` the text and the cut mark are those of the span in force, or of main content. */
  ghost predicate SaysAt(spans: seq<Span>, t: int, text: string, cut: bool) {
    || (exists i :: InForce(spans, t, i) && text == spans[i].text && cut == spans[i].cut)
    || ((forall s <- spans :: !Reaches(s, t)) && text == "" && !cut)
  }

  /** The programme length, at least 0, or the last frame boundary that a span reaches. */
  ghost predicate IsLength(spans: seq<Span>, durationMs: int, end: int) {
    && end >= 0 && end >= durationMs
    && (forall s <- spans | QuantizeMs(s.startMs) < QuantizeMs(s.endMs) :: QuantizeMs(s.endMs) <= end)
    && (end == Max(0, durationMs) ||
        exists s <- spans :: QuantizeMs(s.startMs) < QuantizeMs(s.endMs) && QuantizeMs(s.endMs) == end)
  }

  /** The pieces cover the whole length without gaps and say at each instant what the spans say there. */
  ghost predicate Tells(pieces: seq<Span>, spans: seq<Span>, durationMs: int) {
    && (exists end :: IsLength(spans, durationMs, end) && Tiles(pieces, 0, end))
    && forall p, t | p in pieces && Covers(p, t) :: SaysAt(spans, t, p.text, p.cut)
  }

  lemma {:induction false} InsertMark(x: Span, s: seq<Span>, t: int)
    requires SortedBy(s, ByStart)
    ensures MarkAt(Insert(x, s, ByStart), t) ==
      if Covers(x, t) && !exists r <- s :: Covers(r, t) && r.startMs <= x.startMs then Mark(x.text, x.cut)
      else MarkAt(s, t)
  {
    hide Insert, MarkAt;
    InsertStep(x, s, ByStart);
    if s == [] || ByStart(s[|s| - 1], x) {
      MarkOfLast(s, x, t);
      assert forall i | 0 <= i < |s| :: ByStart(s[i], s[|s| - 1]) || i == |s| - 1;
    } else {
      var init, last := s[..|s| - 1], s[|s| - 1];
      assert s == init + [last];
      InsertMark(x, init, t);
      MarkOfLast(init, last, t);
      MarkOfLast(Insert(x, init, ByStart), last, t);
      InsertedMembers(x, init);
    }
  }

  lemma MarkOfLast(init: seq<Span>, last: Span, t: int)
    ensures MarkAt(init + [last], t) ==
      if exists r <- init :: Covers(r, t) then MarkAt(init, t)
      else if Covers(last, t) then Mark(last.text, last.cut) else MAIN
    ensures (forall r <- init :: !Covers(r, t)) ==> MarkAt(init, t) == MAIN
  {
    assert (init + [last])[..|init|] == init;
    if forall r <- init :: !Covers(r, t) {
      NoMark(init, t);
    }
  }

  lemma InsertedMembers(x: Span, s: seq<Span>)
    ensures forall r :: r in Insert(x, s, ByStart) <==> r == x || r in s
  {
    InsertPermutes(x, s, ByStart);
    forall r
      ensures r in Insert(x, s, ByStart) <==> r == x || r in s
    {
      assert r in Insert(x, s, ByStart) <==> r in multiset(Insert(x, s, ByStart));
    }
  }

  lemma OneMoreSpan(init: seq<Span>, s: Span)
    ensures QuantizedOf(init + [s]) ==
      var q := QuantizeSpan(s);
      if q.endMs <= q.startMs then QuantizedOf(init) else Insert(q, QuantizedOf(init), ByStart)
  {
    assert (init + [s])[..|init|] == init;
    var q, ne := QuantizeSpan(s), NonEmptyQuantized(init);
    hide QuantizeSpan, Insert;
    if q.endMs <= q.startMs {
      assert ne + [] == ne;
    } else {
      assert (ne + [q])[..|ne|] == ne;
    }
  }

  lemma ReachedMembers(spans: seq<Span>, t: int, limit: int)
    ensures (exists r <- QuantizedOf(spans) :: Covers(r, t) && r.startMs <= limit)
       <==> exists s <- spans :: Reaches(s, t) && QuantizeMs(s.startMs) <= limit
  {
    hide QuantizedOf, QuantizeMs;
    forall r | r in QuantizedOf(spans)
      ensures exists s <- spans :: QuantizeSpan(s) == r
    {
      QuantizedMembers(spans, r);
    }
    forall s | s in spans && Reaches(s, t)
      ensures QuantizeSpan(s) in QuantizedOf(spans)
    {
      QuantizedMembers(spans, QuantizeSpan(s));
    }
  }

  lemma QuantizedSorted(spans: seq<Span>)
    ensures SortedBy(QuantizedOf(spans), ByStart)
  {
    ByStartIsPreorder();
    SortedIsSorted(NonEmptyQuantized(spans), ByStart);
  }

  /** The mark of the quantised layer is that of the span in force. */
  lemma {:induction false} MarkIsInForce(spans: seq<Span>, t: int)
    ensures var m := MarkAt(QuantizedOf(spans), t); SaysAt(spans, t, m.text, m.cut)
  {
    hide QuantizedOf, QuantizeMs, MarkAt, InForce;
    if spans == [] {
      NothingInForce(t);
    } else {
      var n := |spans| - 1;
      var init, s := spans[..n], spans[n];
      assert spans == init + [s];
      MarkIsInForce(init, t);
      OneMoreSpan(init, s);
      QuantizedSorted(init);
      InsertMark(QuantizeSpan(s), QuantizedOf(init), t);
      ReachedMembers(init, t, QuantizeMs(s.startMs));
      if !Reaches(s, t) {
        OthersStayInForce(init, s, t);
      } else if exists r <- init :: Reaches(r, t) && QuantizeMs(r.startMs) <= QuantizeMs(s.startMs) {
        EarlierStaysInForce(init, s, t);
      } else {
        LastInForce(init, s, t);
      }
    }
  }

  lemma NothingInForce(t: int)
    ensures QuantizedOf([]) == [] && MarkAt([], t) == MAIN
  {
  }

  lemma OthersStayInForce(init: seq<Span>, s: Span, t: int)
    requires !Reaches(s, t)
    ensures forall i | InForce(init, t, i) :: InForce(init + [s], t, i) && (init + [s])[i] == init[i]
  {
    hide QuantizeMs;
  }

  lemma EarlierStaysInForce(init: seq<Span>, s: Span, t: int)
    requires exists r <- init :: Reaches(r, t) && QuantizeMs(r.startMs) <= QuantizeMs(s.startMs)
    ensures forall i | InForce(init, t, i) :: InForce(init + [s], t, i) && (init + [s])[i] == init[i]
    ensures !forall r <- init :: !Reaches(r, t)
  {
    hide QuantizeMs;
  }

  lemma LastInForce(init: seq<Span>, s: Span, t: int)
    requires Reaches(s, t)
    requires !exists r <- init :: Reaches(r, t) && QuantizeMs(r.startMs) <= QuantizeMs(s.startMs)
    ensures InForce(init + [s], t, |init|) && (init + [s])[|init|] == s
  {
    hide QuantizeMs;
  }

  lemma LengthIs(spans: seq<Span>, durationMs: int)
    ensures IsLength(spans, durationMs, LengthOf(QuantizedOf(spans), durationMs))
  {
    hide QuantizedOf, QuantizeMs;
    var q := QuantizedOf(spans);
    GreatestEndBounds(q, Max(0, durationMs));
    forall s | s in spans && QuantizeMs(s.startMs) < QuantizeMs(s.endMs)
      ensures QuantizeMs(s.endMs) <= LengthOf(q, durationMs)
    {
      QuantizedMembers(spans, QuantizeSpan(s));
    }
    if r :| r in q && r.endMs == LengthOf(q, durationMs) {
      QuantizedMembers(spans, r);
    }
  }

  /** The timeline says what the given spans say, at every instant of the whole length. */
  lemma TimelineTells(spans: seq<Span>, durationMs: int)
    ensures Tells(TimelineOf(QuantizedOf(spans), durationMs), spans, durationMs)
  {
    hide QuantizedOf, TimelineOf, SaysAt, IsLength, Tiles, LengthOf;
    var q := QuantizedOf(spans);
    var pieces := TimelineOf(q, durationMs);
    QuantizedIsLayered(spans);
    LengthIs(spans, durationMs);
    TimelineTiles(q, durationMs);
    forall p, t | p in pieces && Covers(p, t)
      ensures SaysAt(spans, t, p.text, p.cut)
    {
      MarkIsInForce(spans, t);
      TimelineShows(q, durationMs, t);
    }
  }

  method Derive(owned: bool, user: seq<Span>, auto: seq<Span>, durationMs: int) returns (out: seq<Span>)
    ensures out == TimelineOf(QuantizedOf(if owned then user else auto), durationMs)
    ensures Tells(out, if owned then user else auto, durationMs)
  {
    hide PiecesOf, CursorAfter, QuantizedOf, Tells;
    TimelineTells(if owned then user else auto, durationMs);
    NoPieces();
    var known := auto;
    if owned {
      known := user;
    }
    var spans := Quantized(known);
    var end := durationMs;
    if |spans| > 0 && spans[|spans| - 1].endMs > end {
      end := spans[|spans| - 1].endMs;
    }
    if end < 0 {
      end := 0;
    }
    out := [];
    var cursor := 0;
    for k := 0 to |spans|
      invariant out == PiecesOf(spans[..k]) && cursor == CursorAfter(spans[..k])
    {
      var s := spans[k];
      assert spans[..k + 1] == spans[..k] + [s];
      PiecesUnfold(spans[..k], s);
      CursorUnfold(spans[..k], s);
      var start := Max(s.startMs, cursor);
      var stop := Max(s.endMs, start);
      if start > cursor {
        out := out + [Span(cursor, start, "", false)];
      }
      if stop > start {
        out := out + [Span(start, stop, s.text, s.cut)];
        cursor := stop;
      }
    }
    assert spans[..|spans|] == spans;
    if cursor < end {
      out := out + [Span(cursor, end, "", false)];
    }
  }
}
