/**
 * Moving the cues of a WebVTT file from the original time axis to that of the cut version.
 * A file is read as lines: a header up to its first blank line, then cues. A cue is any lines
 * before a timing line, the timing line, and the lines up to the next blank one.
 */
module WebVtt {
  import opened Common
  import opened Text
  import opened Timeline
  import opened KeepRanges
  import opened KeepMap
  import opened VttTimes

  // ----- one cue -----

  /** The range has nothing in [a, b). */
  predicate Misses(r: Range, a: int, b: int) {
    a >= b || r.endMs <= a || r.startMs >= b
  }

  /** The ranges that have something in [start, end). */
  function Meeting(keep: seq<Range>, start: int, end: int): seq<Range> {
    if keep == [] then []
    else
      var r := keep[|keep| - 1];
      Meeting(keep[..|keep| - 1], start, end) + if Misses(r, start, end) then [] else [r]
  }

  /** The last instant of [.., end) that the ranges reach. */
  function Reached(met: seq<Range>, end: int): int
    requires met != []
  {
    var here := Min(met[|met| - 1].endMs, end);
    if |met| == 1 then here else Max(Reached(met[..|met| - 1], end), here)
  }

  /** [start, end) clipped to the ranges it meets and moved to the cut axis; nothing if it meets none. */
  function MappedTimes(keep: seq<Range>, start: int, end: int): Option<Range> {
    var met := Meeting(keep, start, end);
    if met == [] then None
    else Some(Range(MapOf(keep, Max(met[0].startMs, start)), MapOf(keep, Reached(met, end))))
  }

  /** Where [start, end) goes on the cut axis, by kept time; nothing if no kept time lies in it. */
  function KeptTimes(keep: seq<Range>, start: int, end: int): Option<Range> {
    if KeptBefore(keep, end) <= KeptBefore(keep, start) then None
    else Some(Range(KeptBefore(keep, start), KeptBefore(keep, end)))
  }

  method MapCueTimes(keep: seq<Range>, start: int, end: int) returns (r: Option<Range>)
    ensures r == MappedTimes(keep, start, end)
    ensures Ordered(keep) ==> r == KeptTimes(keep, start, end)
  {
    hide MapOf, KeptTimes, Ordered, KeptBefore, Meeting, Reached;
    NoneMet(start, end);
    if Ordered(keep) {
      MappedTimesAreKept(keep, start, end);
    }
    if end <= start {
      NothingMeets(keep, start, end);
      return None;
    }
    var lo, hi := 0, 0;
    var found := false;
    for i := 0 to |keep|
      invariant found <==> Meeting(keep[..i], start, end) != []
      invariant found ==> lo == Max(Meeting(keep[..i], start, end)[0].startMs, start)
      invariant found ==> hi == Reached(Meeting(keep[..i], start, end), end)
    {
      var r := keep[i];
      MeetingStep(keep, i, start, end);
      if r.endMs <= start || r.startMs >= end {
        continue;
      }
      ReachedStep(Meeting(keep[..i], start, end), r, end);
      if !found {
        lo, hi := Max(r.startMs, start), Min(r.endMs, end);
        found := true;
        continue;
      }
      hi := Max(hi, Min(r.endMs, end));
    }
    assert keep[..|keep|] == keep;
    if !found {
      return None;
    }
    var from := MapMs(keep, lo);
    var to := MapMs(keep, hi);
    r := Some(Range(from, to));
  }

  lemma NoneMet(start: int, end: int)
    ensures Meeting([], start, end) == []
  {
  }

  lemma MeetingStep(keep: seq<Range>, i: nat, start: int, end: int)
    requires i < |keep|
    ensures Meeting(keep[..i + 1], start, end) ==
      if Misses(keep[i], start, end) then Meeting(keep[..i], start, end) else Meeting(keep[..i], start, end) + [keep[i]]
  {
    assert keep[..i + 1][..i] == keep[..i];
  }

  lemma ReachedStep(met: seq<Range>, r: Range, end: int)
    ensures Reached(met + [r], end) ==
      if met == [] then Min(r.endMs, end) else Max(Reached(met, end), Min(r.endMs, end))
  {
    assert (met + [r])[..|met|] == met;
  }

  lemma {:induction false} NothingMeets(keep: seq<Range>, start: int, end: int)
    requires end <= start
    ensures Meeting(keep, start, end) == []
  {
    if keep != [] {
      NothingMeets(keep[..|keep| - 1], start, end);
    }
  }

  /** On ordered ranges clipping keeps exactly the kept time of the cue. */
  lemma MappedTimesAreKept(keep: seq<Range>, start: int, end: int)
    requires Ordered(keep)
    ensures MappedTimes(keep, start, end) == KeptTimes(keep, start, end)
  {
    hide Kept, KeptBefore, Reached, MapOf;
    if end <= start {
      NothingMeets(keep, start, end);
      KeptBeforeMonotone(keep, end, start);
    } else {
      var met := Meeting(keep, start, end);
      ClipOfOrdered(keep, start, end, |keep|);
      assert keep[..|keep|] == keep;
      if met == [] {
        NoneMeets(keep, start, end);
      } else {
        var lo, hi := Max(met[0].startMs, start), Reached(met, end);
        NoneMeets(keep, hi, end);
        MapOfOrdered(keep, lo);
        MapOfOrdered(keep, hi);
        KeptBeforeStep(keep, lo);
        KeptBeforeMonotone(keep, lo + 1, hi);
      }
    }
  }

  /** The clipped interval of the first `n` ranges: it starts at the first kept instant and misses none. */
  lemma {:induction false} ClipOfOrdered(keep: seq<Range>, start: int, end: int, n: nat)
    requires Ordered(keep) && start < end && n <= |keep|
    ensures
      var met := Meeting(keep[..n], start, end);
      if met == [] then forall k | 0 <= k < n :: Misses(keep[k], start, end)
      else
        && start <= Max(met[0].startMs, start) < Reached(met, end) <= end
        && FirstKept(keep, start, Max(met[0].startMs, start))
        && forall k | 0 <= k < n :: Misses(keep[k], Reached(met, end), end)
  {
    hide Kept, KeptBefore, FirstKept, Meeting, Reached;
    NoneMet(start, end);
    if n > 0 {
      ClipOfOrdered(keep, start, end, n - 1);
      var r, before := keep[n - 1], Meeting(keep[..n - 1], start, end);
      assert r in keep;
      MeetingStep(keep, n - 1, start, end);
      if !Misses(r, start, end) {
        ReachedStep(before, r, end);
        if before == [] {
          FirstMeeting(keep, n - 1, start, end);
        }
      }
    }
  }

  /** `lo` is the first kept instant from `start` on. */
  ghost predicate FirstKept(keep: seq<Range>, start: int, lo: int) {
    Kept(keep, lo) && KeptBefore(keep, lo) == KeptBefore(keep, start)
  }

  lemma NoneMeets(keep: seq<Range>, a: int, b: int)
    requires Ordered(keep) && a <= b
    requires forall k | 0 <= k < |keep| :: Misses(keep[k], a, b)
    ensures KeptBefore(keep, a) == KeptBefore(keep, b)
  {
    forall t | a <= t < b
      ensures !Kept(keep, t)
    {
      forall r <- keep
        ensures !InRange(r, t)
      {
        var k :| 0 <= k < |keep| && keep[k] == r;
        assert Misses(keep[k], a, b);
      }
    }
    NoneKeptBetween(keep, a, b);
  }

  lemma FirstMeeting(keep: seq<Range>, i: nat, start: int, end: int)
    requires Ordered(keep) && i < |keep| && start < end
    requires forall k | 0 <= k < i :: Misses(keep[k], start, end)
    requires !Misses(keep[i], start, end)
    ensures FirstKept(keep, start, Max(keep[i].startMs, start))
  {
    var lo := Max(keep[i].startMs, start);
    assert keep[i] in keep;
    assert InRange(keep[i], lo);
    forall k | 0 <= k < |keep|
      ensures Misses(keep[k], start, lo)
    {
      if k > i {
        assert keep[i].endMs <= keep[k].startMs;
      }
    }
    NoneMeets(keep, start, lo);
  }

  // ----- reading a file -----

  predicate Blank(line: string) {
    TrimSpace(line) == ""
  }

  datatype Cue = Cue(id: seq<string>, timing: Timing, body: seq<string>)

  datatype Document = Document(header: seq<string>, cues: seq<Cue>)

  /** The first line with an arrow, or the number of lines. */
  function ArrowLine(lines: seq<string>): (k: nat)
    ensures k <= |lines|
    ensures k < |lines| ==> Contains(lines[k], ARROW)
    ensures forall j | 0 <= j < k :: !Contains(lines[j], ARROW)
  {
    if lines == [] || Contains(lines[0], ARROW) then 0 else 1 + ArrowLine(lines[1..])
  }

  /** The first blank line, or the number of lines. */
  function BlankLine(lines: seq<string>): (k: nat)
    ensures k <= |lines|
    ensures k < |lines| ==> Blank(lines[k])
    ensures forall j | 0 <= j < k :: !Blank(lines[j])
  {
    if lines == [] || Blank(lines[0]) then 0 else 1 + BlankLine(lines[1..])
  }

  /** The number of header lines: up to and including the first blank line after line 1. */
  function HeaderLength(lines: seq<string>): (h: nat)
    ensures h <= |lines|
    ensures h < |lines| ==> h >= 2 && Blank(lines[h - 1])
    ensures forall j | 1 <= j < h - 1 :: !Blank(lines[j])
  {
    if |lines| <= 1 then |lines| else Min(|lines|, 1 + BlankLine(lines[1..]) + 1)
  }

  /** The cues of `lines`, whose first line has number `at` (from 0). */
  function ReadCues(lines: seq<string>, at: nat): Result<seq<Cue>, VttError>
    decreases |lines|
  {
    if lines == [] then Success([])
    else if Blank(lines[0]) then ReadCues(lines[1..], at + 1)
    else
      var k := ArrowLine(lines);
      if k == |lines| then Failure(NoTimestamp(at + 1))
      else
        var n := k + 1 + BlankLine(lines[k + 1..]);
        var timing := ReadTiming(lines[k]);
        if timing.Failure? then Failure(timing.error)
        else
          var rest := ReadCues(lines[n..], at + n);
          if rest.Failure? then rest
          else Success([Cue(lines[..k], timing.value, lines[k + 1..n])] + rest.value)
  }

  function ReadDocument(lines: seq<string>): Result<Document, VttError> {
    var h := HeaderLength(lines);
    var cues := ReadCues(lines[h..], h);
    if cues.Failure? then Failure(cues.error) else Success(Document(lines[..h], cues.value))
  }

  // ----- writing -----

  /** The cue on the cut axis, if any of it is kept. */
  function RetimedCue(c: Cue, keep: seq<Range>): seq<Cue> {
    var times := MappedTimes(keep, c.timing.start, c.timing.end);
    if times.None? then [] else [c.(timing := Timing(times.value.startMs, times.value.endMs, c.timing.settings))]
  }

  function RetimedCues(cues: seq<Cue>, keep: seq<Range>): seq<Cue> {
    if cues == [] then [] else RetimedCue(cues[0], keep) + RetimedCues(cues[1..], keep)
  }

  function CueLines(c: Cue): seq<string> {
    c.id + [FormatCue(c.timing)] + c.body + [""]
  }

  function AllCueLines(cues: seq<Cue>): seq<string> {
    if cues == [] then [] else CueLines(cues[0]) + AllCueLines(cues[1..])
  }

  /** Blank lines at the end removed, one line kept at least. */
  function TrimTail(lines: seq<string>): seq<string> {
    if |lines| > 1 && Blank(lines[|lines| - 1]) then TrimTail(lines[..|lines| - 1]) else lines
  }

  function RetimedLines(lines: seq<string>, keep: seq<Range>): Result<seq<string>, VttError> {
    var doc := ReadDocument(lines);
    if doc.Failure? then Failure(doc.error)
    else Success(TrimTail(doc.value.header + AllCueLines(RetimedCues(doc.value.cues, keep))))
  }

  /** The output once `rest` is read, given the lines already written. */
  function Finished(out: seq<string>, rest: Result<seq<Cue>, VttError>, keep: seq<Range>)
    : Result<seq<string>, VttError>
  {
    if rest.Failure? then Failure(rest.error) else Success(TrimTail(out + AllCueLines(RetimedCues(rest.value, keep))))
  }

  method RetimeLines(lines: seq<string>, keep: seq<Range>) returns (r: Result<seq<string>, VttError>)
    ensures r == RetimedLines(lines, keep)
  {
    hide TrimTail, TrimSpace, HeaderLength, ReadTiming, Ordered, Finished, ArrowLine, BlankLine, FormatCue, ReadCues,
      RetimedLines, AllCueLines, MappedTimes;
    var out, i := CopyHeader(lines);
    FinishStart(lines, keep);
    while i < |lines|
      invariant 0 <= i <= |lines|
      invariant RetimedLines(lines, keep) == Finished(out, ReadCues(lines[i..], i), keep)
      decreases |lines| - i
    {
      if TrimSpace(lines[i]) == "" {
        BlankAt(lines, i);
        i := i + 1;
        continue;
      }
      var k, n := CueExtent(lines, i);
      CueAt(lines, i, k, n);
      if k >= |lines| {
        FinishFailure(out, NoTimestamp(i + 1), keep);
        return Failure(NoTimestamp(i + 1));
      }
      var timing := ReadTiming(lines[k]);
      if timing.Failure? {
        FinishFailure(out, timing.error, keep);
        return Failure(timing.error);
      }
      var mapped := MapCueTimes(keep, timing.value.start, timing.value.end);
      var c := Cue(lines[i..k], timing.value, lines[k + 1..n]);
      FinishCue(out, c, ReadCues(lines[n..], n), keep);
      i := n;
      WrittenCue(out, c, keep, mapped);
      if mapped.None? {
        continue;
      }
      var moved := Timing(mapped.value.startMs, mapped.value.endMs, timing.value.settings);
      out := out + c.id;
      out := out + [FormatCue(moved)];
      out := out + c.body;
      out := out + [""];
    }
    FinishEnd(lines, out, keep);
    out := CutTail(out);
    r := Success(out);
  }

  method CutTail(lines: seq<string>) returns (out: seq<string>)
    ensures out == TrimTail(lines)
  {
    hide Blank;
    out := lines;
    while |out| > 1 && Blank(out[|out| - 1])
      invariant TrimTail(out) == TrimTail(lines)
    {
      out := out[..|out| - 1];
    }
  }

  method CopyHeader(lines: seq<string>) returns (out: seq<string>, i: nat)
    ensures i == HeaderLength(lines) && out == lines[..i]
  {
    hide Blank;
    out := [];
    i := 0;
    while i < |lines|
      invariant i <= |lines| && out == lines[..i]
      invariant forall j | 1 <= j < i :: !Blank(lines[j])
    {
      out := out + [lines[i]];
      if i > 0 && Blank(lines[i]) {
        HeaderEndsAt(lines, i);
        i := i + 1;
        return;
      }
      i := i + 1;
    }
    HeaderEndsAt(lines, |lines|);
  }

  lemma {:induction false} BlankLineIs(lines: seq<string>, k: nat)
    requires k <= |lines| && (k < |lines| ==> Blank(lines[k]))
    requires forall j | 0 <= j < k :: !Blank(lines[j])
    ensures BlankLine(lines) == k
  {
    var b := BlankLine(lines);
    assert !(b < k) && !(k < b);
  }

  lemma ArrowLineIs(lines: seq<string>, k: nat)
    requires k <= |lines| && (k < |lines| ==> Contains(lines[k], ARROW))
    requires forall j | 0 <= j < k :: !Contains(lines[j], ARROW)
    ensures ArrowLine(lines) == k
  {
    var b := ArrowLine(lines);
    assert !(b < k) && !(k < b);
  }

  lemma HeaderEndsAt(lines: seq<string>, k: nat)
    requires k <= |lines| && (k < |lines| ==> 0 < k && Blank(lines[k]))
    requires forall j | 1 <= j < k :: !Blank(lines[j])
    ensures HeaderLength(lines) == Min(|lines|, k + 1)
  {
    hide Blank;
    if |lines| > 1 {
      BlankLineIs(lines[1..], if k > 0 then k - 1 else 0);
    }
  }

  /** Where the timing line of the cue at `i` is, and where its body ends. */
  method CueExtent(lines: seq<string>, i: nat) returns (k: nat, n: nat)
    requires i < |lines|
    ensures k == i + ArrowLine(lines[i..])
    ensures k < |lines| ==> n == k + 1 + BlankLine(lines[k + 1..])
    ensures k == |lines| ==> n == k
  {
    hide Blank, Contains, ArrowLine, BlankLine;
    k := i;
    while k < |lines| && !Contains(lines[k], ARROW)
      invariant i <= k <= |lines|
      invariant forall j | i <= j < k :: !Contains(lines[j], ARROW)
    {
      k := k + 1;
    }
    ArrowLineIs(lines[i..], k - i);
    n := k;
    if k < |lines| {
      n := k + 1;
      while n < |lines| && !Blank(lines[n])
        invariant k + 1 <= n <= |lines|
        invariant forall j | k + 1 <= j < n :: !Blank(lines[j])
      {
        n := n + 1;
      }
      BlankLineIs(lines[k + 1..], n - k - 1);
    }
  }

  /** The first cue in front of those read after it. */
  function WithCue(c: Cue, rest: Result<seq<Cue>, VttError>): Result<seq<Cue>, VttError> {
    if rest.Failure? then rest else Success([c] + rest.value)
  }

  /** A cue by its lines, in front of those read after it; its timing line can be bad. */
  function CueRead(id: seq<string>, line: string, body: seq<string>, rest: Result<seq<Cue>, VttError>)
    : Result<seq<Cue>, VttError>
  {
    var timing := ReadTiming(line);
    if timing.Failure? then Failure(timing.error) else WithCue(Cue(id, timing.value, body), rest)
  }

  lemma BlankAt(lines: seq<string>, i: nat)
    requires i < |lines| && Blank(lines[i])
    ensures ReadCues(lines[i..], i) == ReadCues(lines[i + 1..], i + 1)
  {
    assert lines[i..][1..] == lines[i + 1..];
  }

  /** The cue at the front of `lines`, its timing line at `k` and its body up to `n`. */
  lemma FrontCue(lines: seq<string>, at: nat, k: nat, n: nat)
    requires lines != [] && !Blank(lines[0])
    requires k == ArrowLine(lines)
    requires k < |lines| ==> n == k + 1 + BlankLine(lines[k + 1..])
    ensures ReadCues(lines, at) ==
      if k == |lines| then Failure(NoTimestamp(at + 1))
      else CueRead(lines[..k], lines[k], lines[k + 1..n], ReadCues(lines[n..], at + n))
  {
    hide Blank, ReadTiming, ArrowLine, BlankLine;
  }

  lemma TailOfTail(lines: seq<string>, i: nat, a: nat)
    requires i <= a <= |lines|
    ensures lines[i..][a - i..] == lines[a..]
  {
  }

  lemma PartOfTail(lines: seq<string>, i: nat, a: nat, b: nat)
    requires i <= a <= b <= |lines|
    ensures lines[i..][a - i..b - i] == lines[a..b]
  {
  }

  lemma CueAt(lines: seq<string>, i: nat, k: nat, n: nat)
    requires i < |lines| && !Blank(lines[i])
    requires k == i + ArrowLine(lines[i..])
    requires k < |lines| ==> n == k + 1 + BlankLine(lines[k + 1..])
    ensures k <= |lines| && (k < |lines| ==> n <= |lines|)
    ensures ReadCues(lines[i..], i) ==
      if k == |lines| then Failure(NoTimestamp(i + 1))
      else CueRead(lines[i..k], lines[k], lines[k + 1..n], ReadCues(lines[n..], n))
  {
    hide Blank, CueRead, ReadCues, ArrowLine, BlankLine;
    if k < |lines| {
      SpanOfTail(lines, i, k, n);
      hide CueSpan;
      WholeCueAt(lines, i, k, n);
    } else {
      FrontCue(lines[i..], i, k - i, 0);
    }
  }

  /** `lines` begins with a cue, its timing line at `k` and its body up to `n`. */
  predicate CueSpan(lines: seq<string>, k: nat, n: nat) {
    lines != [] && !Blank(lines[0]) && k == ArrowLine(lines) < |lines| && n == k + 1 + BlankLine(lines[k + 1..])
  }

  lemma SpanOfTail(lines: seq<string>, i: nat, k: nat, n: nat)
    requires i < |lines| && !Blank(lines[i])
    requires k == i + ArrowLine(lines[i..]) < |lines| && n == k + 1 + BlankLine(lines[k + 1..])
    ensures i <= k < n <= |lines| && CueSpan(lines[i..], k - i, n - i)
  {
    hide Blank, ArrowLine, BlankLine;
    TailOfTail(lines, i, k + 1);
  }

  lemma FrontRead(lines: seq<string>, at: nat, k: nat, n: nat)
    requires CueSpan(lines, k, n)
    ensures k < n <= |lines|
    ensures ReadCues(lines, at) == CueRead(lines[..k], lines[k], lines[k + 1..n], ReadCues(lines[n..], at + n))
  {
    hide Blank, ArrowLine, BlankLine, CueRead, ReadCues;
    FrontCue(lines, at, k, n);
  }

  lemma WholeCueAt(lines: seq<string>, i: nat, k: nat, n: nat)
    requires i <= k < n <= |lines| && CueSpan(lines[i..], k - i, n - i)
    ensures ReadCues(lines[i..], i) == CueRead(lines[i..k], lines[k], lines[k + 1..n], ReadCues(lines[n..], n))
  {
    hide CueSpan, CueRead, ReadCues;
    FrontRead(lines[i..], i, k - i, n - i);
    TailOfTail(lines, i, n);
    PartOfTail(lines, i, i, k);
    PartOfTail(lines, i, k + 1, n);
    assert lines[i..][..k - i] == lines[i..][0..k - i];
  }

  lemma FinishStart(lines: seq<string>, keep: seq<Range>)
    ensures var h := HeaderLength(lines);
      RetimedLines(lines, keep) == Finished(lines[..h], ReadCues(lines[h..], h), keep)
  {
  }

  lemma FinishFailure(out: seq<string>, error: VttError, keep: seq<Range>)
    ensures Finished(out, Failure(error), keep) == Failure(error)
  {
  }

  lemma FinishEnd(lines: seq<string>, out: seq<string>, keep: seq<Range>)
    ensures Finished(out, ReadCues(lines[|lines|..], |lines|), keep) == Success(TrimTail(out))
  {
    assert lines[|lines|..] == [];
    assert out + AllCueLines(RetimedCues([], keep)) == out;
  }

  /** A cue is written before the cues after it. */
  lemma FinishCue(out: seq<string>, c: Cue, rest: Result<seq<Cue>, VttError>, keep: seq<Range>)
    ensures Finished(out, WithCue(c, rest), keep) == Finished(out + AllCueLines(RetimedCue(c, keep)), rest, keep)
  {
    hide CueLines, RetimedCue;
    if rest.Success? {
      assert ([c] + rest.value)[1..] == rest.value;
      CueLinesConcat(RetimedCue(c, keep), RetimedCues(rest.value, keep));
      assert out + AllCueLines(RetimedCue(c, keep)) + AllCueLines(RetimedCues(rest.value, keep))
          == out + (AllCueLines(RetimedCue(c, keep)) + AllCueLines(RetimedCues(rest.value, keep)));
    }
  }

  lemma {:induction false} CueLinesConcat(a: seq<Cue>, b: seq<Cue>)
    ensures AllCueLines(a + b) == AllCueLines(a) + AllCueLines(b)
  {
    hide CueLines, AllCueLines;
    AllCueLinesFront(a);
    if a == [] {
      assert a + b == b;
    } else {
      AllCueLinesFront(a + b);
      CueLinesConcat(a[1..], b);
      assert (a + b)[1..] == a[1..] + b;
    }
  }

  lemma AllCueLinesFront(cues: seq<Cue>)
    ensures AllCueLines(cues) == if cues == [] then [] else CueLines(cues[0]) + AllCueLines(cues[1..])
  {
  }

  /** What one cue adds to the output. */
  lemma WrittenCue(out: seq<string>, c: Cue, keep: seq<Range>, mapped: Option<Range>)
    requires mapped == MappedTimes(keep, c.timing.start, c.timing.end)
    ensures out + AllCueLines(RetimedCue(c, keep)) ==
      if mapped.None? then out
      else out + c.id + [FormatCue(Timing(mapped.value.startMs, mapped.value.endMs, c.timing.settings))] + c.body + [""]
  {
    hide FormatCue, MappedTimes;
    if mapped.Some? {
      var moved := c.(timing := Timing(mapped.value.startMs, mapped.value.endMs, c.timing.settings));
      assert [moved][1..] == [];
      assert AllCueLines([moved]) == CueLines(moved);
    }
  }
}
