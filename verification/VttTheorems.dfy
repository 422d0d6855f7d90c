/** What retiming keeps: reading the output gives exactly the kept cues of the input, moved. */
module VttTheorems {
  import opened Common
  import opened Text
  import opened Timeline
  import opened KeepRanges
  import opened KeepMap
  import opened VttTimes
  import opened WebVtt

  // ----- one cue -----

  /** A cue is dropped exactly when it contains no kept instant. */
  lemma DroppedIffOutside(c: Cue, keep: seq<Range>)
    requires Ordered(keep)
    ensures RetimedCue(c, keep) == [] <==> forall t | c.timing.start <= t < c.timing.end :: !Kept(keep, t)
  {
    MappedTimesAreKept(keep, c.timing.start, c.timing.end);
    if c.timing.end <= c.timing.start {
      KeptBeforeMonotone(keep, c.timing.end, c.timing.start);
    } else {
      NoneKeptBetween(keep, c.timing.start, c.timing.end);
      KeptBeforeMonotone(keep, c.timing.start, c.timing.end);
    }
  }

  /** A cue that stays keeps its identifier, settings and body, and lasts as long as its kept time. */
  lemma KeptCue(c: Cue, keep: seq<Range>, moved: Cue)
    requires Ordered(keep) && RetimedCue(c, keep) == [moved]
    ensures moved.id == c.id && moved.body == c.body && moved.timing.settings == c.timing.settings
    ensures 0 <= moved.timing.start < moved.timing.end <= TotalMs(keep)
    ensures moved.timing.end - moved.timing.start == |KeptInstants(keep, c.timing.start, c.timing.end)|
  {
    var t := c.timing;
    MappedTimesAreKept(keep, t.start, t.end);
    KeptBeforeMonotone(keep, t.start, t.start);
    KeptBeforeMonotone(keep, t.end, t.end);
    if t.end <= t.start {
      KeptBeforeMonotone(keep, t.end, t.start);
    } else {
      KeptBetween(keep, t.start, t.end);
    }
  }

  // ----- well-formed cues -----

  /** What a cue that can be written and read back looks like. */
  ghost predicate Writable(c: Cue) {
    && (forall line <- c.id :: !Text.Contains(line, ARROW))
    && (c.id != [] ==> !Blank(c.id[0]))
    && (forall line <- c.body :: !Blank(line))
    && Trimmed(c.timing.settings)
  }

  ghost predicate InClock(t: Timing) {
    0 <= t.start <= MAX_INT64 && 0 <= t.end <= MAX_INT64
  }

  lemma {:induction false} ReadCuesWritable(lines: seq<string>, at: nat)
    requires ReadCues(lines, at).Success?
    ensures forall c <- ReadCues(lines, at).value :: Writable(c)
    decreases |lines|
  {
    hide Blank, ReadTiming;
    if lines != [] {
      if Blank(lines[0]) {
        ReadCuesWritable(lines[1..], at + 1);
      } else {
        var k := ArrowLine(lines);
        var n := k + 1 + BlankLine(lines[k + 1..]);
        FrontCue(lines, at, k, n);
        ReadCuesWritable(lines[n..], at + n);
        ReadSettingsTrimmed(lines[k]);
        FrontIsWritable(lines, k, n);
      }
    }
  }

  lemma FrontIsWritable(lines: seq<string>, k: nat, n: nat)
    requires lines != [] && !Blank(lines[0])
    requires k == ArrowLine(lines) < |lines| && n == k + 1 + BlankLine(lines[k + 1..])
    ensures forall line <- lines[..k] :: !Text.Contains(line, ARROW)
    ensures k > 0 ==> !Blank(lines[..k][0])
    ensures forall line <- lines[k + 1..n] :: !Blank(line)
  {
    hide Blank, Text.Contains, ArrowLine, BlankLine;
    forall line <- lines[k + 1..n]
      ensures !Blank(line)
    {
      var j :| 0 <= j < n - k - 1 && lines[k + 1..n][j] == line;
      assert lines[k + 1..][j] == line;
    }
  }

  // ----- reading what was written -----

  lemma TimingLineFound(t: Timing)
    ensures Text.Contains(FormatCue(t), ARROW) && !Blank(FormatCue(t))
  {
    CueSplits(t);
    TimeCharacters(t.start);
    var line := FormatCue(t);
    assert line[0] == FormatTime(t.start)[0];
    TrimRightIsPrefix(line);
    if Blank(line) {
      TrimmedFrontIsNotBlank(line);
    }
  }

  lemma {:induction false} TrimmedFrontIsNotBlank(s: string)
    requires s != [] && !IsSpace(s[0])
    ensures TrimRight(s) != ""
  {
    if IsSpace(s[|s| - 1]) {
      assert s[..|s| - 1][0] == s[0];
      TrimmedFrontIsNotBlank(s[..|s| - 1]);
    }
  }

  lemma BlankEmpty()
    ensures Blank("")
  {
  }

  lemma ReadWrittenCue(c: Cue, rest: seq<string>, at: nat)
    requires Writable(c) && InClock(c.timing)
    ensures exists n: nat :: ReadCues(CueLines(c) + rest, at) == WithCue(c, ReadCues(rest, n))
  {
    hide Blank, FormatCue, ReadTiming, Text.Contains, ReadCues;
    var lines := CueLines(c) + rest;
    var k := |c.id|;
    var n := k + 1 + |c.body|;
    TimingLineFound(c.timing);
    BlankEmpty();
    assert lines[k] == FormatCue(c.timing) && lines[..k] == c.id;
    assert lines[k + 1..n] == c.body && lines[n] == "";
    ArrowLineIs(lines, k);
    var tail := lines[k + 1..];
    assert forall j | 0 <= j < |c.body| :: tail[j] == c.body[j];
    assert tail[|c.body|] == "";
    BlankLineIs(tail, |c.body|);
    TimingRoundTrip(c.timing);
    FrontCue(lines, at, k, n);
    assert lines[n..][1..] == rest;
    SkipBlank(lines[n..], at + n);
    assert ReadCues(lines, at) == WithCue(c, ReadCues(rest, at + n + 1));
  }

  lemma NothingToRead(at: nat)
    ensures ReadCues([], at) == Success([])
  {
  }

  lemma SkipBlank(lines: seq<string>, at: nat)
    requires lines != [] && Blank(lines[0])
    ensures ReadCues(lines, at) == ReadCues(lines[1..], at + 1)
  {
  }

  /** Written cues are read back, one by one. */
  lemma {:induction false} ReadWritten(cues: seq<Cue>, at: nat)
    requires forall c <- cues :: Writable(c) && InClock(c.timing)
    ensures ReadCues(AllCueLines(cues), at) == Success(cues)
  {
    hide CueLines, Writable, InClock, ReadCues;
    NothingToRead(at);
    if cues != [] {
      assert cues == [cues[0]] + cues[1..];
      assert cues[0] in cues;
      ReadWrittenCue(cues[0], AllCueLines(cues[1..]), at);
      var n: nat :| ReadCues(AllCueLines(cues), at) == WithCue(cues[0], ReadCues(AllCueLines(cues[1..]), n));
      ReadWritten(cues[1..], n);
    }
  }

  // ----- blank lines at the end -----

  lemma {:induction false} ReadIgnoresBlankTail(lines: seq<string>, b: string, at: nat)
    requires Blank(b)
    ensures ReadCues(lines + [b], at) == ReadCues(lines, at)
    decreases |lines|
  {
    hide Blank, ReadTiming, ArrowLine, BlankLine, ReadCues;
    NothingToRead(at);
    NothingToRead(at + 1);
    if lines == [] {
      assert lines + [b] == [b] && [b][1..] == [];
      SkipBlank([b], at);
    } else if Blank(lines[0]) {
      SkipBlank(lines, at);
      SkipBlank(lines + [b], at);
      ReadIgnoresBlankTail(lines[1..], b, at + 1);
      assert (lines + [b])[1..] == lines[1..] + [b];
    } else {
      var k := ArrowLine(lines);
      if k < |lines| {
        var n := k + 1 + BlankLine(lines[k + 1..]);
        ReadIgnoresBlankTail(lines[n..], b, at + n);
        BlankTailAfterCue(lines, b, at, k, n);
      } else {
        BlankTailWithoutCue(lines, b, at);
      }
    }
  }

  lemma BlankTailAfterCue(lines: seq<string>, b: string, at: nat, k: nat, n: nat)
    requires Blank(b) && lines != [] && !Blank(lines[0])
    requires k == ArrowLine(lines) < |lines| && n == k + 1 + BlankLine(lines[k + 1..])
    requires ReadCues(lines[n..] + [b], at + n) == ReadCues(lines[n..], at + n)
    ensures ReadCues(lines + [b], at) == ReadCues(lines, at)
  {
    hide Blank, ReadTiming, Text.Contains, ReadCues, ArrowLine, BlankLine;
    var more := lines + [b];
    ArrowLineIs(more, k);
    assert more[k + 1..] == lines[k + 1..] + [b];
    BlankLineIs(more[k + 1..], n - k - 1);
    assert more[n..] == lines[n..] + [b];
    assert more[..k] == lines[..k] && more[k + 1..n] == lines[k + 1..n];
    FrontCue(more, at, k, n);
    FrontCue(lines, at, k, n);
  }

  lemma BlankTailWithoutCue(lines: seq<string>, b: string, at: nat)
    requires Blank(b) && lines != [] && !Blank(lines[0]) && ArrowLine(lines) == |lines|
    ensures ReadCues(lines + [b], at) == ReadCues(lines, at)
  {
    hide Blank, ReadTiming, Text.Contains, ReadCues;
    ArrowInBlank(b);
    ArrowLineIs(lines + [b], |lines + [b]|);
    FrontCue(lines + [b], at, |lines + [b]|, 0);
    FrontCue(lines, at, |lines|, 0);
  }

  lemma {:induction false} ArrowInBlank(b: string)
    requires Blank(b)
    ensures !Text.Contains(b, ARROW)
  {
    BlankIsSpace(b);
    NotFound(b, ARROW);
  }

  lemma BlankIsSpace(b: string)
    requires Blank(b)
    ensures AllSpace(b)
  {
    RightSpace(TrimLeft(b));
    LeftSpace(b);
  }

  lemma {:induction false} LeftSpace(b: string)
    requires AllSpace(TrimLeft(b))
    ensures AllSpace(b)
  {
    if b != [] && IsSpace(b[0]) {
      LeftSpace(b[1..]);
      assert b == [b[0]] + b[1..];
    }
  }

  lemma {:induction false} RightSpace(b: string)
    requires AllSpace(TrimRight(b))
    ensures AllSpace(b)
  {
    if b != [] && IsSpace(b[|b| - 1]) {
      RightSpace(b[..|b| - 1]);
      assert b == b[..|b| - 1] + [b[|b| - 1]];
    }
  }

  // ----- the whole document -----

  lemma TrimTailDrops(lines: seq<string>, b: string)
    requires lines != [] && Blank(b)
    ensures TrimTail(lines + [b]) == TrimTail(lines)
  {
    assert (lines + [b])[..|lines + [b]| - 1] == lines;
  }

  /** With a blank line more at the end the cues are the same, and so is the header up to blank lines at its end. */
  lemma DocumentIgnoresBlankTail(lines: seq<string>, b: string)
    requires lines != [] && Blank(b)
    ensures ReadDocument(lines + [b]).Success? <==> ReadDocument(lines).Success?
    ensures ReadDocument(lines).Success? ==>
              && ReadDocument(lines + [b]).value.cues == ReadDocument(lines).value.cues
              && TrimTail(ReadDocument(lines + [b]).value.header) == TrimTail(ReadDocument(lines).value.header)
  {
    hide Blank, ReadCues, HeaderLength, TrimTail;
    var h := HeaderLength(lines);
    var more := lines + [b];
    HeaderBlank(lines);
    NothingToRead(h);
    NothingToRead(h + 1);
    if h == |lines| && forall j | 1 <= j < h :: !Blank(lines[j]) {
      HeaderEndsAt(more, |lines|);
      assert more[..h + 1] == lines + [b] && lines[..h] == lines;
      assert more[h + 1..] == [] && lines[h..] == [];
      TrimTailDrops(lines, b);
    } else {
      HeaderEndsAt(more, h - 1);
      assert more[..h] == lines[..h];
      assert more[h..] == lines[h..] + [b];
      ReadIgnoresBlankTail(lines[h..], b, h);
    }
  }

  /** A header that stops before the end of the file stops at a blank line. */
  lemma HeaderBlank(lines: seq<string>)
    requires lines != []
    ensures var h := HeaderLength(lines);
      && 1 <= h
      && (forall j | 1 <= j < h - 1 :: !Blank(lines[j]))
      && ((h == |lines| && forall j | 1 <= j < h :: !Blank(lines[j])) || (h > 1 && Blank(lines[h - 1])))
  {
    hide Blank;
    if |lines| > 1 {
      var k := BlankLine(lines[1..]);
      assert forall j | 1 <= j < 1 + k :: lines[j] == lines[1..][j - 1];
      if 1 + k < |lines| {
        assert lines[1 + k] == lines[1..][k];
      }
    }
  }

  lemma {:induction false} DocumentAfterTrimTail(lines: seq<string>)
    requires lines != [] && ReadDocument(lines).Success?
    ensures ReadDocument(TrimTail(lines)).Success?
    ensures ReadDocument(TrimTail(lines)).value.cues == ReadDocument(lines).value.cues
    ensures TrimTail(ReadDocument(TrimTail(lines)).value.header) == TrimTail(ReadDocument(lines).value.header)
    decreases |lines|
  {
    hide Blank, ReadDocument;
    if |lines| > 1 && Blank(lines[|lines| - 1]) {
      var init, last := lines[..|lines| - 1], lines[|lines| - 1];
      assert lines == init + [last];
      DocumentIgnoresBlankTail(init, last);
      DocumentAfterTrimTail(init);
    }
  }

  lemma {:induction false} RetimedAreWritable(cues: seq<Cue>, keep: seq<Range>)
    requires Ordered(keep) && TotalMs(keep) <= MAX_INT64
    requires forall c <- cues :: Writable(c)
    ensures forall c <- RetimedCues(cues, keep) :: Writable(c) && InClock(c.timing)
  {
    hide Writable, InClock, RetimedCue;
    if cues != [] {
      assert cues == [cues[0]] + cues[1..];
      RetimedIsWritable(cues[0], keep);
      RetimedAreWritable(cues[1..], keep);
    }
  }

  lemma RetimedIsWritable(c: Cue, keep: seq<Range>)
    requires Ordered(keep) && TotalMs(keep) <= MAX_INT64 && Writable(c)
    ensures forall moved <- RetimedCue(c, keep) :: Writable(moved) && InClock(moved.timing)
  {
    MappedTimesAreKept(keep, c.timing.start, c.timing.end);
    KeptBeforeMonotone(keep, c.timing.start, c.timing.start);
    KeptBeforeMonotone(keep, c.timing.end, c.timing.end);
  }

  /** Lines that read as a header; if more lines follow, a blank one ends it. */
  ghost predicate IsHeader(header: seq<string>, more: bool) {
    && header != []
    && (forall j | 1 <= j < |header| - 1 :: !Blank(header[j]))
    && (more ==> |header| > 1 && Blank(header[|header| - 1]))
  }

  lemma ReadHeaderIs(lines: seq<string>)
    requires lines != [] && ReadDocument(lines).Success?
    ensures IsHeader(ReadDocument(lines).value.header, ReadDocument(lines).value.cues != [])
  {
    hide Blank, ReadCues;
    var h := HeaderLength(lines);
    HeaderBlank(lines);
    NothingToRead(h);
    if h == |lines| {
      assert lines[h..] == [];
    }
  }

  /** A header followed by cues is read as that header and those cues. */
  lemma HeaderThenCues(header: seq<string>, cues: seq<Cue>)
    requires IsHeader(header, cues != [])
    requires forall c <- cues :: Writable(c) && InClock(c.timing)
    ensures ReadDocument(header + AllCueLines(cues)) == Success(Document(header, cues))
  {
    hide Blank, ReadCues, AllCueLines, Writable, InClock;
    var h := |header|;
    var out := header + AllCueLines(cues);
    ReadWritten(cues, h);
    if h > 1 && Blank(header[h - 1]) {
      HeaderEndsAt(out, h - 1);
    } else {
      NoCueLines();
      assert out == header;
      HeaderEndsAt(out, h);
    }
    assert out[..h] == header && out[h..] == AllCueLines(cues);
  }

  lemma NoCueLines()
    ensures AllCueLines([]) == []
  {
  }

  /**
   * Reading the retimed file gives the input's header, up to blank lines at its end, and exactly
   * the cues that contain kept time, in order, on the cut axis.
   */
  lemma RetimedFileReadsBack(lines: seq<string>, keep: seq<Range>)
    requires Ordered(keep) && TotalMs(keep) <= MAX_INT64
    requires lines != [] && ReadDocument(lines).Success?
    ensures RetimedLines(lines, keep).Success?
    ensures
      var was, out := ReadDocument(lines).value, ReadDocument(RetimedLines(lines, keep).value);
      && out.Success?
      && out.value.cues == RetimedCues(was.cues, keep)
      && TrimTail(out.value.header) == TrimTail(was.header)
  {
    hide ReadCues, HeaderLength, Writable, InClock, TrimTail, AllCueLines, TotalMs;
    var doc := ReadDocument(lines).value;
    var cues := RetimedCues(doc.cues, keep);
    ReadCuesWritable(lines[HeaderLength(lines)..], HeaderLength(lines));
    RetimedAreWritable(doc.cues, keep);
    ReadHeaderIs(lines);
    HeaderThenCues(doc.header, cues);
    DocumentAfterTrimTail(doc.header + AllCueLines(cues));
  }
}
