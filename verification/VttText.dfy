/**
 * Retiming a WebVTT file as text: splitting into lines, retiming, joining again. Reading the
 * output gives the kept cues of the input, moved, up to one carriage return at the end of a line.
 */
module VttText {
  import opened Common
  import opened Text
  import opened Timeline
  import opened KeepRanges
  import opened KeepMap
  import opened VttTimes
  import opened WebVtt
  import opened VttTheorems
  import opened VttAcceptance

  /** Every carriage return in front of a line feed is dropped. */
  function DropReturns(data: string): string {
    if |data| < 2 then data
    else if data[0] == '\r' && data[1] == '\n' then "\n" + DropReturns(data[2..])
    else [data[0]] + DropReturns(data[1..])
  }

  function TextLines(data: string): (lines: seq<string>)
    ensures |lines| >= 1
  {
    Split(DropReturns(data), '\n')
  }

  function ReadText(data: string): Result<Document, VttError> {
    ReadDocument(TextLines(data))
  }

  function JoinLines(lines: seq<string>): string {
    if lines == [] then "\n" else Join(lines, '\n') + "\n"
  }

  function RetimedText(data: string, keep: seq<Range>): Result<string, VttError> {
    var lines := RetimedLines(TextLines(data), keep);
    if lines.Failure? then Failure(lines.error) else Success(JoinLines(lines.value))
  }

  // ----- carriage returns at the end of lines -----

  predicate EndsInReturn(line: string) {
    line != "" && line[|line| - 1] == '\r'
  }

  /** A line as it is read again: one carriage return at its end is lost. */
  function DropReturn(line: string): string {
    if EndsInReturn(line) then line[..|line| - 1] else line
  }

  function WithoutReturns(lines: seq<string>): (r: seq<string>)
    ensures |r| == |lines|
  {
    seq(|lines|, i requires 0 <= i < |lines| => DropReturn(lines[i]))
  }

  function CueWithoutReturns(c: Cue): Cue {
    Cue(WithoutReturns(c.id), c.timing, WithoutReturns(c.body))
  }

  function CuesWithoutReturns(cues: seq<Cue>): (r: seq<Cue>)
    ensures |r| == |cues|
  {
    seq(|cues|, i requires 0 <= i < |cues| => CueWithoutReturns(cues[i]))
  }

  lemma DropReturnsFront(s: string)
    requires s != ""
    ensures DropReturns(s) ==
      if |s| >= 2 && s[0] == '\r' && s[1] == '\n' then "\n" + DropReturns(s[2..]) else [s[0]] + DropReturns(s[1..])
  {
    if |s| == 1 {
      assert s[1..] == "" && s == [s[0]] + "";
    }
  }

  lemma {:induction false} DropReturnsInLine(line: string, rest: string)
    requires '\n' !in line
    ensures DropReturns(line + "\n" + rest) == DropReturn(line) + "\n" + DropReturns(rest)
  {
    hide DropReturns;
    var all := line + "\n" + rest;
    DropReturnsFront(all);
    if line == "" {
      assert all[1..] == rest;
    } else if line == "\r" {
      assert all[2..] == rest;
    } else {
      assert all[1..] == line[1..] + "\n" + rest;
      DropReturnsInLine(line[1..], rest);
      assert DropReturn(line) == [line[0]] + DropReturn(line[1..]);
      if |line| > 1 {
        assert line[1] in line;
      }
    }
  }

  lemma JoinStep(lines: seq<string>)
    requires |lines| > 1
    ensures Join(lines, '\n') == lines[0] + "\n" + Join(lines[1..], '\n')
  {
  }

  /** Text made of lines, read as lines again. */
  lemma {:induction false} DropReturnsInLines(lines: seq<string>)
    requires lines != [] && forall line <- lines :: '\n' !in line
    ensures DropReturns(Join(lines, '\n') + "\n") == Join(WithoutReturns(lines) + [""], '\n')
  {
    hide DropReturns, DropReturn, Join;
    var clean := WithoutReturns(lines) + [""];
    JoinStep(clean);
    assert lines[0] in lines;
    if |lines| == 1 {
      JoinOne(lines[0]);
      JoinOne("");
      DropReturnsInLine(lines[0], "");
      DropNothing();
      assert lines == [lines[0]] && clean[1..] == [""];
      assert lines[0] + "\n" + "" == lines[0] + "\n";
    } else {
      JoinStep(lines);
      DropReturnsInLine(lines[0], Join(lines[1..], '\n') + "\n");
      assert Join(lines, '\n') + "\n" == lines[0] + "\n" + (Join(lines[1..], '\n') + "\n");
      DropReturnsInLines(lines[1..]);
      assert clean[1..] == WithoutReturns(lines[1..]) + [""];
    }
  }

  lemma JoinOne(line: string)
    ensures Join([line], '\n') == line
  {
  }

  lemma DropNothing()
    ensures DropReturns("") == ""
  {
  }

  /** The lines of a written text are the lines it was made of, one carriage return less at each end. */
  lemma LinesReadBack(lines: seq<string>)
    requires lines != [] && forall line <- lines :: '\n' !in line
    ensures TextLines(JoinLines(lines)) == WithoutReturns(lines) + [""]
  {
    hide Join, Split, DropReturns;
    DropReturnsInLines(lines);
    var clean := WithoutReturns(lines) + [""];
    forall line <- clean
      ensures '\n' !in line
    {
      var i :| 0 <= i < |clean| && clean[i] == line;
      if i < |lines| {
        assert lines[i] in lines;
      }
    }
    SplitJoin(clean, '\n');
  }

  // ----- no line breaks inside the output lines -----

  /** Identifier and body lines are lines of the file, and settings are part of one. */
  ghost predicate IsFrom(c: Cue, lines: seq<string>) {
    && (forall line <- c.id :: line in lines)
    && (forall line <- c.body :: line in lines)
    && exists line <- lines :: IsWithin(c.timing.settings, line)
  }

  ghost predicate IsWithin(s: string, line: string) {
    forall ch <- s :: ch in line
  }

  lemma TrimIsWithin(s: string)
    ensures IsWithin(TrimSpace(s), s)
  {
    TrimSpaceTrims(s);
    var i :| IsPart(s, i, TrimSpace(s));
    assert TrimSpace(s) == s[i..i + |TrimSpace(s)|];
  }

  lemma SettingsAreWithin(line: string)
    requires ReadTiming(line).Success?
    ensures IsWithin(ReadTiming(line).value.settings, line)
  {
    hide TrimSpace, ReadTime;
    var tail := line[IndexOf(line, ARROW) + 3..];
    TrimIsWithin(tail);
    var after := TrimSpace(tail);
    var blank := IndexOf(after, " ");
    if blank >= 0 {
      TrimIsWithin(after[blank..]);
      assert forall ch <- after[blank..] :: ch in after;
    }
    assert forall ch <- tail :: ch in line;
  }

  lemma {:induction false} CuesAreFrom(lines: seq<string>, at: nat)
    requires ReadCues(lines, at).Success?
    ensures forall c <- ReadCues(lines, at).value :: IsFrom(c, lines)
    decreases |lines|
  {
    hide Blank, ReadTiming, ReadCues, ArrowLine, BlankLine;
    NothingToRead(at);
    if lines != [] {
      if Blank(lines[0]) {
        SkipBlank(lines, at);
        CuesAreFrom(lines[1..], at + 1);
        IsFromMore(ReadCues(lines[1..], at + 1).value, lines, 1);
      } else {
        var k := ArrowLine(lines);
        if k == |lines| {
          FrontCue(lines, at, k, 0);
        } else {
          var n := k + 1 + BlankLine(lines[k + 1..]);
          FrontCue(lines, at, k, n);
          CuesAreFrom(lines[n..], at + n);
          IsFromMore(ReadCues(lines[n..], at + n).value, lines, n);
          SettingsAreWithin(lines[k]);
          assert lines[k] in lines;
          assert IsFrom(Cue(lines[..k], ReadTiming(lines[k]).value, lines[k + 1..n]), lines);
        }
      }
    }
  }

  lemma IsFromMore(cues: seq<Cue>, lines: seq<string>, n: nat)
    requires n <= |lines| && forall c <- cues :: IsFrom(c, lines[n..])
    ensures forall c <- cues :: IsFrom(c, lines)
  {
    assert forall line <- lines[n..] :: line in lines;
  }

  /** No line of the cue holds a line break. */
  ghost predicate Flat(c: Cue) {
    (forall line <- c.id + c.body :: '\n' !in line) && '\n' !in c.timing.settings
  }

  lemma TimeIsFlat(ms: int)
    ensures '\n' !in FormatTime(ms) && !EndsInReturn(FormatTime(ms))
  {
    hide Padded;
    var t := Max(ms, 0);
    PaddedValue(t / 3_600_000, 2);
    PaddedValue(t / 60_000 % 60, 2);
    PaddedValue(t / 1000 % 60, 2);
    PaddedValue(t % 1000, 3);
    var s := FormatTime(ms);
    assert forall c <- s :: IsDigit(c) || c == ':' || c == '.';
    assert s != "" ==> s[|s| - 1] in s;
  }

  /** A timing line is written without a line break and without a carriage return at its end. */
  lemma TimingLineIsFlat(t: Timing)
    requires '\n' !in t.settings && Trimmed(t.settings)
    ensures '\n' !in FormatCue(t) && !EndsInReturn(FormatCue(t))
  {
    hide FormatTime;
    TimeIsFlat(t.start);
    TimeIsFlat(t.end);
    TimeCharacters(t.end);
  }

  lemma {:induction false} CueLinesAreFlat(cues: seq<Cue>)
    requires forall c <- cues :: Flat(c) && Writable(c)
    ensures forall line <- AllCueLines(cues) :: '\n' !in line
    ensures WithoutReturns(AllCueLines(cues)) == AllCueLines(CuesWithoutReturns(cues))
  {
    hide FormatCue, Blank;
    if cues == [] {
      NoCueLines();
      assert CuesWithoutReturns(cues) == [];
    } else {
      var c, rest := cues[0], cues[1..];
      assert c in cues;
      CueLinesAreFlat(rest);
      TimingLineIsFlat(c.timing);
      assert CuesWithoutReturns(cues)[1..] == CuesWithoutReturns(rest);
      OneCueIsFlat(c);
      assert WithoutReturns(AllCueLines(cues)) == WithoutReturns(CueLines(c)) + WithoutReturns(AllCueLines(rest));
    }
  }

  lemma OneCueIsFlat(c: Cue)
    requires Flat(c) && Writable(c)
    ensures forall line <- CueLines(c) :: '\n' !in line
    ensures WithoutReturns(CueLines(c)) == CueLines(CueWithoutReturns(c))
  {
    hide FormatCue, Blank;
    TimingLineIsFlat(c.timing);
    forall line <- CueLines(c)
      ensures '\n' !in line
    {
      assert line in c.id + c.body || line == FormatCue(c.timing) || line == "";
    }
  }

  // ----- carriage returns and the reading of lines -----

  lemma {:induction false} BlankWithoutReturn(line: string)
    ensures Blank(DropReturn(line)) <==> Blank(line)
  {
    if EndsInReturn(line) {
      if Blank(line) {
        BlankIsSpace(line);
        SpaceIsBlank(DropReturn(line));
      }
      if Blank(DropReturn(line)) {
        BlankIsSpace(DropReturn(line));
        assert line == DropReturn(line) + "\r";
        SpaceIsBlank(line);
      }
    }
  }

  lemma {:induction false} SpaceIsBlank(s: string)
    requires AllSpace(s)
    ensures Blank(s)
  {
    TrimLeftPadding(s, "");
    assert s + "" == s;
  }

  lemma NoArrowInPart(line: string, n: nat)
    requires n <= |line| && !Text.Contains(line, ARROW)
    ensures !Text.Contains(line[..n], ARROW)
  {
    var i := IndexOf(line[..n], ARROW);
    if i >= 0 {
      assert line[..n][i..i + 3] == line[i..i + 3];
      IndexOfIsFirst(line, ARROW, i);
    }
  }

  lemma WritableWithoutReturns(c: Cue)
    requires Writable(c)
    ensures Writable(CueWithoutReturns(c))
  {
    hide Blank, Text.Contains;
    var d := CueWithoutReturns(c);
    forall i | 0 <= i < |c.id|
      ensures !Text.Contains(d.id[i], ARROW)
    {
      assert c.id[i] in c.id;
      NoArrowInPart(c.id[i], |DropReturn(c.id[i])|);
    }
    if c.id != [] {
      BlankWithoutReturn(c.id[0]);
    }
    forall i | 0 <= i < |c.body|
      ensures !Blank(d.body[i])
    {
      assert c.body[i] in c.body;
      BlankWithoutReturn(c.body[i]);
    }
  }

  lemma HeaderWithoutReturns(header: seq<string>, more: bool)
    requires IsHeader(header, more)
    ensures IsHeader(WithoutReturns(header), more)
  {
    hide Blank, DropReturn;
    forall j | 0 <= j < |header|
      ensures Blank(WithoutReturns(header)[j]) <==> Blank(header[j])
    {
      BlankWithoutReturn(header[j]);
    }
  }

  lemma {:induction false} TrimTailWithoutReturns(lines: seq<string>)
    ensures TrimTail(WithoutReturns(lines)) == WithoutReturns(TrimTail(lines))
    decreases |lines|
  {
    hide Blank, DropReturn;
    if |lines| > 1 {
      BlankWithoutReturn(lines[|lines| - 1]);
      var init := lines[..|lines| - 1];
      assert WithoutReturns(lines)[..|lines| - 1] == WithoutReturns(init);
      if Blank(lines[|lines| - 1]) {
        TrimTailWithoutReturns(init);
      }
    }
  }

  lemma {:induction false} TrimTailIsPart(lines: seq<string>)
    requires lines != []
    ensures TrimTail(lines) != [] && forall line <- TrimTail(lines) :: line in lines
  {
    hide Blank;
    if |lines| > 1 && Blank(lines[|lines| - 1]) {
      TrimTailIsPart(lines[..|lines| - 1]);
    }
  }

  // ----- the whole text -----

  /** The retimed cues of a document, as they stand. */
  lemma {:induction false} RetimedAreFlat(cues: seq<Cue>, keep: seq<Range>)
    requires forall c <- cues :: Flat(c)
    ensures forall c <- RetimedCues(cues, keep) :: Flat(c)
  {
    hide MappedTimes;
    if cues != [] {
      assert cues[0] in cues;
      RetimedAreFlat(cues[1..], keep);
    }
  }

  lemma DocumentIsFlat(lines: seq<string>)
    requires ReadDocument(lines).Success? && forall line <- lines :: '\n' !in line
    ensures forall line <- ReadDocument(lines).value.header :: '\n' !in line
    ensures forall c <- ReadDocument(lines).value.cues :: Flat(c)
  {
    hide ReadCues, HeaderLength;
    var h := HeaderLength(lines);
    CuesAreFrom(lines[h..], h);
    assert forall line <- lines[h..] :: line in lines;
    assert forall line <- lines[..h] :: line in lines;
  }

  /**
   * Reading the retimed text gives the header of the input, up to blank lines at its end, and
   * exactly the cues that contain kept time, in order, on the cut axis; a line that ends in a
   * carriage return loses it.
   */
  lemma RetimedTextReadsBack(data: string, keep: seq<Range>)
    requires Ordered(keep) && TotalMs(keep) <= MAX_INT64
    requires ReadText(data).Success?
    ensures RetimedText(data, keep).Success?
    ensures
      var was, out := ReadText(data).value, ReadText(RetimedText(data, keep).value);
      && out.Success?
      && out.value.cues == CuesWithoutReturns(RetimedCues(was.cues, keep))
      && TrimTail(out.value.header) == TrimTail(WithoutReturns(was.header))
  {
    hide ReadDocument, Split, DropReturns, Join, TrimTail, AllCueLines, TotalMs, Ordered;
    var lines := TextLines(data);
    var doc := ReadDocument(lines).value;
    var cues := RetimedCues(doc.cues, keep);
    SplitParts(DropReturns(data), '\n');
    WrittenLines(lines, keep);
    var full := doc.header + AllCueLines(cues);
    LinesReadBack(TrimTail(full));
    TrimTailWithoutReturns(full);
    var clean := WithoutReturns(doc.header) + AllCueLines(CuesWithoutReturns(cues));
    assert WithoutReturns(full) == clean;
    TrimTailIsPart(clean);
    BlankEmpty();
    DocumentIgnoresBlankTail(TrimTail(clean), "");
    DocumentAfterTrimTail(clean);
  }

  /** The lines written and the lines read again, before blank ones at the end are removed. */
  lemma WrittenLines(lines: seq<string>, keep: seq<Range>)
    requires Ordered(keep) && TotalMs(keep) <= MAX_INT64
    requires lines != [] && ReadDocument(lines).Success? && forall line <- lines :: '\n' !in line
    ensures
      var doc := ReadDocument(lines).value;
      var cues := RetimedCues(doc.cues, keep);
      var full := doc.header + AllCueLines(cues);
      && RetimedLines(lines, keep) == Success(TrimTail(full))
      && TrimTail(full) != [] && (forall line <- TrimTail(full) :: '\n' !in line)
      && doc.header != []
      && WithoutReturns(AllCueLines(cues)) == AllCueLines(CuesWithoutReturns(cues))
      && ReadDocument(WithoutReturns(doc.header) + AllCueLines(CuesWithoutReturns(cues)))
         == Success(Document(WithoutReturns(doc.header), CuesWithoutReturns(cues)))
  {
    hide ReadCues, HeaderLength, Writable, InClock, TrimTail, AllCueLines, TotalMs, Ordered, Blank, DropReturn;
    var doc := ReadDocument(lines).value;
    var cues := RetimedCues(doc.cues, keep);
    ReadCuesWritable(lines[HeaderLength(lines)..], HeaderLength(lines));
    RetimedAreWritable(doc.cues, keep);
    DocumentIsFlat(lines);
    RetimedAreFlat(doc.cues, keep);
    CueLinesAreFlat(cues);
    ReadHeaderIs(lines);
    TrimTailIsPart(doc.header + AllCueLines(cues));
    HeaderWithoutReturns(doc.header, cues != []);
    forall c <- CuesWithoutReturns(cues)
      ensures Writable(c) && InClock(c.timing)
    {
      var i :| 0 <= i < |cues| && CuesWithoutReturns(cues)[i] == c;
      assert cues[i] in cues;
      WritableWithoutReturns(cues[i]);
    }
    HeaderThenCues(WithoutReturns(doc.header), CuesWithoutReturns(cues));
  }

  // ----- when nothing is lost -----

  /** Reading the retimed text gives the header and the kept cues without any loss. */
  ghost predicate ReadsBack(data: string, keep: seq<Range>)
    requires ReadText(data).Success?
  {
    && RetimedText(data, keep).Success?
    && var was, out := ReadText(data).value, ReadText(RetimedText(data, keep).value);
      && out.Success?
      && out.value.cues == RetimedCues(was.cues, keep)
      && TrimTail(out.value.header) == TrimTail(was.header)
  }

  ghost predicate NoReturns(lines: seq<string>) {
    forall line <- lines :: !EndsInReturn(line)
  }

  lemma WithoutReturnsIsSame(lines: seq<string>)
    ensures WithoutReturns(lines) == lines <==> NoReturns(lines)
  {
    if WithoutReturns(lines) == lines {
      forall i | 0 <= i < |lines|
        ensures !EndsInReturn(lines[i])
      {
        assert |DropReturn(lines[i])| == |WithoutReturns(lines)[i]|;
      }
    } else {
      var i :| 0 <= i < |lines| && WithoutReturns(lines)[i] != lines[i];
      assert lines[i] in lines;
    }
  }

  lemma CuesWithoutReturnsAreSame(cues: seq<Cue>)
    ensures CuesWithoutReturns(cues) == cues <==> forall c <- cues :: NoReturns(c.id) && NoReturns(c.body)
  {
    hide NoReturns, WithoutReturns;
    forall i | 0 <= i < |cues|
      ensures CuesWithoutReturns(cues)[i] == cues[i] <==> NoReturns(cues[i].id) && NoReturns(cues[i].body)
    {
      WithoutReturnsIsSame(cues[i].id);
      WithoutReturnsIsSame(cues[i].body);
    }
    if CuesWithoutReturns(cues) == cues {
      forall c <- cues
        ensures NoReturns(c.id) && NoReturns(c.body)
      {
        var i :| 0 <= i < |cues| && cues[i] == c;
      }
    } else {
      var i :| 0 <= i < |cues| && CuesWithoutReturns(cues)[i] != cues[i];
      assert cues[i] in cues;
    }
  }

  /**
   * Nothing is lost exactly when no identifier or body line of a kept cue and no line of the
   * header, but for blank ones at its end, ends in a carriage return once those in front of line
   * feeds are dropped.
   */
  lemma ReadsBackIff(data: string, keep: seq<Range>)
    requires Ordered(keep) && TotalMs(keep) <= MAX_INT64
    requires ReadText(data).Success?
    ensures ReadsBack(data, keep) <==>
      && (forall c <- RetimedCues(ReadText(data).value.cues, keep) :: NoReturns(c.id) && NoReturns(c.body))
      && NoReturns(TrimTail(ReadText(data).value.header))
  {
    hide ReadText, RetimedText, CuesWithoutReturns, WithoutReturns, NoReturns, TrimTail, Ordered, TotalMs;
    RetimedTextReadsBack(data, keep);
    var was := ReadText(data).value;
    CuesWithoutReturnsAreSame(RetimedCues(was.cues, keep));
    TrimTailWithoutReturns(was.header);
    WithoutReturnsIsSame(TrimTail(was.header));
  }

  lemma {:induction false} RetimedCuesKeepLines(cues: seq<Cue>, keep: seq<Range>, lines: seq<string>)
    requires forall c <- cues :: IsFrom(c, lines)
    ensures forall c <- RetimedCues(cues, keep) :: IsFrom(c, lines)
  {
    hide MappedTimes;
    if cues != [] {
      assert cues[0] in cues;
      RetimedCuesKeepLines(cues[1..], keep, lines);
    }
  }

  /** In particular nothing is lost of a file none of whose lines ends in a carriage return. */
  lemma CleanTextReadsBack(data: string, keep: seq<Range>)
    requires Ordered(keep) && TotalMs(keep) <= MAX_INT64
    requires ReadText(data).Success? && NoReturns(TextLines(data))
    ensures ReadsBack(data, keep)
  {
    hide ReadCues, HeaderLength, TrimTail, Ordered, TotalMs, Split, DropReturns, ReadsBack, EndsInReturn;
    var lines := TextLines(data);
    var h := HeaderLength(lines);
    CuesAreFrom(lines[h..], h);
    RetimedCuesKeepLines(ReadDocument(lines).value.cues, keep, lines[h..]);
    ReadHeaderIs(lines);
    TrimTailIsPart(lines[..h]);
    ReadsBackIff(data, keep);
  }

  /** A file of one line. */
  lemma OneLineDocument(line: string, keep: seq<Range>)
    ensures ReadDocument([line, ""]) == Success(Document([line, ""], []))
    ensures RetimedLines([line, ""], keep) == Success([line])
  {
    hide Blank, ReadCues, HeaderLength;
    var lines := [line, ""];
    BlankEmpty();
    HeaderEndsAt(lines, 1);
    NothingToRead(2);
    NoCueLines();
    assert lines[..2] == lines && lines[2..] == [] && lines + [] == lines;
    TrimTailDrops([line], "");
    assert [line] + [""] == lines;
  }

  lemma OneLineText(line: string)
    requires '\n' !in line
    ensures Split(line + "\n", '\n') == [line, ""]
    ensures JoinLines([line]) == line + "\n"
  {
    hide Split;
    SplitFirst(line, '\n', "");
    SplitWhole("", '\n');
    assert line + ['\n'] + "" == line + "\n";
  }

  /** A second carriage return stays in the output, where the next reading takes it for a line end. */
  lemma ReturnIsLost(keep: seq<Range>)
    ensures RetimedText("WEBVTT\r\r\n", keep) == Success("WEBVTT\r\n")
    ensures ReadText("WEBVTT\r\r\n") == Success(Document(["WEBVTT\r", ""], []))
    ensures ReadText("WEBVTT\r\n") == Success(Document(["WEBVTT", ""], []))
  {
    hide DropReturns, Split, ReadDocument, RetimedLines, JoinLines;
    OneLineText("WEBVTT\r");
    OneLineText("WEBVTT");
    OneLineDocument("WEBVTT\r", keep);
    OneLineDocument("WEBVTT", keep);
    DropNothing();
    DropReturnsInLine("WEBVTT\r\r", "");
    DropReturnsInLine("WEBVTT\r", "");
    assert "WEBVTT\r\r\n" == "WEBVTT\r\r" + "\n" + "";
    assert "WEBVTT\r\n" == "WEBVTT\r" + "\n" + "";
    assert "WEBVTT\r\r"[..7] == "WEBVTT\r" && "WEBVTT\r"[..6] == "WEBVTT";
    assert "WEBVTT\r" + "\n" + "" == "WEBVTT\r" + "\n";
    assert "WEBVTT" + "\n" + "" == "WEBVTT" + "\n";
  }

  /** Bytes in, bytes out. What the output says when it is read again, and when there is one. */
  method RetimeVTT(data: string, keep: seq<Range>) returns (r: Result<string, VttError>)
    ensures r == RetimedText(data, keep)
    ensures r.Success? <==> Acceptable(TextLines(data)[HeaderLength(TextLines(data))..])
    ensures r.Failure? ==> ReadText(data) == Failure(r.error)
    ensures r.Success? && Ordered(keep) && TotalMs(keep) <= MAX_INT64 ==>
      var was, out := ReadText(data).value, ReadText(r.value);
      && out.Success?
      && out.value.cues == CuesWithoutReturns(RetimedCues(was.cues, keep))
      && TrimTail(out.value.header) == TrimTail(WithoutReturns(was.header))
  {
    hide Split, DropReturns, HeaderLength, Acceptable, TotalMs, Ordered, CuesWithoutReturns, WithoutReturns, TrimTail;
    AcceptedIff(TextLines(data), keep);
    if ReadText(data).Success? && Ordered(keep) && TotalMs(keep) <= MAX_INT64 {
      RetimedTextReadsBack(data, keep);
    }
    var out := RetimeLines(Split(DropReturns(data), '\n'), keep);
    r := if out.Failure? then Failure(out.error) else Success(JoinLines(out.value));
  }
}
