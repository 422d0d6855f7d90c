/**
 * Timing lines as texts, and files whose times leave out hours that are nought: with "00:"
 * written in front of such times a file is accepted as before and retimed to the same output.
 */
module VttHours {
  import opened Common
  import opened Text
  import opened Timeline
  import opened VttTimes
  import opened VttReading
  import opened WebVtt
  import opened VttTheorems
  import opened VttAcceptance
  import opened VttText

  // ----- one timing line -----

  /** A timing line, piece by piece; what follows the end time is all in `tail`. */
  datatype TimingText = TimingText(left: string, start: string, mid: string, gap: string, end: string, tail: string) {
    function Line(): string {
      left + start + mid + "-->" + gap + end + tail
    }

    /** White space around two times, and the settings behind a blank. */
    ghost predicate Valid() {
      && AllSpace(left) && AllSpace(mid) && AllSpace(gap) && (tail == "" || tail[0] == ' ')
      && IsWord(start) && IsWord(end)
    }
  }

  /** Some characters, none of them white space or a hyphen. */
  ghost predicate IsWord(w: string) {
    w != "" && forall c <- w :: !IsSpace(c) && c != '-'
  }

  lemma SpaceHasNoHyphen(s: string)
    requires AllSpace(s)
    ensures '-' !in s
  {
  }

  lemma ArrowAt(x: TimingText)
    requires x.Valid()
    ensures var line, i := x.Line(), |x.left| + |x.start| + |x.mid|;
      && IndexOf(line, ARROW) == i && line[..i] == x.left + x.start + x.mid
      && line[i + 3..] == x.gap + x.end + x.tail
  {
    hide IndexOf, IsSpace;
    SpaceHasNoHyphen(x.left);
    SpaceHasNoHyphen(x.mid);
    var before := x.left + x.start + x.mid;
    assert '-' !in before;
    IndexOfAfter(before, ARROW, x.gap + x.end + x.tail);
    assert x.Line() == before + ARROW + (x.gap + x.end + x.tail);
  }

  lemma WordIsTrimmed(w: string)
    requires IsWord(w)
    ensures Trimmed(w) && ' ' !in w
  {
    assert w[0] in w && w[|w| - 1] in w;
    assert IsSpace(' ');
  }

  /** White space at the end of the settings is dropped, and a line without settings ends with its end time. */
  lemma {:induction false} TailTrimmed(front: string, tail: string)
    requires front != "" && !IsSpace(front[|front| - 1])
    ensures TrimRight(front + tail) == front + TrimRight(tail)
  {
    hide IsSpace;
    if tail == "" {
      assert front + tail == front;
    } else if IsSpace(tail[|tail| - 1]) {
      assert (front + tail)[..|front + tail| - 1] == front + tail[..|tail| - 1];
      TailTrimmed(front, tail[..|tail| - 1]);
    }
  }

  lemma AfterArrowIs(x: TimingText)
    requires x.Valid()
    ensures
      var after := TrimSpace(x.gap + x.end + x.tail);
      var blank := IndexOf(after, " ");
      && (if blank >= 0 then after[..blank] else after) == x.end
      && (if blank >= 0 then TrimSpace(after[blank..]) else "") == TrimSpace(TrimRight(x.tail))
  {
    hide IndexOf, IsSpace, TrimRight, TrimLeft;
    var tail := TrimRight(x.tail);
    WordIsTrimmed(x.end);
    assert x.gap + x.end + x.tail == x.gap + (x.end + x.tail);
    TrimLeftPadding(x.gap, x.end + x.tail);
    TailTrimmed(x.end, x.tail);
    TrimRightIsPrefix(x.tail);
    if tail == "" {
      assert x.end + tail == x.end;
      NotFound(x.end, " ");
      TrimmedUnchanged("");
    } else {
      assert tail[0] == ' ';
      IndexOfAfter(x.end, " ", tail[1..]);
      assert x.end + tail == x.end + " " + tail[1..];
      assert (x.end + tail)[|x.end|..] == tail;
    }
  }

  /** A timing line is read as its two times and its settings. */
  lemma TimingTextIsRead(x: TimingText)
    requires x.Valid()
    ensures ReadTiming(x.Line()).Success? <==> ReadTime(x.start).Success? && ReadTime(x.end).Success?
    ensures ReadTiming(x.Line()).Success? ==>
      ReadTiming(x.Line()).value ==
        Timing(ReadTime(x.start).value, ReadTime(x.end).value, TrimSpace(TrimRight(x.tail)))
  {
    hide IndexOf, IsSpace, TrimSpace, TrimRight, ReadTime;
    ArrowAt(x);
    AfterArrowIs(x);
    WordIsTrimmed(x.start);
    TrimPadding(x.left, x.start, x.mid);
  }

  // ----- hours that are nought -----

  /** `long` is `short`, or `short` is minutes and seconds and "00:" stands in front of it. */
  ghost predicate SameTime(short: string, long: string) {
    long == short || (long == "00:" + short && exists m, sec :: ':' !in m && ':' !in sec && short == m + ":" + sec)
  }

  /** The same timing line, but that hours which are nought may be written in the second only. */
  ghost predicate WithHours(x: TimingText, y: TimingText) {
    && x.Valid() && y.Valid() && SameTime(x.start, y.start) && SameTime(x.end, y.end)
    && y == x.(start := y.start, end := y.end)
  }

  ghost predicate LineWithHours(short: string, long: string) {
    exists x, y :: WithHours(x, y) && short == x.Line() && long == y.Line()
  }

  lemma SameTimeIsRead(short: string, long: string)
    requires SameTime(short, long)
    ensures ReadTime(short).Success? <==> ReadTime(long).Success?
    ensures ReadTime(short).Success? ==> ReadTime(long) == ReadTime(short)
  {
    hide ReadTime;
    if long != short {
      var m, sec :| ':' !in m && ':' !in sec && short == m + ":" + sec;
      assert long == "00:" + m + ":" + sec;
      if ReadTime(short).Success? {
        HoursMayBeMissing(m, sec, ReadTime(short).value);
      }
      if ReadTime(long).Success? {
        HoursMayBeMissing(m, sec, ReadTime(long).value);
      }
    }
  }

  lemma LineWithHoursIsRead(short: string, long: string)
    requires LineWithHours(short, long)
    ensures HasArrow(short) && HasArrow(long)
    ensures ReadTiming(short).Success? <==> ReadTiming(long).Success?
    ensures ReadTiming(short).Success? ==> ReadTiming(long) == ReadTiming(short)
  {
    hide ReadTiming, ReadTime, SameTime, TrimSpace, TrimRight, IndexOf;
    var x, y :| WithHours(x, y) && short == x.Line() && long == y.Line();
    ArrowAt(x);
    ArrowAt(y);
    TimingTextIsRead(x);
    TimingTextIsRead(y);
    SameTimeIsRead(x.start, y.start);
    SameTimeIsRead(x.end, y.end);
  }

  // ----- files -----

  /** The same lines, but that the times of timing lines may write hours in the second only. */
  ghost predicate FileWithHours(short: seq<string>, long: seq<string>) {
    && |short| == |long|
    && forall j | 0 <= j < |short| ::
         long[j] == short[j] || (Detached(short, j) && LineWithHours(short[j], long[j]))
  }

  ghost predicate SameOutcome<T>(a: Result<T, VttError>, b: Result<T, VttError>) {
    (a.Success? <==> b.Success?) && (a.Success? ==> b == a)
  }

  lemma ArrowIsNotBlank(line: string)
    requires HasArrow(line)
    ensures !Blank(line)
  {
    hide Blank, Text.Contains;
    if Blank(line) {
      ArrowInBlank(line);
    }
  }

  /** Arrows and blank lines are where they were. */
  lemma SameShape(short: seq<string>, long: seq<string>, j: nat)
    requires FileWithHours(short, long) && j < |short|
    ensures HasArrow(long[j]) <==> HasArrow(short[j])
    ensures Blank(long[j]) <==> Blank(short[j])
    ensures long[j] != short[j] ==> Detached(short, j) && LineWithHours(short[j], long[j])
  {
    hide Blank, HasArrow, ReadTiming, LineWithHours;
    if long[j] != short[j] {
      LineWithHoursIsRead(short[j], long[j]);
      ArrowIsNotBlank(short[j]);
      ArrowIsNotBlank(long[j]);
    }
  }

  /** What follows a blank line or comes after the first cue. */
  lemma RestWithHours(short: seq<string>, long: seq<string>, n: nat)
    requires FileWithHours(short, long) && n <= |short|
    requires n < |short| ==> Blank(short[n]) || (n > 0 && Blank(short[n - 1]))
    ensures FileWithHours(short[n..], long[n..])
  {
    hide Blank, Detached, LineWithHours;
    forall j | n <= j < |short| && long[j] != short[j]
      ensures Detached(short[n..], j - n) && LineWithHours(short[j], long[j])
    {
      SameShape(short, long, j);
      LineWithHoursIsRead(short[j], long[j]);
      ArrowIsNotBlank(short[j]);
      DetachedBehindBlank(short, n, j);
    }
  }

  /** A line of the first cue other than its timing line is the same in both. */
  lemma SameCueLine(short: seq<string>, long: seq<string>, k: nat, n: nat, j: nat)
    requires FileWithHours(short, long) && k < n <= |short| && j < n && j != k
    requires k == ArrowLine(short) && n == k + 1 + BlankLine(short[k + 1..])
    ensures long[j] == short[j]
  {
    hide Blank, Text.Contains, LineWithHours, ReadTiming, ArrowLine, BlankLine;
    forall b: nat | k < b < j
      ensures !Blank(short[b])
    {
      assert short[k + 1..][b - k - 1] == short[b];
    }
    assert !BlankBetween(short, k, j);
    if long[j] != short[j] {
      SameShape(short, long, j);
      LineWithHoursIsRead(short[j], long[j]);
    }
  }

  lemma FirstCueWithHours(short: seq<string>, long: seq<string>, k: nat, n: nat)
    requires FileWithHours(short, long) && short != [] && !Blank(short[0])
    requires k == ArrowLine(short) < |short| && n == k + 1 + BlankLine(short[k + 1..])
    ensures !Blank(long[0]) && ArrowLine(long) == k && n == k + 1 + BlankLine(long[k + 1..])
    ensures long[..k] == short[..k] && long[k + 1..n] == short[k + 1..n]
    ensures SameOutcome(ReadTiming(short[k]), ReadTiming(long[k]))
    ensures FileWithHours(short[n..], long[n..])
  {
    hide Blank, Text.Contains, ReadTiming, ArrowLine, BlankLine, FileWithHours, LineWithHours, Detached;
    forall j: nat | j < |short|
      ensures |long| == |short| && (HasArrow(long[j]) <==> HasArrow(short[j])) && (Blank(long[j]) <==> Blank(short[j]))
    {
      SizeWithHours(short, long);
      SameShape(short, long, j);
    }
    SizeWithHours(short, long);
    ArrowLineIs(long, k);
    forall j: nat | k + 1 <= j < n
      ensures !Blank(long[j])
    {
      assert short[k + 1..][j - k - 1] == short[j];
    }
    assert n < |short| ==> short[k + 1..][n - k - 1] == short[n];
    BlankLineIs(long[k + 1..], n - k - 1);
    forall j: nat | j < n && j != k
      ensures long[j] == short[j]
    {
      SameCueLine(short, long, k, n, j);
    }
    SameShape(short, long, k);
    if long[k] != short[k] {
      LineWithHoursIsRead(short[k], long[k]);
    }
    RestWithHours(short, long, n);
  }

  lemma SizeWithHours(short: seq<string>, long: seq<string>)
    requires FileWithHours(short, long)
    ensures |long| == |short|
  {
  }

  lemma {:induction false} CuesWithHours(short: seq<string>, long: seq<string>, at: nat)
    requires FileWithHours(short, long)
    ensures SameOutcome(ReadCues(short, at), ReadCues(long, at))
    decreases |short|
  {
    hide Blank, ReadTiming, Text.Contains, ReadCues, ArrowLine, BlankLine, FileWithHours;
    SizeWithHours(short, long);
    if short == [] {
    } else if Blank(short[0]) {
      SameShape(short, long, 0);
      SkipBlank(short, at);
      SkipBlank(long, at);
      RestWithHours(short, long, 1);
      CuesWithHours(short[1..], long[1..], at + 1);
    } else {
      var k := ArrowLine(short);
      if k == |short| {
        forall j: nat | j < |short|
          ensures !HasArrow(long[j]) && (Blank(long[j]) <==> Blank(short[j]))
        {
          SameShape(short, long, j);
        }
        ArrowLineIs(long, k);
        FrontCue(short, at, k, 0);
        FrontCue(long, at, k, 0);
      } else {
        var n := k + 1 + BlankLine(short[k + 1..]);
        FirstCueWithHours(short, long, k, n);
        FrontCue(short, at, k, n);
        FrontCue(long, at, k, n);
        CuesWithHours(short[n..], long[n..], at + n);
      }
    }
  }

  /** Writing hours that are nought in front of times changes neither acceptance nor output. */
  lemma HoursChangeNothing(short: seq<string>, long: seq<string>, keep: seq<Range>)
    requires var h := HeaderLength(short);
      |long| >= h && long[..h] == short[..h] && FileWithHours(short[h..], long[h..])
    ensures SameOutcome(RetimedLines(short, keep), RetimedLines(long, keep))
  {
    hide FileWithHours, ReadCues, HeaderLength, AllCueLines, TrimTail;
    var h := HeaderLength(short);
    SameHeader(short, long);
    CuesWithHours(short[h..], long[h..], h);
  }

  lemma SameHeader(short: seq<string>, long: seq<string>)
    requires var h := HeaderLength(short);
      |long| >= h && long[..h] == short[..h] && FileWithHours(short[h..], long[h..])
    ensures |long| == |short| && HeaderLength(long) == HeaderLength(short)
  {
    hide Blank;
    var h := HeaderLength(short);
    SizeWithHours(short[h..], long[h..]);
    forall j: nat | j < h
      ensures long[j] == short[j]
    {
      assert long[..h][j] == short[..h][j];
    }
    var b := if |short| <= 1 then |short| else 1 + BlankLine(short[1..]);
    if |short| > 1 {
      assert forall j | 0 <= j < b - 1 :: short[1..][j] == short[j + 1];
      assert b < |short| ==> short[1..][b - 1] == short[b];
      HeaderEndsAt(long, b);
    }
  }

  /** The same for whole texts. */
  lemma HoursChangeNoText(short: string, long: string, keep: seq<Range>)
    requires var a, b := TextLines(short), TextLines(long); var h := HeaderLength(a);
      |b| >= h && b[..h] == a[..h] && FileWithHours(a[h..], b[h..])
    ensures SameOutcome(RetimedText(short, keep), RetimedText(long, keep))
  {
    hide RetimedLines, TextLines, FileWithHours;
    HoursChangeNothing(TextLines(short), TextLines(long), keep);
  }
}
