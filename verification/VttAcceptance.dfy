/**
 * Which files retiming accepts. A line is detached if a blank line separates it from every line
 * with an arrow before it, so that it belongs to no cue read so far. A file is accepted exactly
 * when, after its header, every detached line that is not blank has a line with an arrow at or
 * after it, and every detached line with an arrow reads as a timing line.
 */
module VttAcceptance {
  import opened Common
  import opened Text
  import opened Timeline
  import opened VttTimes
  import opened WebVtt
  import opened VttTheorems

  predicate HasArrow(line: string) {
    Text.Contains(line, ARROW)
  }

  ghost predicate BlankBetween(lines: seq<string>, i: int, j: int) {
    exists b :: 0 <= i < b < j <= |lines| && Blank(lines[b])
  }

  /** A blank line lies between line `j` and every line with an arrow before it. */
  ghost predicate Detached(lines: seq<string>, j: nat)
    requires j < |lines|
  {
    forall i | 0 <= i < j && HasArrow(lines[i]) :: BlankBetween(lines, i, j)
  }

  ghost predicate ArrowFrom(lines: seq<string>, j: nat) {
    exists k :: j <= k < |lines| && HasArrow(lines[k])
  }

  /** The line asks nothing that reading cannot give. */
  ghost predicate LineFits(lines: seq<string>, j: nat)
    requires j < |lines|
  {
    Blank(lines[j]) || !Detached(lines, j) ||
    (ArrowFrom(lines, j) && (HasArrow(lines[j]) ==> ReadTiming(lines[j]).Success?))
  }

  /** What the lines after a header must be like. */
  ghost predicate Acceptable(lines: seq<string>) {
    forall j | 0 <= j < |lines| :: LineFits(lines, j)
  }

  // ----- one cue at a time -----

  /** Behind a blank line the lines before it do not matter. */
  lemma DetachedBehindBlank(lines: seq<string>, n: nat, j: nat)
    requires n <= j < |lines| && !Blank(lines[j])
    requires Blank(lines[n]) || (n > 0 && Blank(lines[n - 1]))
    ensures Detached(lines, j) <==> Detached(lines[n..], j - n)
  {
    hide Blank, Text.Contains;
    var rest := lines[n..];
    if Detached(rest, j - n) {
      forall i | 0 <= i < j && HasArrow(lines[i])
        ensures BlankBetween(lines, i, j)
      {
        if i >= n {
          assert rest[i - n] == lines[i] && BlankBetween(rest, i - n, j - n);
          var b :| 0 <= i - n < b < j - n && Blank(rest[b]);
          assert lines[b + n] == rest[b];
        } else if Blank(lines[n]) {
          assert BlankBetween(lines, i, j);
        } else {
          ArrowInBlank(lines[n - 1]);
        }
      }
    }
    if Detached(lines, j) {
      forall i | 0 <= i < j - n && HasArrow(rest[i])
        ensures BlankBetween(rest, i, j - n)
      {
        assert rest[i] == lines[i + n] && BlankBetween(lines, i + n, j);
        var b :| i + n < b < j && Blank(lines[b]);
        assert rest[b - n] == lines[b];
      }
    }
  }

  lemma FitsBehindBlank(lines: seq<string>, n: nat, j: nat)
    requires n <= j < |lines|
    requires Blank(lines[n]) || (n > 0 && Blank(lines[n - 1]))
    ensures LineFits(lines, j) <==> LineFits(lines[n..], j - n)
  {
    hide Blank, Text.Contains, Detached, ReadTiming;
    var rest := lines[n..];
    assert rest[j - n] == lines[j];
    if !Blank(lines[j]) {
      DetachedBehindBlank(lines, n, j);
      if k :| j <= k < |lines| && HasArrow(lines[k]) {
        assert rest[k - n] == lines[k];
      }
      if k :| j - n <= k < |rest| && HasArrow(rest[k]) {
        assert lines[k + n] == rest[k];
      }
    }
  }

  lemma BlankFits(lines: seq<string>)
    requires lines != [] && Blank(lines[0])
    ensures LineFits(lines, 0)
  {
  }

  lemma NothingIsAcceptable()
    ensures Acceptable([])
  {
  }

  /** A line behind a blank one with no arrow at or after it. */
  lemma OrphanIsUnacceptable(lines: seq<string>, j: nat)
    requires j < |lines| && !Blank(lines[j]) && (j > 0 ==> Blank(lines[j - 1]))
    requires forall k | j <= k < |lines| :: !HasArrow(lines[k])
    ensures !Acceptable(lines)
  {
    hide Blank, Text.Contains, ReadTiming;
    forall i | 0 <= i < j && HasArrow(lines[i])
      ensures BlankBetween(lines, i, j)
    {
      if i == j - 1 {
        ArrowInBlank(lines[i]);
      }
    }
    assert !LineFits(lines, j);
  }

  lemma AcceptableAfterBlank(lines: seq<string>)
    requires lines != [] && Blank(lines[0])
    ensures Acceptable(lines) <==> Acceptable(lines[1..])
  {
    hide LineFits, Blank;
    var rest := lines[1..];
    BlankFits(lines);
    forall j | 0 <= j < |rest|
      ensures LineFits(rest, j) <==> LineFits(lines, j + 1)
    {
      FitsBehindBlank(lines, 1, j + 1);
    }
    if Acceptable(rest) {
      forall j | 0 <= j < |lines|
        ensures LineFits(lines, j)
      {
        assert j > 0 ==> LineFits(rest, j - 1);
      }
    }
  }

  /** The lines of the first cue fit exactly when its timing line reads. */
  lemma CueFits(lines: seq<string>, k: nat, n: nat, j: nat)
    requires lines != [] && !Blank(lines[0])
    requires k == ArrowLine(lines) < |lines| && n == k + 1 + BlankLine(lines[k + 1..])
    requires j < n
    ensures j == k ==> (LineFits(lines, j) <==> ReadTiming(lines[k]).Success?)
    ensures j != k ==> LineFits(lines, j)
  {
    hide Blank, ReadTiming, Text.Contains, ArrowLine, BlankLine;
    if j <= k {
      assert ArrowFrom(lines, j);
      assert !Blank(lines[k]) by {
        if Blank(lines[k]) {
          ArrowInBlank(lines[k]);
        }
      }
    } else {
      forall b | k < b < j
        ensures !Blank(lines[b])
      {
        assert lines[k + 1..][b - k - 1] == lines[b];
      }
      assert !Detached(lines, j);
    }
  }

  lemma AcceptableCue(lines: seq<string>, k: nat, n: nat)
    requires lines != [] && !Blank(lines[0])
    requires k == ArrowLine(lines) < |lines| && n == k + 1 + BlankLine(lines[k + 1..])
    ensures Acceptable(lines) <==> ReadTiming(lines[k]).Success? && Acceptable(lines[n..])
  {
    hide LineFits, Blank, ReadTiming, Text.Contains, ArrowLine, BlankLine;
    var rest := lines[n..];
    CueFits(lines, k, n, k);
    forall j | 0 <= j < n && j != k
      ensures LineFits(lines, j)
    {
      CueFits(lines, k, n, j);
    }
    forall j | 0 <= j < |rest|
      ensures LineFits(rest, j) <==> LineFits(lines, j + n)
    {
      assert lines[k + 1..][n - k - 1] == lines[n];
      FitsBehindBlank(lines, n, j + n);
    }
    if Acceptable(rest) && ReadTiming(lines[k]).Success? {
      forall j | 0 <= j < |lines|
        ensures LineFits(lines, j)
      {
        assert j >= n ==> LineFits(rest, j - n);
      }
    }
  }

  /** Cues are read exactly from acceptable lines. */
  lemma {:induction false} CuesReadIffAcceptable(lines: seq<string>, at: nat)
    ensures ReadCues(lines, at).Success? <==> Acceptable(lines)
    decreases |lines|
  {
    hide Blank, ReadTiming, Text.Contains, ReadCues, ArrowLine, BlankLine, Acceptable;
    if lines == [] {
      NothingToRead(at);
      NothingIsAcceptable();
    } else if Blank(lines[0]) {
      SkipBlank(lines, at);
      AcceptableAfterBlank(lines);
      CuesReadIffAcceptable(lines[1..], at + 1);
    } else {
      var k := ArrowLine(lines);
      if k == |lines| {
        FrontCue(lines, at, k, 0);
        OrphanIsUnacceptable(lines, 0);
      } else {
        var n := k + 1 + BlankLine(lines[k + 1..]);
        FrontCue(lines, at, k, n);
        AcceptableCue(lines, k, n);
        CuesReadIffAcceptable(lines[n..], at + n);
      }
    }
  }

  /** Retiming succeeds, whatever is kept, exactly when the lines after the header are acceptable. */
  lemma AcceptedIff(lines: seq<string>, keep: seq<Range>)
    ensures RetimedLines(lines, keep).Success? <==> Acceptable(lines[HeaderLength(lines)..])
  {
    hide HeaderLength, ReadCues, Acceptable;
    CuesReadIffAcceptable(lines[HeaderLength(lines)..], HeaderLength(lines));
  }

  // ----- what is read of a file and more lines behind a blank one -----

  /** The cues behind a blank line are read after those before it. */
  function Continued(cues: seq<Cue>, rest: Result<seq<Cue>, VttError>): Result<seq<Cue>, VttError> {
    if rest.Failure? then rest else Success(cues + rest.value)
  }

  lemma {:induction false} ReadContinues(lines: seq<string>, b: string, more: seq<string>, at: nat)
    requires Blank(b) && ReadCues(lines, at).Success?
    ensures ReadCues(lines + [b] + more, at) == Continued(ReadCues(lines, at).value, ReadCues(more, at + |lines| + 1))
    decreases |lines|
  {
    hide Blank, ReadTiming, Text.Contains, ReadCues, ArrowLine, BlankLine;
    var all := lines + [b] + more;
    if lines == [] {
      NothingToRead(at);
      assert all[1..] == more;
      SkipBlank(all, at);
      assert forall cues: seq<Cue> :: [] + cues == cues;
    } else if Blank(lines[0]) {
      SkipBlank(lines, at);
      SkipBlank(all, at);
      assert all[1..] == lines[1..] + [b] + more;
      ReadContinues(lines[1..], b, more, at + 1);
    } else {
      var k := ArrowLine(lines);
      if k == |lines| {
        FrontCue(lines, at, k, 0);
        assert false;
      } else {
        var n := k + 1 + BlankLine(lines[k + 1..]);
        FrontCue(lines, at, k, n);
        ReadContinues(lines[n..], b, more, at + n);
        ContinueCue(lines, b, more, at, k, n);
      }
    }
  }

  lemma ContinueCue(lines: seq<string>, b: string, more: seq<string>, at: nat, k: nat, n: nat)
    requires Blank(b) && lines != [] && !Blank(lines[0])
    requires k == ArrowLine(lines) < |lines| && n == k + 1 + BlankLine(lines[k + 1..])
    requires ReadCues(lines, at).Success? && ReadCues(lines[n..], at + n).Success?
    requires ReadCues(lines[n..] + [b] + more, at + n)
          == Continued(ReadCues(lines[n..], at + n).value, ReadCues(more, at + |lines| + 1))
    ensures ReadCues(lines + [b] + more, at) == Continued(ReadCues(lines, at).value, ReadCues(more, at + |lines| + 1))
  {
    hide Blank, ReadTiming, Text.Contains, ReadCues, ArrowLine, BlankLine;
    var all, behind := lines + [b] + more, [b] + more;
    assert all == lines + behind;
    ArrowLineIs(all, k);
    SlicesOfFront(lines, behind, 0, k);
    SlicesOfFront(lines, behind, k + 1, n);
    SlicesOfFront(lines, behind, k + 1, |lines|);
    assert all[k + 1..][n - k - 1] == all[n];
    BlankLineIs(all[k + 1..], n - k - 1);
    assert all[n..] == lines[n..] + [b] + more;
    FrontCue(all, at, k, n);
    FrontCue(lines, at, k, n);
    var rest := ReadCues(more, at + |lines| + 1);
    if rest.Success? {
      ContinuedBehind(Cue(lines[..k], ReadTiming(lines[k]).value, lines[k + 1..n]), ReadCues(lines[n..], at + n).value,
        rest.value);
    }
  }

  lemma SlicesOfFront(lines: seq<string>, behind: seq<string>, i: nat, j: nat)
    requires i <= j <= |lines|
    ensures (lines + behind)[i..j] == lines[i..j]
    ensures (lines + behind)[i..] == lines[i..] + behind && (lines + behind)[j..] == lines[j..] + behind
    ensures forall l | 0 <= l < j - i :: (lines + behind)[i..][l] == lines[i..][l]
  {
  }

  lemma ContinuedBehind(c: Cue, x: seq<Cue>, y: seq<Cue>)
    ensures [c] + x + y == [c] + (x + y)
  {
  }

  /** Lines behind a blank one are never part of the header. */
  lemma HeaderOfContinued(lines: seq<string>, b: string, more: seq<string>)
    requires lines != [] && Blank(b)
    ensures
      var all := lines + [b] + more;
      var h := HeaderLength(all);
      if h <= |lines| then h == HeaderLength(lines) && all[h..] == lines[h..] + [b] + more
      else HeaderLength(lines) == |lines| && h == |lines| + 1 && all[h..] == more
  {
    hide Blank;
    var all := lines + [b] + more;
    HeaderBlank(lines);
    var h := HeaderLength(lines);
    if h == |lines| && forall j | 1 <= j < h :: !Blank(lines[j]) {
      HeaderEndsAt(all, |lines|);
    } else {
      HeaderEndsAt(all, h - 1);
    }
  }

  /** A file and the cues appended to it behind a blank line are read one after the other. */
  lemma FilesConcatenate(lines: seq<string>, b: string, more: seq<string>)
    requires lines != [] && Blank(b) && ReadDocument(lines).Success?
    ensures
      var doc, rest := ReadDocument(lines + [b] + more), ReadCues(more, |lines| + 1);
      if rest.Failure? then doc == Failure(rest.error)
      else doc.Success? && doc.value.cues == ReadDocument(lines).value.cues + rest.value
  {
    hide Blank, ReadCues, HeaderLength;
    var h := HeaderLength(lines);
    HeaderOfContinued(lines, b, more);
    if HeaderLength(lines + [b] + more) <= |lines| {
      ReadContinues(lines[h..], b, more, h);
    } else {
      assert lines[h..] == [];
      NothingToRead(h);
      assert forall cues: seq<Cue> :: [] + cues == cues;
    }
  }

  // ----- comments at the end -----

  /**
   * A block at the end without a timing line, such as a comment, makes every file unreadable,
   * though section 4.1 of the W3C WebVTT specification allows comment blocks there. The error
   * names the first line of the block.
   */
  lemma TrailingBlockIsRefused(lines: seq<string>, b: string, block: seq<string>, keep: seq<Range>)
    requires lines != [] && Blank(b)
    requires block != [] && !Blank(block[0]) && forall line <- block :: !HasArrow(line)
    ensures RetimedLines(lines + [b] + block, keep).Failure?
    ensures ReadDocument(lines).Success? ==>
      RetimedLines(lines + [b] + block, keep) == Failure(NoTimestamp(|lines| + 2))
  {
    hide Blank, Text.Contains, ReadCues, HeaderLength, Acceptable;
    assert forall j | 0 <= j < |block| :: block[j] in block;
    ArrowLineIs(block, |block|);
    FrontCue(block, |lines| + 1, |block|, 0);
    if ReadDocument(lines).Success? {
      FilesConcatenate(lines, b, block);
    } else {
      var all := lines + [b] + block;
      HeaderOfContinued(lines, b, block);
      OrphanIsUnacceptable(all[HeaderLength(all)..], |lines| + 1 - HeaderLength(all));
      AcceptedIff(all, keep);
    }
  }

  /** The smallest such file is a header and a comment. */
  lemma TrailingCommentExample(keep: seq<Range>)
    ensures RetimedLines(["WEBVTT", "", "NOTE end"], keep) == Failure(NoTimestamp(3))
  {
    hide ReadCues, HeaderLength, RetimedLines, IndexOf, TrimSpace;
    BlankEmpty();
    TrimmedUnchanged("NOTE end");
    NotFound("NOTE end", ARROW);
    HeaderEndsAt(["WEBVTT"], 1);
    NothingToRead(1);
    assert ["WEBVTT"][1..] == [];
    assert ["WEBVTT"] + [""] + ["NOTE end"] == ["WEBVTT", "", "NOTE end"];
    TrailingBlockIsRefused(["WEBVTT"], "", ["NOTE end"], keep);
  }
}
