/** WebVTT timestamps and cue timing lines: printing and reading. */
module VttTimes {
  import opened Common
  import opened Text

  datatype VttError =
    | BadTimestamp(text: string)
    | NoArrow(line: string)
    | NoTimestamp(lineNumber: nat)

  // ----- timestamps -----

  /** "HH:MM:SS.mmm"; the hours take as many digits as they need. */
  function FormatTime(ms: int): string {
    var t := Max(ms, 0);
    Padded(t / 3_600_000, 2) + ":" + Padded(t / 60_000 % 60, 2) + ":" + Padded(t / 1000 % 60, 2) + "." +
        Padded(t % 1000, 3)
  }

  method FormatVTCTime(ms: int) returns (s: string)
    ensures s == FormatTime(ms)
  {
    hide Padded;
    var rest: nat := Max(ms, 0);
    var h := rest / 3_600_000;
    rest := rest - h * 3_600_000;
    var m := rest / 60_000;
    rest := rest - m * 60_000;
    var sec := rest / 1000;
    FieldsOf(Max(ms, 0));
    s := Padded(h, 2) + ":" + Padded(m, 2) + ":" + Padded(sec, 2) + "." + Padded(rest % 1000, 3);
  }

  lemma FieldsOf(t: nat)
    ensures t / 60_000 % 60 == (t - t / 3_600_000 * 3_600_000) / 60_000
    ensures t / 1000 % 60 == (t - t / 3_600_000 * 3_600_000 - t / 60_000 % 60 * 60_000) / 1000
    ensures t % 1000 == (t - t / 3_600_000 * 3_600_000 - t / 60_000 % 60 * 60_000) % 1000
    ensures t == ((t / 3_600_000 * 60 + t / 60_000 % 60) * 60 + t / 1000 % 60) * 1000 + t % 1000
  {
    assert t / 3_600_000 == t / 60_000 / 60;
    assert t / 60_000 == t / 1000 / 60;
  }

  /** A fraction is read as milliseconds: zeros on the right up to three digits, the rest ignored. */
  function PadFraction(frac: string): (r: string)
    ensures |r| >= 3
    decreases 3 - |frac|
  {
    if |frac| < 3 then PadFraction(frac + "0") else frac
  }

  /** The parts from `i` on, `total` being what the earlier ones make in 64 bits. */
  function ReadParts(s: string, parts: seq<string>, i: nat, total: int): Result<int, VttError>
    requires i <= |parts|
    decreases |parts| - i
  {
    if i == |parts| then Success(Wrap(total * 1000))
    else
      var p := parts[i];
      var dot := IndexOf(p, ".");
      var whole := if dot >= 0 then p[..dot] else p;
      var frac := if dot >= 0 then p[dot + 1..] else "";
      var n := ParseInt(whole);
      if p == "" || n.None? || n.value < 0 then Failure(BadTimestamp(s))
      else if p == parts[|parts| - 1] && frac != "" then
        var ms := ParseInt(PadFraction(frac)[..3]);
        if ms.None? then Failure(BadTimestamp(s)) else Success(Wrap(Wrap(total * 60 + n.value) * 1000 + ms.value))
      else ReadParts(s, parts, i + 1, Wrap(total * 60 + n.value))
  }

  function ReadTime(s: string): Result<int, VttError> {
    var parts := Split(s, ':');
    if |parts| < 2 || |parts| > 3 then Failure(BadTimestamp(s)) else ReadParts(s, parts, 0, 0)
  }

  method PadToMilliseconds(frac: string) returns (r: string)
    ensures r == PadFraction(frac)
  {
    r := frac;
    while |r| < 3
      invariant PadFraction(r) == PadFraction(frac)
    {
      r := r + "0";
    }
  }

  method ParseVTCTime(s: string) returns (r: Result<int, VttError>)
    ensures r == ReadTime(s)
  {
    hide Wrap, ParseInt, IndexOf, Split, PadFraction;
    var parts := Split(s, ':');
    if |parts| < 2 || |parts| > 3 {
      return Failure(BadTimestamp(s));
    }
    var total := 0;
    for i := 0 to |parts|
      invariant ReadTime(s) == ReadParts(s, parts, i, total)
    {
      var p := parts[i];
      if p == "" {
        return Failure(BadTimestamp(s));
      }
      var last := p == parts[|parts| - 1];
      var dot := IndexOf(p, ".");
      var whole, frac := if dot >= 0 then p[..dot] else p, if dot >= 0 then p[dot + 1..] else "";
      var n := ParseInt(whole);
      if n.None? || n.value < 0 {
        return Failure(BadTimestamp(s));
      }
      total := Wrap(total * 60 + n.value);
      if last && frac != "" {
        frac := PadToMilliseconds(frac);
        var ms := ParseInt(frac[..3]);
        if ms.None? {
          return Failure(BadTimestamp(s));
        }
        return Success(Wrap(total * 1000 + ms.value));
      }
    }
    return Success(Wrap(total * 1000));
  }

  lemma DigitsHold(s: string, c: char)
    requires AllDigits(s) && !IsDigit(c)
    ensures c !in s
  {
  }

  lemma FormatParts(a: string, b: string, c: string)
    requires ':' !in a && ':' !in b && ':' !in c
    ensures Split(a + ":" + b + ":" + c, ':') == [a, b, c]
  {
    SplitFirst(a, ':', b + ":" + c);
    SplitFirst(b, ':', c);
    SplitWhole(c, ':');
    assert a + ":" + b + ":" + c == a + [':'] + (b + ":" + c);
    assert b + ":" + c == b + [':'] + c;
  }

  /** Reading a part made of digits alone, before the last one. */
  lemma ReadWholePart(s: string, parts: seq<string>, i: nat, total: int, n: nat)
    requires i < |parts| && n <= MAX_INT64 && parts[i] == Padded(n, 2)
    requires parts[i] != parts[|parts| - 1] && 0 <= total * 60 + n <= MAX_INT64
    ensures ReadParts(s, parts, i, total) == ReadParts(s, parts, i + 1, total * 60 + n)
  {
    hide Wrap, Padded, IndexOf, ParseInt;
    PaddedValue(n, 2);
    NotFound(parts[i], ".");
    ParsePadded(n, 2);
    WrapInRange(total * 60 + n);
  }

  lemma FractionDigits(ms: nat)
    requires ms < 1000
    ensures |Padded(ms, 3)| == 3 && ParseInt(Padded(ms, 3)) == Some(ms)
  {
    assert Pow10(3) == 10 * Pow10(2) && Pow10(2) == 10 * Pow10(1) && Pow10(1) == 10 * Pow10(0);
    PaddedLength(ms, 3);
    ParsePadded(ms, 3);
  }

  lemma SecondsSplit(n: nat, ms: nat)
    ensures var p := Padded(n, 2) + "." + Padded(ms, 3);
      IndexOf(p, ".") == |Padded(n, 2)| && p[..|Padded(n, 2)|] == Padded(n, 2) &&
          p[|Padded(n, 2)| + 1..] == Padded(ms, 3)
  {
    PaddedValue(n, 2);
    DigitsHold(Padded(n, 2), '.');
    IndexOfAfter(Padded(n, 2), ".", Padded(ms, 3));
  }

  lemma ReadLastPart(s: string, parts: seq<string>, total: int, n: nat, ms: nat)
    requires parts != [] && n <= MAX_INT64 && ms < 1000
    requires parts[|parts| - 1] == Padded(n, 2) + "." + Padded(ms, 3)
    requires 0 <= total && (total * 60 + n) * 1000 + ms <= MAX_INT64
    ensures ReadParts(s, parts, |parts| - 1, total) == Success((total * 60 + n) * 1000 + ms)
  {
    hide Wrap, Padded, IndexOf, ParseInt;
    WrapInRange(total * 60 + n);
    WrapInRange((total * 60 + n) * 1000 + ms);
    SecondsSplit(n, ms);
    FractionDigits(ms);
    ParsePadded(n, 2);
    assert Padded(ms, 3)[..3] == Padded(ms, 3);
  }

  /** The three fields differ from each other where it matters: only the last has a point. */
  lemma FieldsDiffer(h: nat, m: nat, sec: nat, f: nat)
    ensures var a, b, c := Padded(h, 2), Padded(m, 2), Padded(sec, 2) + "." + Padded(f, 3);
      a != c && b != c && ':' !in a && ':' !in b && ':' !in c
  {
    PaddedValue(h, 2);
    PaddedValue(m, 2);
    PaddedValue(sec, 2);
    PaddedValue(f, 3);
    var c := Padded(sec, 2) + "." + Padded(f, 3);
    assert c[|Padded(sec, 2)|] == '.';
    assert '.' in c;
  }

  /** Every printed time is read back, whatever the number of hour digits. */
  lemma TimeRoundTrip(ms: nat)
    requires ms <= MAX_INT64
    ensures ReadTime(FormatTime(ms)) == Success(ms)
  {
    hide Padded, ReadParts, Split;
    var h, m, sec, f := ms / 3_600_000, ms / 60_000 % 60, ms / 1000 % 60, ms % 1000;
    var a, b, c := Padded(h, 2), Padded(m, 2), Padded(sec, 2) + "." + Padded(f, 3);
    FieldsDiffer(h, m, sec, f);
    assert FormatTime(ms) == a + ":" + b + ":" + c;
    FormatParts(a, b, c);
    var s, parts := FormatTime(ms), [a, b, c];
    FieldsOf(ms);
    ReadWholePart(s, parts, 0, 0, h);
    ReadWholePart(s, parts, 1, h, m);
    ReadLastPart(s, parts, h * 60 + m, sec, f);
  }

  // ----- timing lines -----

  const ARROW := "-->"

  datatype Timing = Timing(start: int, end: int, settings: string)

  function FormatCue(t: Timing): string {
    FormatTime(t.start) + " --> " + FormatTime(t.end) + if t.settings != "" then " " + t.settings else ""
  }

  function ReadTiming(line: string): Result<Timing, VttError> {
    var i := IndexOf(line, ARROW);
    if i < 0 then Failure(NoArrow(line))
    else
      var start := ReadTime(TrimSpace(line[..i]));
      var after := TrimSpace(line[i + 3..]);
      var blank := IndexOf(after, " ");
      var settings := if blank >= 0 then TrimSpace(after[blank..]) else "";
      var end := ReadTime(if blank >= 0 then after[..blank] else after);
      if start.Failure? then Failure(start.error)
      else if end.Failure? then Failure(end.error)
      else Success(Timing(start.value, end.value, settings))
  }

  /** What a printed time is made of. */
  lemma TimeCharacters(ms: int)
    ensures FormatTime(ms) != [] && Trimmed(FormatTime(ms))
    ensures ' ' !in FormatTime(ms) && '-' !in FormatTime(ms)
    ensures AllSpace(" ") && AllSpace("")
  {
    hide Padded;
    var t := Max(ms, 0);
    PaddedValue(t / 3_600_000, 2);
    PaddedValue(t / 60_000 % 60, 2);
    PaddedValue(t / 1000 % 60, 2);
    PaddedValue(t % 1000, 3);
    var s := FormatTime(ms);
    assert forall c <- s :: IsDigit(c) || c == ':' || c == '.';
    assert s[0] in s && s[|s| - 1] in s;
  }

  /** The part of a timing line after the arrow. */
  function AfterArrow(t: Timing): string {
    " " + FormatTime(t.end) + if t.settings != "" then " " + t.settings else ""
  }

  lemma CueSplits(t: Timing)
    ensures var line := FormatCue(t);
      && IndexOf(line, ARROW) == |FormatTime(t.start)| + 1
      && line[..|FormatTime(t.start)| + 1] == FormatTime(t.start) + " "
      && line[|FormatTime(t.start)| + 4..] == AfterArrow(t)
  {
    hide FormatTime, IndexOf;
    TimeCharacters(t.start);
    var before := FormatTime(t.start) + " ";
    assert '-' !in before;
    IndexOfAfter(before, ARROW, AfterArrow(t));
    assert FormatCue(t) == before + ARROW + AfterArrow(t);
  }

  /** A trimmed time and trimmed settings are found again after the arrow. */
  lemma AfterArrowReads(t: Timing)
    requires Trimmed(t.settings)
    ensures
      var after := TrimSpace(AfterArrow(t));
      var blank := IndexOf(after, " ");
      && (if blank >= 0 then after[..blank] else after) == FormatTime(t.end)
      && (if blank >= 0 then TrimSpace(after[blank..]) else "") == t.settings
  {
    hide FormatTime, IndexOf, TrimSpace, IsSpace, AllSpace;
    var end := FormatTime(t.end);
    TimeCharacters(t.end);
    if t.settings == "" {
      assert AfterArrow(t) == " " + end + "";
      TrimPadding(" ", end, "");
      NotFound(end, " ");
    } else {
      var rest := end + " " + t.settings;
      assert AfterArrow(t) == " " + rest + "";
      TrimPadding(" ", rest, "");
      IndexOfAfter(end, " ", t.settings);
      assert rest[..|end|] == end;
      assert rest[|end|..] == " " + t.settings + "";
      TrimPadding(" ", t.settings, "");
    }
  }

  /** Every printed timing line with trimmed settings is read back. */
  lemma TimingRoundTrip(t: Timing)
    requires 0 <= t.start <= MAX_INT64 && 0 <= t.end <= MAX_INT64
    requires Trimmed(t.settings)
    ensures ReadTiming(FormatCue(t)) == Success(t)
  {
    hide FormatTime, FormatCue, AfterArrow, IndexOf, TrimSpace, IsSpace, AllSpace, ReadTime;
    var start := FormatTime(t.start);
    TimeCharacters(t.start);
    CueSplits(t);
    assert start + " " == "" + start + " ";
    TrimPadding("", start, " ");
    AfterArrowReads(t);
    TimeRoundTrip(t.start);
    TimeRoundTrip(t.end);
  }

  /** Settings that were read are trimmed, so they survive being written again. */
  lemma ReadSettingsTrimmed(line: string)
    requires ReadTiming(line).Success?
    ensures Trimmed(ReadTiming(line).value.settings)
  {
    var after := TrimSpace(line[IndexOf(line, ARROW) + 3..]);
    var blank := IndexOf(after, " ");
    if blank >= 0 {
      TrimSpaceTrims(after[blank..]);
    }
  }
}
