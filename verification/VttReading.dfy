/**
 * Which timestamps are read, and as what, in terms of their digits; and that hours which are
 * nought may be left out of a file.
 */
module VttReading {
  import opened Common
  import opened Text
  import opened VttTimes

  // ----- numbers -----

  /** Digits, perhaps behind a sign, that write `n`. */
  ghost predicate Writes(w: string, n: int) {
    exists sign: string, digits: string ::
      w == sign + digits && sign in ["", "+", "-"] && AllDigits(digits) &&
      n == if sign == "-" then 0 - Value(digits) else Value(digits)
  }

  lemma ParseIntIff(w: string, n: int)
    ensures ParseInt(w) == Some(n) <==> Writes(w, n) && -MAX_INT64 - 1 <= n <= MAX_INT64
  {
    hide Value, IsDigit;
    if ParseInt(w) == Some(n) {
      var digits := if w != [] && (w[0] == '-' || w[0] == '+') then w[1..] else w;
      var sign := if w != [] && (w[0] == '-' || w[0] == '+') then [w[0]] else "";
      assert w == sign + digits && sign in ["", "+", "-"];
    }
    forall sign: string, digits: string | w == sign + digits && sign in ["", "+", "-"] && AllDigits(digits)
      ensures digits == if w != [] && (w[0] == '-' || w[0] == '+') then w[1..] else w
      ensures sign == "-" <==> w != [] && w[0] == '-'
    {
      SignIsNoDigit(digits);
    }
  }

  lemma SignIsNoDigit(digits: string)
    requires AllDigits(digits)
    ensures digits[0] != '-' && digits[0] != '+'
  {
    assert digits[0] in digits;
  }

  // ----- parts -----

  /** `p` is `whole`, or `whole`, a point and `frac`. */
  predicate Cuts(p: string, whole: string, frac: string) {
    '.' !in whole && (p == whole + "." + frac || (p == whole && frac == ""))
  }

  ghost predicate NumberIs(p: string, n: int) {
    0 <= n <= MAX_INT64 && exists whole, frac :: Cuts(p, whole, frac) && Writes(whole, n)
  }

  ghost predicate HasFraction(p: string) {
    exists whole, frac :: Cuts(p, whole, frac) && frac != ""
  }

  /** The first three digits of the fraction, with noughts where there are none, write `ms`. */
  ghost predicate MillisAre(p: string, ms: int) {
    exists whole, frac :: Cuts(p, whole, frac) && Writes((frac + "000")[..3], ms)
  }

  function Sixties(ns: seq<int>): int {
    if ns == [] then 0 else Sixties(ns[..|ns| - 1]) * 60 + ns[|ns| - 1]
  }

  /**
   * The numbers read of the parts. Reading ends at the first part that is the same text as the
   * last one if that has a fraction, so parts between the two are not looked at.
   */
  ghost predicate Reads(parts: seq<string>, ns: seq<int>, ms: int)
    requires parts != []
  {
    var last := parts[|parts| - 1];
    && 1 <= |ns| <= |parts|
    && (forall i | 0 <= i < |ns| :: NumberIs(parts[i], ns[i]))
    && MillisAre(last, ms)
    && parts[|ns| - 1] == last && (|ns| == |parts| || HasFraction(last))
    && (HasFraction(last) ==> forall i | 0 <= i < |ns| - 1 :: parts[i] != last)
  }

  /** The text is a time of `v` milliseconds, in 64 bits. */
  ghost predicate TimeIs(s: string, v: int) {
    var parts := Split(s, ':');
    2 <= |parts| <= 3 && exists ns, ms :: Reads(parts, ns, ms) && v == Wrap(Sixties(ns) * 1000 + ms)
  }

  // ----- what the code takes of a part -----

  function Whole(p: string): string {
    var dot := IndexOf(p, ".");
    if dot >= 0 then p[..dot] else p
  }

  function Frac(p: string): string {
    var dot := IndexOf(p, ".");
    if dot >= 0 then p[dot + 1..] else ""
  }

  lemma CutsIff(p: string, whole: string, frac: string)
    ensures Cuts(p, whole, frac) <==> whole == Whole(p) && frac == Frac(p)
  {
    hide IndexOf;
    if p == whole + "." + frac && '.' !in whole {
      IndexOfAfter(whole, ".", frac);
    } else if '.' !in p {
      NotFound(p, ".");
    }
    var dot := IndexOf(p, ".");
    if dot >= 0 {
      assert p == p[..dot] + "." + p[dot + 1..];
      NoPointBefore(p, dot);
    } else {
      NoPoint(p);
    }
  }

  lemma NoPointBefore(p: string, dot: nat)
    requires IndexOf(p, ".") == dot
    ensures '.' !in p[..dot]
  {
    hide IndexOf;
    forall k: nat | k < dot
      ensures p[k] != '.'
    {
      if p[k] == '.' {
        assert p[k..k + 1] == ".";
        IndexOfIsFirst(p, ".", k);
      }
    }
  }

  lemma NoPoint(p: string)
    requires IndexOf(p, ".") < 0
    ensures '.' !in p
  {
    hide IndexOf;
    forall k: nat | k < |p|
      ensures p[k] != '.'
    {
      if p[k] == '.' {
        assert p[k..k + 1] == ".";
        IndexOfIsFirst(p, ".", k);
      }
    }
  }

  lemma {:induction false} PaddedThree(frac: string)
    ensures PadFraction(frac)[..3] == (frac + "000")[..3]
    decreases 3 - |frac|
  {
    if |frac| < 3 {
      PaddedThree(frac + "0");
      assert (frac + "0" + "000")[..3] == (frac + "000")[..3];
    }
  }

  lemma NumberIff(p: string, n: int)
    ensures NumberIs(p, n) <==> ParseInt(Whole(p)) == Some(n) && n >= 0
    ensures NumberIs(p, n) ==> p != ""
  {
    hide Whole, ParseInt;
    CutsIff(p, Whole(p), Frac(p));
    ParseIntIff(Whole(p), n);
    forall whole, frac | Cuts(p, whole, frac)
      ensures whole == Whole(p)
    {
      CutsIff(p, whole, frac);
    }
  }

  lemma FractionIff(p: string, ms: int)
    ensures HasFraction(p) <==> Frac(p) != ""
    ensures MillisAre(p, ms) <==> ParseInt(PadFraction(Frac(p))[..3]) == Some(ms)
    ensures Frac(p) == "" ==> (MillisAre(p, ms) <==> ms == 0)
  {
    hide Whole, Frac, ParseInt, PadFraction;
    CutsIff(p, Whole(p), Frac(p));
    forall whole, frac | Cuts(p, whole, frac)
      ensures frac == Frac(p)
    {
      CutsIff(p, whole, frac);
    }
    PaddedThree(Frac(p));
    var three := (Frac(p) + "000")[..3];
    ParseIntIff(three, ms);
    if Writes(three, ms) {
      SmallNumber(three, ms);
    }
    if Frac(p) == "" {
      assert three == "000";
      Noughts(ms);
    }
  }

  lemma Noughts(n: int)
    ensures ParseInt("000") == Some(n) <==> n == 0
  {
    LeadingZero("00");
    LeadingZero("0");
    LeadingZero("");
    assert "0" + "00" == "000" && "0" + "0" == "00" && "0" + "" == "0";
    assert AllDigits("000");
  }

  lemma SmallNumber(three: string, n: int)
    requires |three| == 3 && Writes(three, n)
    ensures -999 <= n <= 999
  {
    var sign: string, digits: string :| three == sign + digits && sign in ["", "+", "-"] && AllDigits(digits) &&
      n == if sign == "-" then 0 - Value(digits) else Value(digits);
    ValueBound(digits);
    assert Pow10(3) == 10 * Pow10(2) && Pow10(2) == 10 * Pow10(1) && Pow10(1) == 10 * Pow10(0);
  }

  lemma {:induction false} ValueBound(s: string)
    requires forall c <- s :: IsDigit(c)
    ensures Value(s) < Pow10(|s|)
  {
    if s != [] {
      ValueBound(s[..|s| - 1]);
      assert s[|s| - 1] in s;
      assert Pow10(|s|) == 10 * Pow10(|s| - 1);
    }
  }

  // ----- 64 bits -----

  lemma WrapOfWrap(x: int, k: int, b: int)
    ensures Wrap(Wrap(x) * k + b) == Wrap(x * k + b)
  {
    var size := 2 * (MAX_INT64 + 1);
    var q := (x + (MAX_INT64 + 1)) / size;
    assert Wrap(x) == x - q * size;
    assert Wrap(x) * k + b == x * k + b - q * k * size by {
      assert (x - q * size) * k == x * k - q * k * size;
    }
    WrapShift(x * k + b, q * k);
  }

  lemma WrapShift(x: int, j: int)
    ensures Wrap(x - j * (2 * (MAX_INT64 + 1))) == Wrap(x)
  {
  }

  // ----- reading -----

  /** What reading the part at `i` does, in the words above. */
  lemma PartStep(s: string, parts: seq<string>, i: nat, total: int)
    requires i < |parts|
    ensures
      var p, n := parts[i], ParseInt(Whole(parts[i]));
      ReadParts(s, parts, i, total) ==
        if p == "" || n.None? || n.value < 0 then Failure(BadTimestamp(s))
        else if p == parts[|parts| - 1] && Frac(p) != "" then
          var ms := ParseInt(PadFraction(Frac(p))[..3]);
          if ms.None? then Failure(BadTimestamp(s)) else Success(Wrap(Wrap(total * 60 + n.value) * 1000 + ms.value))
        else ReadParts(s, parts, i + 1, Wrap(total * 60 + n.value))
  {
    hide ParseInt, PadFraction, Wrap;
  }

  lemma SixtiesMore(ns: seq<int>, n: int)
    ensures Sixties(ns + [n]) == Sixties(ns) * 60 + n
  {
    assert (ns + [n])[..|ns|] == ns;
  }

  lemma {:induction false} ReadsAreRead(s: string, parts: seq<string>, ns: seq<int>, ms: int, i: nat)
    requires parts != [] && Reads(parts, ns, ms) && i < |ns|
    ensures ReadParts(s, parts, i, Wrap(Sixties(ns[..i]))) == Success(Wrap(Sixties(ns) * 1000 + ms))
    decreases |ns| - i
  {
    hide ReadParts, NumberIs, MillisAre, HasFraction, Whole, Frac, Sixties, PadFraction, ParseInt, Wrap;
    var n, x := ns[i], Sixties(ns[..i]);
    PartStep(s, parts, i, Wrap(x));
    NumberIff(parts[i], n);
    FractionIff(parts[|parts| - 1], ms);
    SixtiesMore(ns[..i], n);
    assert ns[..i + 1] == ns[..i] + [n];
    WrapOfWrap(x, 60, n);
    WrapOfWrap(x * 60 + n, 1000, ms);
    if i == |ns| - 1 {
      assert ns[..i + 1] == ns;
      AllRead(s, parts, Wrap(x * 60 + n));
    } else {
      ReadsAreRead(s, parts, ns, ms, i + 1);
    }
  }

  lemma AllRead(s: string, parts: seq<string>, total: int)
    ensures ReadParts(s, parts, |parts|, total) == Success(Wrap(total * 1000))
  {
    hide Wrap;
  }

  lemma {:induction false} ReadIsReads(s: string, parts: seq<string>, before: seq<int>, v: int)
    returns (ns: seq<int>, ms: int)
    requires |before| < |parts|
    requires forall k | 0 <= k < |before| :: NumberIs(parts[k], before[k])
    requires HasFraction(parts[|parts| - 1]) ==> forall k | 0 <= k < |before| :: parts[k] != parts[|parts| - 1]
    requires ReadParts(s, parts, |before|, Wrap(Sixties(before))) == Success(v)
    ensures Reads(parts, ns, ms) && v == Wrap(Sixties(ns) * 1000 + ms)
    decreases |parts| - |before|
  {
    hide ReadParts, NumberIs, MillisAre, HasFraction, Whole, Frac, Sixties, PadFraction, ParseInt, Wrap;
    var i, last, x := |before|, parts[|parts| - 1], Sixties(before);
    PartStep(s, parts, i, Wrap(x));
    var n := ParseInt(Whole(parts[i])).value;
    NumberInRange(parts[i]);
    NumberIff(parts[i], n);
    SixtiesMore(before, n);
    WrapOfWrap(x, 60, n);
    FractionIff(last, 0);
    if parts[i] == last && Frac(last) != "" {
      ms := ParseInt(PadFraction(Frac(last))[..3]).value;
      FractionIff(last, ms);
      WrapOfWrap(x * 60 + n, 1000, ms);
      ns := before + [n];
    } else if i == |parts| - 1 {
      AllRead(s, parts, Wrap(x * 60 + n));
      ms := 0;
      WrapOfWrap(x * 60 + n, 1000, 0);
      ns := before + [n];
    } else {
      ns, ms := ReadIsReads(s, parts, before + [n], v);
    }
  }

  lemma NumberInRange(p: string)
    ensures ParseInt(Whole(p)).Some? ==> ParseInt(Whole(p)).value <= MAX_INT64
  {
  }

  /** A text is read as `v` exactly when it is a time of `v` milliseconds, and otherwise not at all. */
  lemma ReadTimeIff(s: string, v: int)
    ensures ReadTime(s) == Success(v) <==> TimeIs(s, v)
    ensures ReadTime(s).Failure? ==> ReadTime(s).error == BadTimestamp(s)
  {
    hide ReadParts, NumberIs, MillisAre, HasFraction, Sixties, Wrap, Reads, Split;
    var parts := Split(s, ':');
    WrapNothing();
    if 2 <= |parts| <= 3 {
      FailureNamesText(s, parts, 0, 0);
      forall ns, ms | Reads(parts, ns, ms)
        ensures ReadParts(s, parts, 0, 0) == Success(Wrap(Sixties(ns) * 1000 + ms))
      {
        ReadsSome(parts, ns, ms);
        ReadsAreRead(s, parts, ns, ms, 0);
        assert ns[..0] == [];
      }
      if ReadTime(s) == Success(v) {
        var ns, ms := ReadIsReads(s, parts, [], v);
      }
    }
  }

  lemma ReadsSome(parts: seq<string>, ns: seq<int>, ms: int)
    requires parts != [] && Reads(parts, ns, ms)
    ensures 0 < |ns|
  {
  }

  lemma WrapNothing()
    ensures Wrap(Sixties([])) == 0
  {
  }

  lemma {:induction false} FailureNamesText(s: string, parts: seq<string>, i: nat, total: int)
    requires i <= |parts|
    ensures ReadParts(s, parts, i, total).Failure? ==> ReadParts(s, parts, i, total).error == BadTimestamp(s)
    decreases |parts| - i
  {
    hide Wrap, ParseInt, ReadParts, Whole, Frac, PadFraction;
    if i < |parts| {
      PartStep(s, parts, i, total);
      var n := ParseInt(Whole(parts[i]));
      if n.Some? {
        FailureNamesText(s, parts, i + 1, Wrap(total * 60 + n.value));
      }
    } else {
      AllRead(s, parts, total);
    }
  }

  /** A part between two equal ones is not looked at. */
  lemma SkippedPartExample()
    ensures ReadTime("1.5:x:1.5") == Success(1500)
  {
    hide ReadTime, Split, Wrap, NumberIs, MillisAre, HasFraction, Sixties;
    FormatParts("1.5", "x", "1.5");
    assert "1.5" + ":" + "x" + ":" + "1.5" == "1.5:x:1.5";
    OneAndAHalf();
    assert Reads(["1.5", "x", "1.5"], [1], 500);
    SixtiesMore([], 1);
    NoSixties();
    assert [] + [1] == [1];
    WrapInRange(1500);
    ReadTimeIff("1.5:x:1.5", 1500);
  }

  lemma NoSixties()
    ensures Sixties([]) == 0
  {
  }

  lemma OneAndAHalf()
    ensures NumberIs("1.5", 1) && MillisAre("1.5", 500) && HasFraction("1.5")
  {
    assert Cuts("1.5", "1", "5") && ("5" + "000")[..3] == "500";
    assert "1" == "" + "1" && "500" == "" + "500";
    assert "500"[..2] == "50" && "500"[..2][..1] == "5" && "500"[..2][..1][..0] == "" && "1"[..0] == "";
    assert Value("5") == 5 && Value("50") == 50 && Value("500") == 500 && Value("1") == 1;
    assert AllDigits("1") && AllDigits("500");
  }

  // ----- digits -----

  /** A fraction in milliseconds: filled up with noughts, or cut, to three digits. */
  function MillisOf(f: string): nat
    requires forall c <- f :: IsDigit(c)
  {
    Value((f + "000")[..3])
  }

  lemma DigitsWrite(w: string)
    requires AllDigits(w)
    ensures Writes(w, Value(w))
  {
    hide Value, IsDigit;
    assert w == "" + w;
  }

  lemma DigitsAreNumber(w: string)
    requires AllDigits(w) && Value(w) <= MAX_INT64
    ensures NumberIs(w, Value(w)) && !HasFraction(w) && '.' !in w && ':' !in w
  {
    hide Value;
    DigitsWrite(w);
    assert Cuts(w, w, "");
  }

  /** The last part: the seconds, with or without a fraction. */
  lemma SecondsAre(last: string, sec: string, f: string)
    requires AllDigits(sec) && Value(sec) <= MAX_INT64 && (forall c <- f :: IsDigit(c)) && Cuts(last, sec, f)
    ensures NumberIs(last, Value(sec)) && MillisAre(last, MillisOf(f))
    ensures (HasFraction(last) ==> '.' in last) && ':' !in last
  {
    hide Value;
    DigitsWrite(sec);
    DigitsWrite((f + "000")[..3]);
  }

  /** Digits are read as their values: minutes and seconds. */
  lemma MinutesRead(m: string, sec: string, f: string)
    requires AllDigits(m) && AllDigits(sec) && forall c <- f :: IsDigit(c)
    requires (Value(m) * 60 + Value(sec)) * 1000 + 999 <= MAX_INT64
    ensures ReadTime(m + ":" + sec + "." + f) == Success((Value(m) * 60 + Value(sec)) * 1000 + MillisOf(f))
    ensures ReadTime(m + ":" + sec) == Success((Value(m) * 60 + Value(sec)) * 1000)
  {
    hide ReadTime, Value, MillisOf, Cuts;
    NoFraction();
    assert Cuts(sec + "." + f, sec, f) && Cuts(sec, sec, "") by {
      PointCuts(sec, f);
    }
    assert m + ":" + sec + "." + f == m + ":" + (sec + "." + f);
    MinutesThen(m, sec + "." + f, sec, f);
    MinutesThen(m, sec, sec, "");
  }

  lemma NoFraction()
    ensures MillisOf("") == 0
  {
    assert ("" + "000")[..3] == "0" + ("0" + ("0" + ""));
    LeadingZero("");
    LeadingZero("0" + "");
    LeadingZero("0" + ("0" + ""));
  }

  lemma PointCuts(sec: string, f: string)
    requires AllDigits(sec)
    ensures Cuts(sec + "." + f, sec, f) && Cuts(sec, sec, "")
  {
  }

  lemma MillisInRange(f: string)
    requires forall c <- f :: IsDigit(c)
    ensures MillisOf(f) <= 999
  {
    DigitsWrite((f + "000")[..3]);
    SmallNumber((f + "000")[..3], MillisOf(f));
  }

  lemma MinutesThen(m: string, last: string, sec: string, f: string)
    requires AllDigits(m) && AllDigits(sec) && (forall c <- f :: IsDigit(c)) && Cuts(last, sec, f)
    requires (Value(m) * 60 + Value(sec)) * 1000 + 999 <= MAX_INT64
    ensures ReadTime(m + ":" + last) == Success((Value(m) * 60 + Value(sec)) * 1000 + MillisOf(f))
  {
    hide ReadTime, Value, MillisOf, Cuts, NumberIs, MillisAre, HasFraction, Split, Wrap;
    DigitsAreNumber(m);
    SecondsAre(last, sec, f);
    MillisInRange(f);
    SplitFirst(m, ':', last);
    SplitWhole(last, ':');
    var parts, ns := [m, last], [Value(m), Value(sec)];
    assert [m] + [last] == parts && m + [':'] + last == m + ":" + last;
    assert Reads(parts, ns, MillisOf(f));
    SixtiesTwo(Value(m), Value(sec));
    WrapInRange(Sixties(ns) * 1000 + MillisOf(f));
    ReadTimeIff(m + ":" + last, Sixties(ns) * 1000 + MillisOf(f));
  }

  lemma SixtiesTwo(a: int, b: int)
    ensures Sixties([a, b]) == a * 60 + b
  {
    assert [a, b][..1] == [a] && [a][..0] == [];
    assert Sixties([a]) == a;
  }

  /** Digits are read as their values: hours, minutes and seconds. */
  lemma HoursRead(h: string, m: string, sec: string, f: string)
    requires AllDigits(h) && AllDigits(m) && AllDigits(sec) && forall c <- f :: IsDigit(c)
    requires ((Value(h) * 60 + Value(m)) * 60 + Value(sec)) * 1000 + 999 <= MAX_INT64
    ensures ReadTime(h + ":" + m + ":" + sec + "." + f)
         == Success(((Value(h) * 60 + Value(m)) * 60 + Value(sec)) * 1000 + MillisOf(f))
    ensures ReadTime(h + ":" + m + ":" + sec) == Success(((Value(h) * 60 + Value(m)) * 60 + Value(sec)) * 1000)
  {
    hide ReadTime, Value, MillisOf, Cuts;
    NoFraction();
    PointCuts(sec, f);
    assert h + ":" + m + ":" + sec + "." + f == h + ":" + m + ":" + (sec + "." + f);
    HoursThen(h, m, sec + "." + f, sec, f);
    HoursThen(h, m, sec, sec, "");
  }

  lemma HoursThen(h: string, m: string, last: string, sec: string, f: string)
    requires AllDigits(h) && AllDigits(m) && AllDigits(sec) && (forall c <- f :: IsDigit(c)) && Cuts(last, sec, f)
    requires ((Value(h) * 60 + Value(m)) * 60 + Value(sec)) * 1000 + 999 <= MAX_INT64
    ensures ReadTime(h + ":" + m + ":" + last)
         == Success(((Value(h) * 60 + Value(m)) * 60 + Value(sec)) * 1000 + MillisOf(f))
  {
    hide ReadTime, Value, MillisOf, Cuts, NumberIs, MillisAre, HasFraction, Split, Wrap;
    DigitsAreNumber(h);
    DigitsAreNumber(m);
    SecondsAre(last, sec, f);
    MillisInRange(f);
    FormatParts(h, m, last);
    var parts, ns := [h, m, last], [Value(h), Value(m), Value(sec)];
    assert Reads(parts, ns, MillisOf(f));
    SixtiesTwo(Value(h), Value(m));
    SixtiesMore([Value(h), Value(m)], Value(sec));
    assert [Value(h), Value(m)] + [Value(sec)] == ns;
    WrapInRange(Sixties(ns) * 1000 + MillisOf(f));
    ReadTimeIff(h + ":" + m + ":" + last, Sixties(ns) * 1000 + MillisOf(f));
  }

  /** Hours that are nought may be left out, whatever the rest is. */
  lemma HoursMayBeMissing(m: string, sec: string, v: int)
    requires ':' !in m && ':' !in sec
    ensures ReadTime("00:" + m + ":" + sec) == Success(v) <==> ReadTime(m + ":" + sec) == Success(v)
  {
    hide ReadParts, Split, Whole, Frac, PadFraction, ParseInt, Wrap;
    FormatParts("00", m, sec);
    SplitFirst(m, ':', sec);
    SplitWhole(sec, ':');
    var long, short := "00:" + m + ":" + sec, m + ":" + sec;
    assert "00" + ":" + m + ":" + sec == long && m + [':'] + sec == short && [m] + [sec] == [m, sec];
    PartStep(long, ["00", m, sec], 0, 0);
    NoughtHours();
    SameFromMinutes(long, short, m, sec, v);
  }

  lemma NoughtHours()
    ensures ParseInt(Whole("00")) == Some(0) && Frac("00") == "" && Wrap(0) == 0
  {
    NotFound("00", ".");
    LeadingZero("0");
    LeadingZero("");
    assert "0" + "0" == "00" && "0" + "" == "0";
    assert AllDigits("00");
  }

  lemma SameFromMinutes(long: string, short: string, m: string, sec: string, v: int)
    ensures ReadParts(long, ["00", m, sec], 1, 0) == Success(v) <==> ReadParts(short, [m, sec], 0, 0) == Success(v)
  {
    hide ReadParts, Whole, Frac, PadFraction, ParseInt, Wrap;
    PartStep(long, ["00", m, sec], 1, 0);
    PartStep(short, [m, sec], 0, 0);
    var n := ParseInt(Whole(m));
    if n.Some? {
      var total := Wrap(0 * 60 + n.value);
      PartStep(long, ["00", m, sec], 2, total);
      PartStep(short, [m, sec], 1, total);
      var k := ParseInt(Whole(sec));
      if k.Some? {
        AllRead(long, ["00", m, sec], Wrap(total * 60 + k.value));
        AllRead(short, [m, sec], Wrap(total * 60 + k.value));
      }
    }
  }

  // ----- what is written -----

  /** A timestamp of section 4.1 of the W3C WebVTT specification, with its hours: it is the time `ms`. */
  ghost predicate IsTimestamp(s: string, ms: int) {
    exists h: string, m: string, sec: string, f: string ::
      && s == h + ":" + m + ":" + sec + "." + f
      && AllDigits(h) && AllDigits(m) && AllDigits(sec) && AllDigits(f)
      && |h| >= 2 && |m| == 2 && |sec| == 2 && |f| == 3 && Value(m) <= 59 && Value(sec) <= 59
      && ms == ((Value(h) * 60 + Value(m)) * 60 + Value(sec)) * 1000 + Value(f)
  }

  lemma TwoDigits(n: nat)
    requires n < 60
    ensures |Padded(n, 2)| == 2
  {
    assert Pow10(2) == 10 * Pow10(1) && Pow10(1) == 10 * Pow10(0);
    PaddedLength(n, 2);
  }

  lemma WrittenTimestamp(ms: int)
    ensures IsTimestamp(FormatTime(ms), Max(0, ms))
  {
    hide Padded, Value;
    var t := Max(ms, 0);
    var h, m, sec, f := t / 3_600_000, t / 60_000 % 60, t / 1000 % 60, t % 1000;
    PaddedValue(h, 2);
    PaddedValue(m, 2);
    PaddedValue(sec, 2);
    PaddedValue(f, 3);
    TwoDigits(m);
    TwoDigits(sec);
    FractionDigits(f);
    FieldsOf(t);
    assert FormatTime(ms) == Padded(h, 2) + ":" + Padded(m, 2) + ":" + Padded(sec, 2) + "." + Padded(f, 3);
  }

  /**
   * What is written is a timing line of that specification: two timestamps with an arrow between
   * blanks, and the settings behind a blank. Times before 0 are written as 0.
   */
  lemma WrittenTimingLine(t: Timing)
    ensures exists start: string, end: string, tail: string ::
      && FormatCue(t) == start + " --> " + end + tail
      && IsTimestamp(start, Max(0, t.start)) && IsTimestamp(end, Max(0, t.end))
      && tail == if t.settings == "" then "" else " " + t.settings
  {
    hide FormatTime, IsTimestamp;
    WrittenTimestamp(t.start);
    WrittenTimestamp(t.end);
    var start, end := FormatTime(t.start), FormatTime(t.end);
    var tail := if t.settings != "" then " " + t.settings else "";
    assert FormatCue(t) == start + " --> " + end + tail;
  }
}
