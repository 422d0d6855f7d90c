/** Strings as sequences of code points: searching, splitting, trimming, and decimal numbers. */
module Text {
  import opened Common

  // ----- characters -----

  /** Unicode white space, as `strings.TrimSpace` understands it. */
  predicate IsSpace(c: char) {
    var n := c as int;
    || 9 <= n <= 13 || n == 0x20 || n == 0x85 || n == 0xA0 || n == 0x1680
    || 0x2000 <= n <= 0x200A || n == 0x2028 || n == 0x2029 || n == 0x202F || n == 0x205F || n == 0x3000
  }

  predicate IsDigit(c: char) {
    '0' <= c <= '9'
  }

  // ----- searching -----

  predicate StartsWith(s: string, t: string) {
    |t| <= |s| && s[..|t|] == t
  }

  predicate EndsWith(s: string, t: string) {
    |t| <= |s| && s[|s| - |t|..] == t
  }

  /** The first position of `t`, or -1. */
  function IndexOf(s: string, t: string): (i: int)
    ensures -1 <= i && (i >= 0 ==> i + |t| <= |s| && s[i..i + |t|] == t)
    decreases |s|
  {
    if StartsWith(s, t) then 0
    else if s == [] then -1
    else
      var i := IndexOf(s[1..], t);
      if i < 0 then -1 else i + 1
  }

  predicate Contains(s: string, t: string) {
    IndexOf(s, t) >= 0
  }

  /** Nothing found means it is nowhere; something found means nowhere before. */
  lemma {:induction false} IndexOfIsFirst(s: string, t: string, k: nat)
    requires k + |t| <= |s| && s[k..k + |t|] == t
    ensures 0 <= IndexOf(s, t) <= k
    decreases |s|
  {
    if k == 0 {
      assert s[..|t|] == s[0..|t|];
    } else if !StartsWith(s, t) {
      assert s[1..][k - 1..k - 1 + |t|] == s[k..k + |t|];
      IndexOfIsFirst(s[1..], t, k - 1);
    }
  }

  /** `t` is found right after a part that does not hold its first character. */
  lemma {:induction false} IndexOfAfter(a: string, t: string, b: string)
    requires t != [] && t[0] !in a
    ensures IndexOf(a + t + b, t) == |a|
    decreases |a|
  {
    var s := a + t + b;
    if a == [] {
      assert s[..|t|] == t;
    } else {
      assert s[0] == a[0];
      assert !StartsWith(s, t);
      assert s[1..] == a[1..] + t + b;
      IndexOfAfter(a[1..], t, b);
    }
  }

  lemma {:induction false} NotFound(s: string, t: string)
    requires t != [] && t[0] !in s
    ensures IndexOf(s, t) == -1
  {
    if s != [] {
      NotFound(s[1..], t);
    }
  }

  /** The last position of `t`, or -1. */
  function LastIndex(s: string, t: string): (i: int)
    ensures -1 <= i && (i >= 0 ==> i + |t| <= |s| && s[i..i + |t|] == t)
    decreases |s|
  {
    if EndsWith(s, t) then |s| - |t|
    else if s == [] then -1
    else LastIndex(s[..|s| - 1], t)
  }

  /** A string that ends in `w` does not end in a longer `t` whose first character `w` lacks. */
  lemma EndsOtherwise(front: string, w: string, t: string)
    requires t != [] && |t| <= |w| && t[0] !in w
    ensures !EndsWith(front + w, t)
  {
    EndsWithTail(front, w, t);
    assert w[|w| - |t|..][0] == w[|w| - |t|];
  }

  /** `t` is found right before a part that does not hold its first character. */
  lemma {:induction false} LastIndexBefore(a: string, t: string, b: string)
    requires t != [] && t[0] !in b && t[0] !in t[1..]
    ensures LastIndex(a + t + b, t) == |a|
    decreases |b|
  {
    hide LastIndex, EndsWith;
    var s := a + t + b;
    if b == [] {
      assert s[|s| - |t|..] == t;
      LastIndexHere(s, t);
    } else {
      EndsOtherwise(a + [t[0]], t[1..] + b, t);
      assert s == a + [t[0]] + (t[1..] + b);
      assert s[..|s| - 1] == a + t + b[..|b| - 1];
      LastIndexBefore(a, t, b[..|b| - 1]);
      LastIndexEarlier(s, t);
    }
  }

  lemma LastIndexHere(s: string, t: string)
    requires |t| <= |s| && s[|s| - |t|..] == t
    ensures LastIndex(s, t) == |s| - |t|
  {
  }

  lemma LastIndexEarlier(s: string, t: string)
    requires s != [] && !EndsWith(s, t)
    ensures LastIndex(s, t) == LastIndex(s[..|s| - 1], t)
  {
  }

  lemma {:induction false} LastIndexNone(s: string, t: string)
    requires t != [] && t[0] !in s
    ensures LastIndex(s, t) == -1
  {
    if s != [] {
      assert |t| <= |s| ==> s[|s| - |t|..][0] == s[|s| - |t|];
      LastIndexNone(s[..|s| - 1], t);
    }
  }

  lemma EndsWithTail(a: string, b: string, t: string)
    requires |t| <= |b|
    ensures EndsWith(a + b, t) <==> EndsWith(b, t)
  {
    assert (a + b)[|a + b| - |t|..] == b[|b| - |t|..];
  }

  /** An occurrence inside the tail `b` is the last one whatever precedes the tail. */
  lemma {:induction false} LastIndexInTail(a: string, b: string, t: string)
    requires t != [] && LastIndex(b, t) >= 0
    ensures LastIndex(a + b, t) == |a| + LastIndex(b, t)
    decreases |b|
  {
    EndsWithTail(a, b, t);
    if !EndsWith(b, t) {
      assert (a + b)[..|a + b| - 1] == a + b[..|b| - 1];
      LastIndexInTail(a, b[..|b| - 1], t);
    }
  }

  // ----- splitting -----

  /** The parts of `s` between the separators. There is always at least one. */
  function Split(s: string, sep: char): (parts: seq<string>)
    ensures |parts| >= 1
  {
    if s == [] then [[]]
    else
      var rest := Split(s[1..], sep);
      if s[0] == sep then [[]] + rest else [[s[0]] + rest[0]] + rest[1..]
  }

  function Join(parts: seq<string>, sep: char): string
    requires |parts| >= 1
  {
    if |parts| == 1 then parts[0] else parts[0] + [sep] + Join(parts[1..], sep)
  }

  lemma {:induction false} SplitParts(s: string, sep: char)
    ensures forall p <- Split(s, sep) :: sep !in p
  {
    if s != [] {
      SplitParts(s[1..], sep);
      var rest := Split(s[1..], sep);
      assert rest[0] in rest;
      forall p <- Split(s, sep)
        ensures sep !in p
      {
        assert p == [] || p == [s[0]] + rest[0] || p in rest;
      }
    }
  }

  lemma {:induction false} SplitWhole(s: string, sep: char)
    requires sep !in s
    ensures Split(s, sep) == [s]
  {
    if s != [] {
      SplitWhole(s[1..], sep);
      assert s == [s[0]] + s[1..];
    }
  }

  lemma {:induction false} SplitFirst(a: string, sep: char, b: string)
    requires sep !in a
    ensures Split(a + [sep] + b, sep) == [a] + Split(b, sep)
  {
    if a == [] {
      assert (a + [sep] + b)[1..] == b;
    } else {
      SplitFirst(a[1..], sep, b);
      assert (a + [sep] + b)[1..] == a[1..] + [sep] + b;
      assert a == [a[0]] + a[1..];
    }
  }

  /** Splitting undoes joining. */
  lemma {:induction false} SplitJoin(parts: seq<string>, sep: char)
    requires |parts| >= 1 && forall p <- parts :: sep !in p
    ensures Split(Join(parts, sep), sep) == parts
  {
    if |parts| == 1 {
      SplitWhole(parts[0], sep);
    } else {
      SplitFirst(parts[0], sep, Join(parts[1..], sep));
      SplitJoin(parts[1..], sep);
      assert parts == [parts[0]] + parts[1..];
    }
  }

  lemma JoinFront(first: string, rest: seq<string>, sep: char)
    requires |rest| >= 1
    ensures Join([first] + rest, sep) == first + [sep] + Join(rest, sep)
  {
    assert ([first] + rest)[1..] == rest;
  }

  lemma JoinLonger(c: char, parts: seq<string>, sep: char)
    requires |parts| >= 1
    ensures Join([[c] + parts[0]] + parts[1..], sep) == [c] + Join(parts, sep)
  {
    if |parts| > 1 {
      JoinFront([c] + parts[0], parts[1..], sep);
    }
  }

  /** Joining undoes splitting. */
  lemma {:induction false} JoinSplit(s: string, sep: char)
    ensures Join(Split(s, sep), sep) == s
  {
    if s != [] {
      JoinSplit(s[1..], sep);
      var rest := Split(s[1..], sep);
      assert s == [s[0]] + s[1..];
      if s[0] == sep {
        JoinFront([], rest, sep);
      } else {
        JoinLonger(s[0], rest, sep);
      }
    }
  }

  // ----- trimming -----

  function TrimLeft(s: string): string {
    if s != [] && IsSpace(s[0]) then TrimLeft(s[1..]) else s
  }

  function TrimRight(s: string): string {
    if s != [] && IsSpace(s[|s| - 1]) then TrimRight(s[..|s| - 1]) else s
  }

  function TrimSpace(s: string): string {
    TrimRight(TrimLeft(s))
  }

  /** No white space at either end. */
  predicate Trimmed(s: string) {
    s != [] ==> !IsSpace(s[0]) && !IsSpace(s[|s| - 1])
  }

  lemma {:induction false} TrimLeftIsSuffix(s: string)
    ensures |TrimLeft(s)| <= |s| && TrimLeft(s) == s[|s| - |TrimLeft(s)|..]
    ensures TrimLeft(s) != [] ==> !IsSpace(TrimLeft(s)[0])
  {
    if s != [] && IsSpace(s[0]) {
      TrimLeftIsSuffix(s[1..]);
      var t := TrimLeft(s[1..]);
      assert s[1..][|s| - 1 - |t|..] == s[|s| - |t|..];
    }
  }

  lemma {:induction false} TrimRightIsPrefix(s: string)
    ensures |TrimRight(s)| <= |s| && TrimRight(s) == s[..|TrimRight(s)|]
    ensures TrimRight(s) != [] ==> !IsSpace(TrimRight(s)[|TrimRight(s)| - 1])
  {
    if s != [] && IsSpace(s[|s| - 1]) {
      TrimRightIsPrefix(s[..|s| - 1]);
    }
  }

  /** `t` stands in `s` at `i`. */
  predicate IsPart(s: string, i: int, t: string) {
    0 <= i && i + |t| <= |s| && s[i..i + |t|] == t
  }

  /** What is left is a contiguous part with no white space at the ends. */
  lemma TrimSpaceTrims(s: string)
    ensures Trimmed(TrimSpace(s))
    ensures exists i :: IsPart(s, i, TrimSpace(s))
  {
    TrimLeftIsSuffix(s);
    TrimRightIsPrefix(TrimLeft(s));
    var i := |s| - |TrimLeft(s)|;
    assert IsPart(s, i, TrimSpace(s));
  }

  lemma TrimmedUnchanged(s: string)
    requires Trimmed(s)
    ensures TrimSpace(s) == s
  {
  }

  predicate AllSpace(s: string) {
    forall c <- s :: IsSpace(c)
  }

  lemma {:induction false} TrimLeftPadding(pad: string, s: string)
    requires AllSpace(pad) && (s != [] ==> !IsSpace(s[0]))
    ensures TrimLeft(pad + s) == s
  {
    if pad == [] {
      assert pad + s == s;
    } else {
      TrimLeftPadding(pad[1..], s);
      assert (pad + s)[1..] == pad[1..] + s;
    }
  }

  lemma {:induction false} TrimRightPadding(s: string, pad: string)
    requires AllSpace(pad) && (s != [] ==> !IsSpace(s[|s| - 1]))
    ensures TrimRight(s + pad) == s
  {
    if pad == [] {
      assert s + pad == s;
    } else {
      TrimRightPadding(s, pad[..|pad| - 1]);
      assert (s + pad)[..|s + pad| - 1] == s + pad[..|pad| - 1];
    }
  }

  /** Padding with white space on both sides is removed. */
  lemma TrimPadding(left: string, s: string, right: string)
    requires AllSpace(left) && AllSpace(right) && Trimmed(s) && s != []
    ensures TrimSpace(left + s + right) == s
  {
    assert left + s + right == left + (s + right);
    TrimLeftPadding(left, s + right);
    TrimRightPadding(s, right);
  }

  // ----- decimal numbers -----

  const DIGITS := "0123456789"

  function Decimal(n: nat): (s: string)
    ensures s != []
  {
    if n < 10 then [DIGITS[n]] else Decimal(n / 10) + [DIGITS[n % 10]]
  }

  function DigitValue(c: char): nat
    requires IsDigit(c)
  {
    c as int - '0' as int
  }

  predicate AllDigits(s: string) {
    s != [] && forall c <- s :: IsDigit(c)
  }

  function Value(s: string): nat
    requires forall c <- s :: IsDigit(c)
  {
    if s == [] then 0 else 10 * Value(s[..|s| - 1]) + DigitValue(s[|s| - 1])
  }

  lemma {:induction false} DecimalValue(n: nat)
    ensures AllDigits(Decimal(n)) && Value(Decimal(n)) == n
  {
    if n >= 10 {
      DecimalValue(n / 10);
      assert Decimal(n)[..|Decimal(n)| - 1] == Decimal(n / 10);
    } else {
      assert Decimal(n)[..0] == [];
    }
  }

  /** Zeros in front do not count. */
  lemma {:induction false} LeadingZero(s: string)
    requires forall c <- s :: IsDigit(c)
    ensures Value("0" + s) == Value(s)
  {
    if s == [] {
      assert ("0" + s)[..0] == [];
    } else {
      LeadingZero(s[..|s| - 1]);
      assert ("0" + s)[..|"0" + s| - 1] == "0" + s[..|s| - 1];
    }
  }

  /** `%0wd`: zeros in front up to the width. */
  function Padded(n: nat, width: nat): string {
    PadZeros(Decimal(n), width)
  }

  function PadZeros(s: string, width: nat): string
    decreases width - |s|
  {
    if |s| >= width then s else PadZeros("0" + s, width)
  }

  lemma {:induction false} PadZerosValue(s: string, width: nat)
    requires AllDigits(s)
    ensures AllDigits(PadZeros(s, width)) && Value(PadZeros(s, width)) == Value(s)
    ensures |PadZeros(s, width)| == if |s| >= width then |s| else width
    decreases width - |s|
  {
    if |s| < width {
      LeadingZero(s);
      PadZerosValue("0" + s, width);
    }
  }

  lemma PaddedValue(n: nat, width: nat)
    ensures AllDigits(Padded(n, width)) && Value(Padded(n, width)) == n && |Padded(n, width)| >= width
  {
    DecimalValue(n);
    PadZerosValue(Decimal(n), width);
  }

  lemma {:induction false} DecimalLength(n: nat, width: nat)
    requires width > 0 && n < Pow10(width)
    ensures |Decimal(n)| <= width
  {
    if n >= 10 {
      assert Pow10(1) == 10;
      DecimalLength(n / 10, width - 1);
    }
  }

  function Pow10(k: nat): nat {
    if k == 0 then 1 else 10 * Pow10(k - 1)
  }

  /** A number that fits its width is printed in exactly that width. */
  lemma PaddedLength(n: nat, width: nat)
    requires width > 0 && n < Pow10(width)
    ensures |Padded(n, width)| == width
  {
    DecimalValue(n);
    DecimalLength(n, width);
    PadZerosValue(Decimal(n), width);
  }

  /** `strconv.ParseInt(s, 10, 64)`: an optional sign and digits, within 64 bits. */
  function ParseInt(s: string): Option<int> {
    var negative := s != [] && s[0] == '-';
    var digits := if s != [] && (s[0] == '-' || s[0] == '+') then s[1..] else s;
    if !AllDigits(digits) then None
    else
      var n: int := if negative then 0 - Value(digits) as int else Value(digits) as int;
      if -MAX_INT64 - 1 <= n <= MAX_INT64 then Some(n) else None
  }

  lemma ParsePadded(n: nat, width: nat)
    requires n <= MAX_INT64
    ensures ParseInt(Padded(n, width)) == Some(n)
  {
    PaddedValue(n, width);
    var s := Padded(n, width);
    assert s[0] in s;
  }
}
