/** Names of generation directories. Their byte order is the only record of which is newer. */
module GenerationNames {
  import opened Common
  import opened Text
  import opened Manifest

  predicate FourDigitYear(t: Utc) {
    t.year < 10000 && t.month < 100 && t.day < 100 && t.hour < 100 && t.minute < 100 && t.second < 100
  }

  predicate Earlier(a: Utc, b: Utc) {
    a.year < b.year || (a.year == b.year && (
    a.month < b.month || (a.month == b.month && (
    a.day < b.day || (a.day == b.day && (
    a.hour < b.hour || (a.hour == b.hour && (
    a.minute < b.minute || (a.minute == b.minute && a.second < b.second)))))))))
  }

  function Stamp(t: Utc): string {
    Padded(t.year, 4) + (Padded(t.month, 2) + (Padded(t.day, 2) + ("T" +
    (Padded(t.hour, 2) + (Padded(t.minute, 2) + (Padded(t.second, 2) + "Z"))))))
  }

  function GenerationName(t: Utc): string {
    FILENAME_PREFIX + Stamp(t)
  }

  /** The `i`-th name tried for a second: the plain one, then -02, -03 and so on. */
  function Candidate(base: string, i: nat): string {
    if i <= 1 then base else base + "-" + Padded(i, 2)
  }

  // ----- order of numbers -----

  /** Equal lengths: what follows does not change which of two different strings comes first. */
  lemma {:induction false} LessAtFront(a: string, b: string, x: string, y: string)
    requires |a| == |b|
    ensures Less(a + x, b + y) <==> Less(a, b) || (a == b && Less(x, y))
  {
    if a == [] {
      assert a + x == x && b + y == y;
    } else {
      LessAtFront(a[1..], b[1..], x, y);
      assert (a + x)[1..] == a[1..] + x && (b + y)[1..] == b[1..] + y;
      assert a == [a[0]] + a[1..] && b == [b[0]] + b[1..];
    }
  }

  /** Digit strings of one length are ordered by value. */
  lemma {:induction false} LessByValue(a: string, b: string)
    requires |a| == |b| && (forall c <- a :: IsDigit(c)) && (forall c <- b :: IsDigit(c))
    ensures Less(a, b) <==> Value(a) < Value(b)
    ensures a == b <==> Value(a) == Value(b)
  {
    if a != [] {
      var n := |a| - 1;
      LessByValue(a[..n], b[..n]);
      assert a == a[..n] + [a[n]] && b == b[..n] + [b[n]];
      LessAtFront(a[..n], b[..n], [a[n]], [b[n]]);
      assert a[n] in a && b[n] in b;
      LastDigits(a[n], b[n]);
    }
  }

  lemma LastDigits(c: char, d: char)
    requires IsDigit(c) && IsDigit(d)
    ensures Less([c], [d]) <==> DigitValue(c) < DigitValue(d)
    ensures c == d <==> DigitValue(c) == DigitValue(d)
  {
    assert [c][1..] == [] && [d][1..] == [];
  }

  lemma PaddedOrder(m: nat, n: nat, width: nat)
    requires width > 0 && m < Pow10(width) && n < Pow10(width)
    ensures |Padded(m, width)| == |Padded(n, width)| == width
    ensures Less(Padded(m, width), Padded(n, width)) <==> m < n
    ensures Padded(m, width) == Padded(n, width) <==> m == n
  {
    PaddedValue(m, width);
    PaddedValue(n, width);
    PaddedLength(m, width);
    PaddedLength(n, width);
    LessByValue(Padded(m, width), Padded(n, width));
  }

  lemma Pow10Values()
    ensures Pow10(2) == 100 && Pow10(4) == 10000
  {
    assert Pow10(1) == 10;
    assert Pow10(2) == 100;
    assert Pow10(3) == 1000;
  }

  /** One field of a time stamp and the rest of it. */
  lemma FieldOrder(m: nat, n: nat, width: nat, x: string, y: string)
    requires width > 0 && m < Pow10(width) && n < Pow10(width)
    ensures Less(Padded(m, width) + x, Padded(n, width) + y) <==> m < n || (m == n && Less(x, y))
    ensures Padded(m, width) + x == Padded(n, width) + y <==> m == n && x == y
  {
    hide Padded, Less;
    PaddedOrder(m, n, width);
    LessAtFront(Padded(m, width), Padded(n, width), x, y);
    if Padded(m, width) + x == Padded(n, width) + y {
      assert (Padded(m, width) + x)[..width] == Padded(m, width) && (Padded(n, width) + y)[..width] == Padded(n, width);
      assert (Padded(m, width) + x)[width..] == x && (Padded(n, width) + y)[width..] == y;
    }
  }

  /** Up to the year 9999 time stamps are ordered as the times are. */
  lemma StampOrder(a: Utc, b: Utc)
    requires FourDigitYear(a) && FourDigitYear(b)
    ensures Less(Stamp(a), Stamp(b)) <==> Earlier(a, b)
    ensures Stamp(a) == Stamp(b) <==> a == b
    ensures |Stamp(a)| == |Stamp(b)| == 16
  {
    hide Padded, Less;
    Pow10Values();
    LessIrreflexive("Z");
    var sa, sb := Padded(a.second, 2) + "Z", Padded(b.second, 2) + "Z";
    FieldOrder(a.second, b.second, 2, "Z", "Z");
    var ma, mb := Padded(a.minute, 2) + sa, Padded(b.minute, 2) + sb;
    FieldOrder(a.minute, b.minute, 2, sa, sb);
    var ha, hb := Padded(a.hour, 2) + ma, Padded(b.hour, 2) + mb;
    FieldOrder(a.hour, b.hour, 2, ma, mb);
    LessAfterPrefix("T", ha, hb);
    assert ("T" + ha)[1..] == ha && ("T" + hb)[1..] == hb;
    FieldOrder(a.day, b.day, 2, "T" + ha, "T" + hb);
    FieldOrder(a.month, b.month, 2, Padded(a.day, 2) + ("T" + ha), Padded(b.day, 2) + ("T" + hb));
    FieldOrder(a.year, b.year, 4,
      Padded(a.month, 2) + (Padded(a.day, 2) + ("T" + ha)), Padded(b.month, 2) + (Padded(b.day, 2) + ("T" + hb)));
    StampLength(a);
    StampLength(b);
  }

  lemma StampLength(a: Utc)
    requires FourDigitYear(a)
    ensures |Stamp(a)| == 16
  {
    hide Padded;
    Pow10Values();
    PaddedLength(a.year, 4);
    PaddedLength(a.month, 2);
    PaddedLength(a.day, 2);
    PaddedLength(a.hour, 2);
    PaddedLength(a.minute, 2);
    PaddedLength(a.second, 2);
  }

  lemma GenerationNameOrder(a: Utc, b: Utc)
    requires FourDigitYear(a) && FourDigitYear(b)
    ensures Less(GenerationName(a), GenerationName(b)) <==> Earlier(a, b)
    ensures GenerationName(a) == GenerationName(b) <==> a == b
    ensures |GenerationName(a)| == |GenerationName(b)|
  {
    hide Stamp, Less;
    StampOrder(a, b);
    LessAfterPrefix(FILENAME_PREFIX, Stamp(a), Stamp(b));
    assert GenerationName(a)[8..] == Stamp(a) && GenerationName(b)[8..] == Stamp(b);
  }

  /** Within one second the names tried ascend, the tenth after the second. */
  lemma CandidateOrder(base: string, i: nat, j: nat)
    requires 1 <= i <= 99 && 1 <= j <= 99
    ensures Less(Candidate(base, i), Candidate(base, j)) <==> i < j
    ensures Candidate(base, i) == Candidate(base, j) <==> i == j
  {
    hide Padded, Less;
    Pow10Values();
    PaddedOrder(i, j, 2);
    LessAfterPrefix(base + "-", Padded(i, 2), Padded(j, 2));
    LessIrreflexive(base);
    if i == 1 && j > 1 {
      PrefixIsLess(base, "-" + Padded(j, 2));
      assert base + ("-" + Padded(j, 2)) == Candidate(base, j);
    } else if i > 1 && j == 1 {
      PrefixIsLess(base, "-" + Padded(i, 2));
      assert base + ("-" + Padded(i, 2)) == Candidate(base, i);
      LessTotal(base, Candidate(base, i));
    } else if i > 1 {
      assert Candidate(base, i)[|base| + 1..] == Padded(i, 2) && Candidate(base, j)[|base| + 1..] == Padded(j, 2);
    }
  }

  /** The byte order of names is the order of time first and of the sequence within a second next. */
  lemma NameOrder(a: Utc, i: nat, b: Utc, j: nat)
    requires FourDigitYear(a) && FourDigitYear(b) && 1 <= i <= 99 && 1 <= j <= 99
    ensures Less(Candidate(GenerationName(a), i), Candidate(GenerationName(b), j)) <==>
      Earlier(a, b) || (a == b && i < j)
  {
    hide GenerationName, Less, Padded, Candidate, Earlier, FourDigitYear;
    GenerationNameOrder(a, b);
    if a == b {
      CandidateOrder(GenerationName(a), i, j);
      NotEarlierThanItself(a);
    } else {
      var x := CandidateTail(GenerationName(a), i);
      var y := CandidateTail(GenerationName(b), j);
      LessAtFront(GenerationName(a), GenerationName(b), x, y);
    }
  }

  lemma CandidateTail(base: string, i: nat) returns (tail: string)
    ensures Candidate(base, i) == base + tail
  {
    tail := if i <= 1 then "" else "-" + Padded(i, 2);
  }

  lemma NotEarlierThanItself(a: Utc)
    ensures !Earlier(a, a)
  {
  }
}
