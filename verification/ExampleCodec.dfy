/**
 * The laws asked of JSON and of the hash can be met together. The codec here writes numbers in
 * unary and lists with their length in front, so that no printed manifest begins another one.
 */
module ExampleCodec {
  import opened Common
  import opened Manifest

  type Numbers = seq<nat>

  /** What is read, and the bytes after it. */
  type Reading<T> = Option<(T, Bytes)>

  // ----- numbers and rows of numbers -----

  function Unary(n: nat): Bytes {
    if n == 0 then [0] else [1] + Unary(n - 1)
  }

  function ReadUnary(b: Bytes): (r: Reading<nat>)
    ensures r.Some? ==> |r.value.1| < |b|
  {
    if b == [] then None
    else if b[0] == 0 then Some((0, b[1..]))
    else
      var r := ReadUnary(b[1..]);
      if r.None? then None else Some((r.value.0 + 1, r.value.1))
  }

  lemma {:induction false} UnaryReadBack(n: nat, rest: Bytes)
    ensures ReadUnary(Unary(n) + rest) == Some((n, rest))
  {
    var b := Unary(n) + rest;
    if n == 0 {
      assert b[1..] == rest;
    } else {
      UnaryReadBack(n - 1, rest);
      assert b[1..] == Unary(n - 1) + rest;
    }
  }

  function Each(ns: Numbers): Bytes {
    if ns == [] then [] else Unary(ns[0]) + Each(ns[1..])
  }

  function ReadEach(count: nat, b: Bytes): Reading<Numbers> {
    if count == 0 then Some(([], b))
    else
      var first := ReadUnary(b);
      if first.None? then None
      else
        var rest := ReadEach(count - 1, first.value.1);
        if rest.None? then None else Some(([first.value.0] + rest.value.0, rest.value.1))
  }

  lemma {:induction false} EachReadBack(ns: Numbers, rest: Bytes)
    ensures ReadEach(|ns|, Each(ns) + rest) == Some((ns, rest))
  {
    if ns == [] {
      assert Each(ns) + rest == rest;
    } else {
      assert Each(ns) + rest == Unary(ns[0]) + (Each(ns[1..]) + rest);
      UnaryReadBack(ns[0], Each(ns[1..]) + rest);
      EachReadBack(ns[1..], rest);
      assert ns == [ns[0]] + ns[1..];
    }
  }

  function Row(ns: Numbers): Bytes {
    Unary(|ns|) + Each(ns)
  }

  function ReadRow(b: Bytes): Reading<Numbers> {
    var count := ReadUnary(b);
    if count.None? then None else ReadEach(count.value.0, count.value.1)
  }

  lemma RowReadBack(ns: Numbers, rest: Bytes)
    ensures ReadRow(Row(ns) + rest) == Some((ns, rest))
  {
    assert Row(ns) + rest == Unary(|ns|) + (Each(ns) + rest);
    UnaryReadBack(|ns|, Each(ns) + rest);
    EachReadBack(ns, rest);
  }

  // ----- manifests -----

  function Natural(x: int): nat {
    if x >= 0 then 2 * x else -2 * x - 1
  }

  function Integer(n: nat): int {
    if n % 2 == 0 then n / 2 else -((n + 1) / 2)
  }

  function Codes(s: string): Numbers {
    seq(|s|, i requires 0 <= i < |s| => s[i] as int)
  }

  function Character(n: nat): char {
    if n < 0xD800 || 0xE000 <= n < 0x11_0000 then n as char else ' '
  }

  function Characters(ns: Numbers): string {
    seq(|ns|, i requires 0 <= i < |ns| => Character(ns[i]))
  }

  lemma CodesReadBack(s: string)
    ensures Characters(Codes(s)) == s
  {
  }

  function Figures(m: Manifest): Numbers {
    var t := m.exportedAt;
    [Natural(m.manifestVersion), Natural(m.schemaVersion), Natural(m.sizeBytes),
     t.year, t.month, t.day, t.hour, t.minute, t.second]
  }

  function Encode(m: Manifest): Bytes {
    Row(Figures(m)) + (Row(Codes(m.generation)) + (Row(Codes(m.document)) + Row(Codes(m.sha256))))
  }

  function Decode(b: Bytes): Option<Manifest> {
    var f := ReadRow(b);
    if f.None? || |f.value.0| != 9 then None
    else
      var g := ReadRow(f.value.1);
      if g.None? then None
      else
        var d := ReadRow(g.value.1);
        if d.None? then None
        else
          var h := ReadRow(d.value.1);
          if h.None? then None
          else
            var n := f.value.0;
            Some(Manifest(Integer(n[0]), Characters(g.value.0), Integer(n[1]), Utc(n[3], n[4], n[5], n[6], n[7], n[8]),
              Characters(d.value.0), Integer(n[2]), Characters(h.value.0)))
  }

  /** A printed manifest is read whatever comes after it. */
  lemma DecodeReadsBack(m: Manifest, rest: Bytes)
    ensures Decode(Encode(m) + rest) == Some(m)
  {
    hide Row, ReadRow, Codes, Characters;
    var g, d, h := Row(Codes(m.generation)), Row(Codes(m.document)), Row(Codes(m.sha256));
    assert Encode(m) + rest == Row(Figures(m)) + (g + (d + (h + rest)));
    RowReadBack(Figures(m), g + (d + (h + rest)));
    RowReadBack(Codes(m.generation), d + (h + rest));
    RowReadBack(Codes(m.document), h + rest);
    RowReadBack(Codes(m.sha256), rest);
    CodesReadBack(m.generation);
    CodesReadBack(m.document);
    CodesReadBack(m.sha256);
  }

  /** Only what is exactly a printed manifest parses. */
  function Parse(b: Bytes): Option<Manifest> {
    var m := Decode(b);
    if m.Some? && Encode(m.value) == b then m else None
  }

  function Hash(b: Bytes): string {
    seq(|b|, i requires 0 <= i < |b| => b[i] as int as char)
  }

  const EXAMPLE := Codec(Encode, Parse, Hash)

  /** What has been written of a manifest parses only when it is all there. */
  lemma PrefixParses(m: Manifest, k: int)
    ensures Parse(Prefix(EXAMPLE, m, k)) == if Prefix(EXAMPLE, m, k) == Encode(m) then Some(m) else None
  {
    hide Encode, Decode;
    var all, part := Encode(m), Prefix(EXAMPLE, m, k);
    var rest := all[|part|..];
    assert part + rest == all;
    DecodeReadsBack(m, []);
    assert Encode(m) + [] == all;
    if Parse(part).Some? {
      DecodeReadsBack(Parse(part).value, rest);
    }
  }

  lemma HashIsInjective(a: Bytes, b: Bytes)
    requires Hash(a) == Hash(b)
    ensures a == b
  {
    forall i | 0 <= i < |a|
      ensures a[i] == b[i]
    {
      assert Hash(a)[i] == Hash(b)[i];
    }
  }

  /** There is a lawful codec, so the results about lawful ones are not empty. */
  lemma ExampleIsLawful()
    ensures Lawful(EXAMPLE)
  {
    hide Encode, Parse, Hash;
    forall m
      ensures Parse(Encode(m)) == Some(m)
    {
      PrefixParses(m, |Encode(m)|);
    }
    forall m, k
      ensures Parse(Prefix(EXAMPLE, m, k)) in {None, Some(m)}
    {
      PrefixParses(m, k);
    }
    forall m, j, k | j <= k && Parse(Prefix(EXAMPLE, m, j)).Some?
      ensures Parse(Prefix(EXAMPLE, m, k)).Some?
    {
      PrefixParses(m, j);
      PrefixParses(m, k);
    }
    forall a, b | Hash(a) == Hash(b)
      ensures a == b
    {
      HashIsInjective(a, b);
    }
  }
}
