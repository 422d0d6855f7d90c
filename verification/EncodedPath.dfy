/**
 * Encode profile names and the file names of encoded versions. From one original recording,
 * different profiles, generations and containers never share a path, and a cut generation is
 * read back from the path.
 */
module EncodedPath {
  import opened Common
  import opened Text
  import opened ContentPath

  const RESCUE_PREFIX := "rescue-"
  const CUT_MARK := ".g"
  const UNCUT_MARK := ".u"

  // ----- generation suffixes -----

  datatype HeadAndNumber = HeadAndNumber(head: string, n: int)

  /** `head` and `n` if `s` is `head`, the mark, and `n` >= 1 in its only decimal form. */
  function SplitGeneration(s: string, mark: string): Option<HeadAndNumber> {
    var i := LastIndex(s, mark);
    if i < 0 then None
    else
      var digits := s[i + |mark|..];
      var n := ParseInt(digits);
      if n.None? || n.value < 1 || digits != Decimal(n.value) then None else Some(HeadAndNumber(s[..i], n.value))
  }

  function SplitCutGeneration(s: string): Option<HeadAndNumber> {
    SplitGeneration(s, CUT_MARK)
  }

  function SplitUncutGeneration(s: string): Option<HeadAndNumber> {
    SplitGeneration(s, UNCUT_MARK)
  }

  predicate IsMark(mark: string) {
    mark == CUT_MARK || mark == UNCUT_MARK
  }

  lemma ParseDecimal(n: nat)
    requires n <= MAX_INT64
    ensures ParseInt(Decimal(n)) == Some(n)
  {
    DecimalValue(n);
    assert Decimal(n)[0] in Decimal(n);
  }

  /** A suffix that was written is split off again. */
  lemma SuffixReadBack(head: string, mark: string, n: nat)
    requires IsMark(mark) && 1 <= n <= MAX_INT64
    ensures SplitGeneration(head + mark + Decimal(n), mark) == Some(HeadAndNumber(head, n))
  {
    var s := head + mark + Decimal(n);
    DecimalValue(n);
    assert !IsDigit('.');
    LastIndexBefore(head, mark, Decimal(n));
    ParseDecimal(n);
    assert s[|head| + |mark|..] == Decimal(n) && s[..|head|] == head;
  }

  /** Only strings of that form split, so the parts determine the string. */
  lemma SplitIsExact(s: string, mark: string)
    requires SplitGeneration(s, mark).Some?
    ensures
      var p := SplitGeneration(s, mark).value;
      1 <= p.n <= MAX_INT64 && s == p.head + mark + Decimal(p.n)
  {
  }

  /** Counting from the end, the digits and the mark before them are determined. */
  lemma SuffixUnique(h1: string, m1: string, d1: string, h2: string, m2: string, d2: string)
    requires IsMark(m1) && IsMark(m2) && AllDigits(d1) && AllDigits(d2)
    requires h1 + m1 + d1 == h2 + m2 + d2
    ensures h1 == h2 && m1 == m2 && d1 == d2
  {
    if |d1| < |d2| {
      DigitsShorter(h1, m1, d1, h2 + m2, d2);
    } else if |d2| < |d1| {
      DigitsShorter(h2, m2, d2, h1 + m1, d1);
    }
    EqualTails(h1 + m1, d1, h2 + m2, d2);
    EqualTails(h1, m1, h2, m2);
  }

  lemma EqualTails(a: string, b: string, c: string, d: string)
    requires a + b == c + d && |b| == |d|
    ensures a == c && b == d
  {
    assert (a + b)[..|a|] == a && (c + d)[..|a|] == c;
    assert (a + b)[|a|..] == b && (c + d)[|a|..] == d;
  }

  lemma DigitsShorter(h: string, m: string, d: string, front: string, longer: string)
    requires IsMark(m) && |d| < |longer| && AllDigits(longer)
    ensures h + m + d != front + longer
  {
    var at := |longer| - |d| - 1;
    assert (front + longer)[|front| + at] == longer[at];
    assert longer[at] in longer;
    assert (h + m + d)[|h| + 1] == m[1];
    assert !IsDigit(m[1]);
  }

  /** What precedes an underscore plays no part: the suffix lies after it. */
  lemma NoSplitAcross(front: string, tail: string, mark: string)
    requires IsMark(mark) && SplitGeneration(tail, mark).None?
    ensures SplitGeneration(front + "_" + tail, mark).None?
  {
    hide SplitGeneration;
    var s := front + "_" + tail;
    if SplitGeneration(s, mark).Some? {
      SplitIsExact(s, mark);
      var p := SplitGeneration(s, mark).value;
      var suffix := mark + Decimal(p.n);
      DecimalValue(p.n);
      assert '_' !in suffix;
      assert s == p.head + suffix;
      UnderscoreInHead(front, tail, p.head, suffix);
      assert tail == p.head[|front| + 1..] + mark + Decimal(p.n);
      SuffixReadBack(p.head[|front| + 1..], mark, p.n);
    }
  }

  lemma UnderscoreInHead(front: string, tail: string, head: string, suffix: string)
    requires front + "_" + tail == head + suffix && '_' !in suffix
    ensures |front| < |head| && tail == head[|front| + 1..] + suffix
  {
    var s := front + "_" + tail;
    assert s[|front|] == '_';
    assert forall i | |head| <= i < |s| :: s[i] == suffix[i - |head|];
    assert s[|front| + 1..] == tail;
    assert (head + suffix)[|front| + 1..] == head[|front| + 1..] + suffix;
  }

  // ----- profile names -----

  datatype NameError = NotAComponent | EndsInCutSuffix | EndsInUncutSuffix | RescuePrefix

  function ValidateEncodeProfileName(name: string): Option<NameError> {
    if '/' in name || SanitizedPath(name) != name || EndsWith(name, ".") then Some(NotAComponent)
    else if SplitCutGeneration(name).Some? then Some(EndsInCutSuffix)
    else if SplitUncutGeneration(name).Some? then Some(EndsInUncutSuffix)
    else if StartsWith(name, RESCUE_PREFIX) then Some(RescuePrefix)
    else None
  }

  /**
   * The names that may be used: a file name that is safe as it stands, does not end in a point or
   * in a generation suffix, and is not one that a rescue gives.
   */
  ghost predicate Accepted(name: string) {
    && name != "" && name[|name| - 1] != '.'
    && (forall c <- name :: c !in "/\\:*?\"<>|" && 0x20 <= c as int != 0x7F)
    && !IsSpace(name[0]) && !IsSpace(name[|name| - 1])
    && (forall i | 0 <= i < |name| - 1 :: !(name[i] == '.' && name[i + 1] == '.'))
    && (forall head: string, mark: string, n: nat | (mark == ".g" || mark == ".u") && 1 <= n <= MAX_INT64 ::
         name != head + mark + Decimal(n))
    && !("rescue-" <= name)
  }

  /** Validation accepts exactly those names. */
  lemma AcceptedIff(name: string)
    ensures ValidateEncodeProfileName(name).None? <==> Accepted(name)
  {
    hide SanitizedPath, SplitGeneration, Decimal, IsSpace;
    ComponentIff(name);
    NoSuffixIff(name, CUT_MARK);
    NoSuffixIff(name, UNCUT_MARK);
    assert StartsWith(name, RESCUE_PREFIX) <==> RESCUE_PREFIX <= name;
    if ValidateEncodeProfileName(name).None? {
      forall head: string, mark: string, n: nat | (mark == ".g" || mark == ".u") && 1 <= n <= MAX_INT64
        ensures name != head + mark + Decimal(n)
      {
      }
    }
  }

  /** A string splits exactly when it ends in the mark and a positive number in its decimal form. */
  lemma NoSuffixIff(name: string, mark: string)
    requires IsMark(mark)
    ensures SplitGeneration(name, mark).None?
       <==> forall head: string, n: nat | 1 <= n <= MAX_INT64 :: name != head + mark + Decimal(n)
  {
    hide SplitGeneration, Decimal;
    if SplitGeneration(name, mark).Some? {
      SplitIsExact(name, mark);
    }
    forall head: string, n: nat | 1 <= n <= MAX_INT64 && name == head + mark + Decimal(n)
      ensures SplitGeneration(name, mark).Some?
    {
      SuffixReadBack(head, mark, n);
    }
  }

  /** The first test: one component, left alone by the sanitiser, that does not end in a point. */
  lemma ComponentIff(name: string)
    ensures ('/' !in name && SanitizedPath(name) == name && !EndsWith(name, ".")) <==>
      (Clean(name) && name[|name| - 1] != '.')
  {
    hide Clean, SanitizedPath;
    PathUnchangedIff(name);
    if '/' !in name {
      SplitWhole(name, '/');
    }
    if Clean(name) {
      CleanIsNotEmpty(name);
      CleanHasNoSlash(name);
      assert name[|name| - 1..] == [name[|name| - 1]];
    }
    assert Clean(name) ==> name in [name];
  }

  lemma AcceptedIsClean(name: string)
    requires Accepted(name)
    ensures Clean(name) && name[|name| - 1] != '.'
    ensures SplitCutGeneration(name).None? && SplitUncutGeneration(name).None?
  {
    hide SplitGeneration, Decimal, IsSpace;
    NoSuffixIff(name, CUT_MARK);
    NoSuffixIff(name, UNCUT_MARK);
  }

  lemma CleanHasNoSlash(name: string)
    requires Clean(name)
    ensures '/' !in name
  {
    SlashIsUnsafe(name);
  }

  lemma CleanIsNotEmpty(name: string)
    requires Clean(name)
    ensures name != ""
  {
  }

  // ----- file names -----

  function Suffix(generation: int, cut: bool): string {
    if generation > 0 then (if cut then CUT_MARK else UNCUT_MARK) + Decimal(generation) else ""
  }

  /** The part of the file name that the profile decides. */
  function Tail(name: string, generation: int, cut: bool, container: string): string {
    name + Suffix(generation, cut) + "." + container
  }

  predicate IsContainer(container: string) {
    container == "mp4" || container == "mkv"
  }

  /** `filepath.Ext`: from the last point of a base name on. */
  function Ext(base: string): string {
    var i := LastIndex(base, ".");
    if i < 0 then "" else base[i..]
  }

  function Stem(base: string): string {
    base[..|base| - |Ext(base)|]
  }

  function DirOf(p: string): string {
    var i := LastIndex(p, "/");
    if i < 0 then "" else p[..i]
  }

  function BaseOf(p: string): string {
    var i := LastIndex(p, "/");
    if i < 0 then p else p[i + 1..]
  }

  datatype PathError = EmptyOriginal | UnsupportedContainer | BadName(error: NameError)

  function EncodedRelPath(original: string, name: string, container: string, generation: int, cut: bool)
    : (r: Result<string, PathError>)
    ensures r.Success? <==> original != "" && (container == "mp4" || container == "mkv") && Accepted(name)
    ensures r == Failure(EmptyOriginal) <==> original == ""
    ensures r == Failure(UnsupportedContainer) <==> original != "" && container !in ["mp4", "mkv"]
  {
    AcceptedIff(name);
    if original == "" then Failure(EmptyOriginal)
    else if !IsContainer(container) then Failure(UnsupportedContainer)
    else if ValidateEncodeProfileName(name).Some? then Failure(BadName(ValidateEncodeProfileName(name).value))
    else
      var dir := DirOf(original);
      var stem := if Stem(BaseOf(original)) == "" then "encoded" else Stem(BaseOf(original));
      var file := stem + "_" + Tail(name, generation, cut, container);
      Success(SanitizedPath(if dir == "" || dir == "." then file else dir + "/" + file))
  }

  /** The generation of a cut version of the profile, if the path names one. */
  function CutGeneration(relPath: string, name: string): Option<int> {
    var split := SplitCutGeneration(Stem(BaseOf(relPath)));
    if split.None? || !EndsWith(split.value.head, "_" + name) then None else Some(split.value.n)
  }

  // ----- the tail is clean -----

  lemma SuffixCharacters(generation: int, cut: bool)
    ensures NoUnsafe(Suffix(generation, cut))
    ensures forall i | 0 < i < |Suffix(generation, cut)| :: Suffix(generation, cut)[i] != '.'
    ensures Suffix(generation, cut) == "" || |Suffix(generation, cut)| >= 2
  {
    hide IsUnsafe, Decimal;
    if generation > 0 {
      DecimalValue(generation);
      DigitsAreSafe();
      var mark := if cut then CUT_MARK else UNCUT_MARK;
      assert forall c <- Decimal(generation) :: IsDigit(c);
    }
  }

  lemma DigitsAreSafe()
    ensures forall c | IsDigit(c) :: !IsUnsafe(c) && c != '.'
    ensures !IsUnsafe('.') && !IsUnsafe('g') && !IsUnsafe('u')
  {
  }

  /** An accepted name with its suffix and container is left unchanged by the sanitiser. */
  lemma TailIsClean(name: string, generation: int, cut: bool, container: string)
    requires Accepted(name) && IsContainer(container)
    ensures Clean(Tail(name, generation, cut, container))
    ensures SanitizedPath(Tail(name, generation, cut, container)) == Tail(name, generation, cut, container)
  {
    hide SanitizedPath, Accepted, Suffix, Split;
    AcceptedIsClean(name);
    SuffixCharacters(generation, cut);
    var tail := Tail(name, generation, cut, container);
    TailHasNoDoubleDots(name, Suffix(generation, cut), container);
    TailEnds(name, Suffix(generation, cut), container);
    SlashIsUnsafe(tail);
    SplitWhole(tail, '/');
    PathUnchangedIff(tail);
  }

  lemma TailEnds(name: string, suffix: string, container: string)
    requires NoUnsafe(name) && NoUnsafe(suffix) && Trimmed(name) && name != "" && IsContainer(container)
    ensures var tail := name + suffix + "." + container;
      NoUnsafe(tail) && Trimmed(tail) && tail != "" && tail != "."
  {
    var tail := name + suffix + "." + container;
    assert tail[|tail| - 1] == container[2] && tail[0] == name[0];
  }

  lemma TailHasNoDoubleDots(name: string, suffix: string, container: string)
    requires NoDoubleDots(name) && name != "" && name[|name| - 1] != '.'
    requires forall i | 0 < i < |suffix| :: suffix[i] != '.'
    requires suffix == "" || |suffix| >= 2
    requires IsContainer(container)
    ensures NoDoubleDots(name + suffix + "." + container)
  {
  }

  // ----- the whole path -----

  /** The suffix decides whether there is a generation, which one, and whether it is a cut. */
  predicate SameVersion(g1: int, c1: bool, g2: int, c2: bool) {
    (g1 <= 0 && g2 <= 0) || (g1 == g2 && c1 == c2)
  }

  predicate GenerationInRange(g: int) {
    g <= MAX_INT64
  }

  /** Names with suffixes are equal only for the same name and version. */
  lemma NamedVersionsDiffer(n1: string, g1: int, c1: bool, n2: string, g2: int, c2: bool)
    requires Accepted(n1) && Accepted(n2) && GenerationInRange(g1) && GenerationInRange(g2)
    ensures n1 + Suffix(g1, c1) == n2 + Suffix(g2, c2) <==> n1 == n2 && SameVersion(g1, c1, g2, c2)
  {
    hide Accepted, SplitGeneration, Decimal, Suffix;
    AcceptedIsClean(n1);
    AcceptedIsClean(n2);
    SuffixForm(n1, g1, c1);
    SuffixForm(n2, g2, c2);
    var m1, m2 := if c1 then CUT_MARK else UNCUT_MARK, if c2 then CUT_MARK else UNCUT_MARK;
    if n1 + Suffix(g1, c1) == n2 + Suffix(g2, c2) {
      if g1 > 0 && g2 > 0 {
        DecimalValue(g1);
        DecimalValue(g2);
        SuffixUnique(n1, m1, Decimal(g1), n2, m2, Decimal(g2));
      } else if g1 > 0 {
        SuffixReadBack(n1, m1, g1);
      } else if g2 > 0 {
        SuffixReadBack(n2, m2, g2);
      }
    }
  }

  lemma SuffixForm(name: string, g: int, cut: bool)
    ensures name + Suffix(g, cut) ==
      if g > 0 then name + (if cut then CUT_MARK else UNCUT_MARK) + Decimal(g) else name
  {
    hide Decimal;
  }

  /** The tail is injective in name, version and container. */
  lemma TailInjective(
    n1: string, g1: int, c1: bool, k1: string, n2: string, g2: int, c2: bool, k2: string)
    requires Accepted(n1) && Accepted(n2) && GenerationInRange(g1) && GenerationInRange(g2)
    requires IsContainer(k1) && IsContainer(k2)
    ensures Tail(n1, g1, c1, k1) == Tail(n2, g2, c2, k2) <==> n1 == n2 && SameVersion(g1, c1, g2, c2) && k1 == k2
  {
    hide Accepted, Suffix;
    NamedVersionsDiffer(n1, g1, c1, n2, g2, c2);
    if Tail(n1, g1, c1, k1) == Tail(n2, g2, c2, k2) {
      assert Tail(n1, g1, c1, k1) == n1 + Suffix(g1, c1) + ("." + k1);
      assert Tail(n2, g2, c2, k2) == n2 + Suffix(g2, c2) + ("." + k2);
      EqualTails(n1 + Suffix(g1, c1), "." + k1, n2 + Suffix(g2, c2), "." + k2);
      assert ("." + k1)[1..] == k1 && ("." + k2)[1..] == k2;
    }
  }

  /** What the sanitiser makes of the original's stem in front of the underscore. */
  function CleanedStem(stem: string): string {
    TrimLeft(CollapseDots(ReplaceUnsafe(stem)))
  }

  lemma CollapsePair(rest: string)
    ensures CollapseDots(".." + rest) == "_" + CollapseDots(rest)
  {
    assert (".." + rest)[2..] == rest;
  }

  lemma CollapseOther(c: char, rest: string)
    requires c != '.' || rest == "" || rest[0] != '.'
    ensures CollapseDots([c] + rest) == [c] + CollapseDots(rest)
  {
    assert ([c] + rest)[1..] == rest;
  }

  lemma {:induction false} CollapseAcross(a: string, b: string)
    requires NoDoubleDots(b)
    ensures CollapseDots(a + ("_" + b)) == CollapseDots(a) + ("_" + b)
  {
    hide CollapseDots, NoDoubleDots;
    if a == "" {
      CollapseUnchanged(b);
      CollapseOther('_', b);
      CollapseNothing();
      assert "" + ("_" + b) == "_" + b;
    } else if |a| >= 2 && a[0] == '.' && a[1] == '.' {
      CollapseAcross(a[2..], b);
      CollapsePair(a[2..] + ("_" + b));
      CollapsePair(a[2..]);
      assert a == ".." + a[2..] && a + ("_" + b) == ".." + (a[2..] + ("_" + b));
    } else {
      CollapseAcross(a[1..], b);
      CollapseOther(a[0], a[1..] + ("_" + b));
      CollapseOther(a[0], a[1..]);
      assert a == [a[0]] + a[1..] && a + ("_" + b) == [a[0]] + (a[1..] + ("_" + b));
    }
  }

  lemma CollapseNothing()
    ensures CollapseDots("") == ""
  {
  }

  lemma {:induction false} TrimLeftAcross(a: string, b: string)
    requires b != "" && !IsSpace(b[0])
    ensures TrimLeft(a + b) == TrimLeft(a) + b
  {
    if a == "" {
      assert a + b == b;
    } else if IsSpace(a[0]) {
      TrimLeftAcross(a[1..], b);
      assert (a + b)[1..] == a[1..] + b;
    }
  }

  /** A clean tail after an underscore comes through the sanitiser unchanged. */
  lemma SanitizedBehindUnderscore(stem: string, tail: string)
    requires Clean(tail)
    ensures SanitizeComponent(stem + "_" + tail, 0) == CleanedStem(stem) + "_" + tail
  {
    hide IsSpace, IsUnsafe, TrimLeft, TrimRight, CollapseDots;
    var front := CollapseDots(ReplaceUnsafe(stem));
    var t := CleanedStem(stem) + "_" + tail;
    ReplacedBehindUnderscore(stem, tail);
    CollapseAcross(ReplaceUnsafe(stem), tail);
    UnderscoreIsSafe();
    TrimLeftAcross(front, "_" + tail);
    assert TrimLeft(front) + ("_" + tail) == t;
    EndsUntrimmed(t);
    assert Cleaned(stem + "_" + tail) == t;
  }

  lemma ReplacedBehindUnderscore(stem: string, tail: string)
    requires Clean(tail)
    ensures ReplaceUnsafe(stem + "_" + tail) == ReplaceUnsafe(stem) + ("_" + tail)
  {
    hide IsUnsafe;
    UnderscoreIsSafe();
    ReplaceUnchanged(tail);
  }

  lemma EndsUntrimmed(t: string)
    requires t != "" && !IsSpace(t[|t| - 1])
    ensures TrimRight(t) == t
  {
  }

  lemma UnderscoreIsSafe()
    ensures !IsUnsafe('_') && !IsSpace('_')
  {
  }

  /** The directory components of the path, sanitised. */
  function DirParts(original: string): seq<string> {
    var dir := DirOf(original);
    if dir == "" || dir == "." then [] else SanitizedParts(Split(dir, '/'))
  }

  function StemOrDefault(original: string): string {
    var stem := Stem(BaseOf(original));
    if stem == "" then "encoded" else stem
  }

  lemma SanitizedFile(dir: string, file: string)
    requires '/' !in file
    ensures Split(SanitizedPath(if dir == "" || dir == "." then file else dir + "/" + file), '/')
         == (if dir == "" || dir == "." then [] else SanitizedParts(Split(dir, '/'))) + [SanitizeComponent(file, 0)]
  {
    hide SanitizeComponent, SanitizedPath, Split;
    SplitWhole(file, '/');
    if dir == "" || dir == "." {
      PathComponents(file);
    } else {
      PathComponents(dir + "/" + file);
      SplitAppend(dir, '/', file);
      assert SanitizedParts(Split(dir, '/') + [file]) == SanitizedParts(Split(dir, '/')) + [SanitizeComponent(file, 0)];
    }
  }

  /** The path: the original's directory, sanitised, then the sanitised stem and the tail. */
  lemma PathShape(original: string, name: string, container: string, generation: int, cut: bool)
    requires original != "" && Accepted(name) && IsContainer(container)
    ensures EncodedRelPath(original, name, container, generation, cut).Success?
    ensures Split(EncodedRelPath(original, name, container, generation, cut).value, '/')
         == DirParts(original) + [CleanedStem(StemOrDefault(original)) + "_" + Tail(name, generation, cut, container)]
  {
    hide SanitizeComponent, Tail, Clean, CleanedStem, SanitizedPath, Split, ValidateEncodeProfileName, Stem, BaseOf,
      DirOf, SanitizedParts;
    var tail := Tail(name, generation, cut, container);
    var stem := StemOrDefault(original);
    TailIsClean(name, generation, cut, container);
    SanitizedBehindUnderscore(stem, tail);
    BaseHasNoSlash(original);
    FileHasNoSlash(stem, tail);
    SanitizedFile(DirOf(original), stem + "_" + tail);
  }

  /** Components that name no directory: none at all, or one that is empty or a point. */
  predicate NoDirectory(front: seq<string>) {
    front == [] || front == [""] || front == ["."]
  }

  /** Everything up to the last separator, and what follows it. */
  lemma SplitAtLast(p: string)
    ensures var parts := Split(p, '/'); var front := parts[..|parts| - 1];
      && BaseOf(p) == parts[|parts| - 1]
      && (DirOf(p) == "" || DirOf(p) == "." <==> NoDirectory(front))
      && (!NoDirectory(front) ==> Split(DirOf(p), '/') == front)
  {
    hide LastIndex, Split;
    BaseHasNoSlash(p);
    if LastIndex(p, "/") < 0 {
      SplitWhole(p, '/');
    } else {
      assert p == DirOf(p) + ['/'] + BaseOf(p);
      SplitAppend(DirOf(p), '/', BaseOf(p));
      SplitShort(DirOf(p));
    }
  }

  /** The two paths that name no directory. */
  lemma SplitShort(p: string)
    ensures NoDirectory(Split(p, '/')) <==> p == "" || p == "."
  {
    hide Split;
    SplitWhole("", '/');
    SplitWhole(".", '/');
    JoinSplit(p, '/');
  }

  /** The stem of a base name ends at its last point. */
  lemma StemEndsAtLastPoint(base: string)
    ensures '.' !in base ==> Stem(base) == base
    ensures forall a, b | '.' !in b && base == a + "." + b :: Stem(base) == a
  {
    hide LastIndex;
    if '.' !in base {
      LastIndexNone(base, ".");
    }
    forall a, b | '.' !in b && base == a + "." + b
      ensures Stem(base) == a
    {
      LastIndexBefore(a, ".", b);
    }
  }

  /** `stem` is `base` up to its last point, if it has one; if nothing is left, "encoded". */
  ghost predicate IsStem(base: string, stem: string) {
    && ('.' !in base ==> stem == if base == "" then "encoded" else base)
    && forall a, b | '.' !in b && base == a + "." + b :: stem == if a == "" then "encoded" else a
  }

  lemma StemOfOriginal(original: string)
    ensures IsStem(BaseOf(original), StemOrDefault(original))
  {
    hide BaseOf, Stem;
    StemEndsAtLastPoint(BaseOf(original));
  }

  /** The part of the file name behind the stem, spelled out. */
  lemma TailIs(name: string, container: string, generation: int, cut: bool)
    ensures Tail(name, generation, cut, container) ==
      name + (if generation <= 0 then "" else (if cut then ".g" else ".u") + Decimal(generation)) + "." + container
  {
    hide Decimal;
  }

  /**
   * The path lies in the directory of the original, made safe, and its file is named after the
   * stem of the original, the profile, the version and the container.
   */
  lemma PathInDirectory(original: string, name: string, container: string, generation: int, cut: bool)
    requires original != "" && Accepted(name) && IsContainer(container)
    ensures
      var parts := Split(original, '/');
      var front, base := parts[..|parts| - 1], parts[|parts| - 1];
      var version := if generation <= 0 then "" else (if cut then ".g" else ".u") + Decimal(generation);
      exists stem ::
        && IsStem(base, stem)
        && Split(EncodedRelPath(original, name, container, generation, cut).value, '/') ==
             (if NoDirectory(front) then [] else SanitizedParts(front))
             + [CleanedStem(stem) + "_" + (name + version + "." + container)]
  {
    hide CleanedStem, Split, DirOf, BaseOf, SanitizedParts, StemOrDefault, Decimal, Accepted, EncodedRelPath, Tail,
      IsStem;
    PathShape(original, name, container, generation, cut);
    SplitAtLast(original);
    StemOfOriginal(original);
    TailIs(name, container, generation, cut);
  }

  /** Splitting off a last part that has no separator. */
  lemma {:induction false} SplitAppend(a: string, sep: char, last: string)
    requires sep !in last
    ensures Split(a + [sep] + last, sep) == Split(a, sep) + [last]
  {
    hide Split;
    SplitWhole(last, sep);
    SplitWhole("", sep);
    var all := a + [sep] + last;
    SplitFront(all, sep);
    if a == "" {
      assert all[1..] == last;
    } else {
      SplitFront(a, sep);
      SplitAppend(a[1..], sep, last);
      assert all[1..] == a[1..] + [sep] + last;
    }
  }

  lemma SplitFront(s: string, sep: char)
    requires s != ""
    ensures
      var rest := Split(s[1..], sep);
      Split(s, sep) == if s[0] == sep then [[]] + rest else [[s[0]] + rest[0]] + rest[1..]
  {
  }

  lemma BaseHasNoSlash(p: string)
    ensures '/' !in BaseOf(p) && '/' !in Stem(BaseOf(p))
  {
    LastIndexIsLast(p, '/');
  }

  lemma LastIndexIsLast(s: string, c: char)
    ensures c !in s[LastIndex(s, [c]) + 1..]
  {
    hide LastIndex;
    var i := LastIndex(s, [c]);
    forall j | i < j < |s|
      ensures s[j] != c
    {
      NoneAfterLast(s, c, j);
    }
  }

  lemma {:induction false} NoneAfterLast(s: string, c: char, j: nat)
    requires LastIndex(s, [c]) < j < |s|
    ensures s[j] != c
    decreases |s|
  {
    hide LastIndex;
    var last := s[|s| - 1];
    assert s[|s| - 1..] == [last];
    if last == c {
      LastIndexHere(s, [c]);
    } else if j < |s| - 1 {
      LastIndexEarlier(s, [c]);
      NoneAfterLast(s[..|s| - 1], c, j);
    }
  }

  lemma FileHasNoSlash(stem: string, tail: string)
    requires Clean(tail) && '/' !in stem
    ensures '/' !in stem + "_" + tail
  {
    SlashIsUnsafe(tail);
  }

  /**
   * From one original, two encoded versions have the same path exactly when they have the same
   * profile name, container and version.
   */
  lemma PathsDiffer(
    original: string,
    n1: string, k1: string, g1: int, c1: bool, n2: string, k2: string, g2: int, c2: bool)
    requires original != "" && Accepted(n1) && Accepted(n2) && IsContainer(k1) && IsContainer(k2)
    requires GenerationInRange(g1) && GenerationInRange(g2)
    ensures EncodedRelPath(original, n1, k1, g1, c1) == EncodedRelPath(original, n2, k2, g2, c2)
       <==> n1 == n2 && k1 == k2 && SameVersion(g1, c1, g2, c2)
  {
    hide Accepted, Tail, CleanedStem, DirParts, StemOrDefault, EncodedRelPath, Split;
    PathShape(original, n1, k1, g1, c1);
    PathShape(original, n2, k2, g2, c2);
    var dir, front := DirParts(original), CleanedStem(StemOrDefault(original));
    TailInjective(n1, g1, c1, k1, n2, g2, c2, k2);
    if EncodedRelPath(original, n1, k1, g1, c1) == EncodedRelPath(original, n2, k2, g2, c2) {
      var a, b := front + "_" + Tail(n1, g1, c1, k1), front + "_" + Tail(n2, g2, c2, k2);
      assert (dir + [a])[|dir|] == a && (dir + [b])[|dir|] == b;
      assert a[|front| + 1..] == Tail(n1, g1, c1, k1) && b[|front| + 1..] == Tail(n2, g2, c2, k2);
    } else if n1 == n2 && k1 == k2 && SameVersion(g1, c1, g2, c2) {
      SameSuffixSamePath(original, n1, k1, g1, c1, g2, c2);
    }
  }

  lemma SameSuffixSamePath(original: string, name: string, container: string, g1: int, c1: bool, g2: int, c2: bool)
    requires SameVersion(g1, c1, g2, c2)
    ensures EncodedRelPath(original, name, container, g1, c1) == EncodedRelPath(original, name, container, g2, c2)
  {
    hide SanitizedPath, ValidateEncodeProfileName;
    assert Suffix(g1, c1) == Suffix(g2, c2);
  }

  // ----- reading the path -----

  lemma {:induction false} BaseOfJoined(p: string, front: seq<string>, last: string)
    requires Split(p, '/') == front + [last]
    ensures BaseOf(p) == last
  {
    JoinSplit(p, '/');
    SplitParts(p, '/');
    assert last in front + [last];
    if front == [] {
      LastIndexNone(p, "/");
    } else {
      var q := JoinLast(front, last);
      LastIndexBefore(q, "/", last);
      assert (q + "/" + last)[|q| + 1..] == last;
    }
  }

  lemma {:induction false} JoinLast(front: seq<string>, last: string) returns (q: string)
    requires front != []
    ensures Join(front + [last], '/') == q + "/" + last
  {
    var parts := front + [last];
    assert parts[1..] == front[1..] + [last];
    if |front| == 1 {
      q := front[0];
    } else {
      var r := JoinLast(front[1..], last);
      q := front[0] + "/" + r;
    }
  }

  lemma StemOfTail(front: string, container: string)
    requires IsContainer(container)
    ensures Stem(front + "." + container) == front
  {
    LastIndexBefore(front, ".", container);
  }

  /** Which generation a path shows for a profile: that of a cut whose name ends in the profile's. */
  lemma GenerationShown(
    original: string, name: string, container: string, generation: int, cut: bool, profile: string)
    requires original != "" && Accepted(name) && IsContainer(container) && GenerationInRange(generation)
    ensures
      var path := EncodedRelPath(original, name, container, generation, cut).value;
      CutGeneration(path, profile) ==
        if cut && generation > 0 && EndsWith(CleanedStem(StemOrDefault(original)) + "_" + name, "_" + profile)
        then Some(generation) else None
  {
    hide Accepted, CleanedStem, DirParts, StemOrDefault, Stem, BaseOf, SplitGeneration, Decimal, EncodedRelPath, Split;
    PathShape(original, name, container, generation, cut);
    var dir, front := DirParts(original), CleanedStem(StemOrDefault(original));
    var path := EncodedRelPath(original, name, container, generation, cut).value;
    var named := front + "_" + name;
    var full := named + Suffix(generation, cut);
    assert front + "_" + Tail(name, generation, cut, container) == full + "." + container;
    BaseOfJoined(path, dir, full + "." + container);
    StemOfTail(full, container);
    AcceptedIsClean(name);
    if generation <= 0 {
      assert full == named;
      NoSplitAcross(front, name, CUT_MARK);
    } else if cut {
      assert full == named + (CUT_MARK + Decimal(generation)) == named + CUT_MARK + Decimal(generation);
      SuffixReadBack(named, CUT_MARK, generation);
    } else {
      assert full == named + (UNCUT_MARK + Decimal(generation)) == named + UNCUT_MARK + Decimal(generation);
      UncutIsNoCut(named, generation);
    }
  }

  /** The cut generation is read back from the path; other versions of the profile show none. */
  lemma GenerationReadBack(original: string, name: string, container: string, generation: int, cut: bool)
    requires original != "" && Accepted(name) && IsContainer(container) && GenerationInRange(generation)
    ensures
      var path := EncodedRelPath(original, name, container, generation, cut).value;
      CutGeneration(path, name) == if cut && generation > 0 then Some(generation) else None
  {
    hide Accepted, CleanedStem, StemOrDefault, CutGeneration, EncodedRelPath, EndsWith, IsContainer;
    GenerationShown(original, name, container, generation, cut, name);
    EndsInLast(CleanedStem(StemOrDefault(original)), name);
  }

  lemma EndsInLast(front: string, name: string)
    ensures EndsWith(front + "_" + name, "_" + name)
  {
    assert (front + "_" + name)[|front|..] == "_" + name;
  }

  lemma UncutIsNoCut(head: string, n: nat)
    requires 1 <= n <= MAX_INT64
    ensures SplitCutGeneration(head + UNCUT_MARK + Decimal(n)).None?
  {
    hide SplitGeneration, Decimal;
    var s := head + UNCUT_MARK + Decimal(n);
    if SplitCutGeneration(s).Some? {
      SplitIsExact(s, CUT_MARK);
      var p := SplitCutGeneration(s).value;
      DecimalValue(n);
      DecimalValue(p.n);
      SuffixUnique(head, UNCUT_MARK, Decimal(n), p.head, CUT_MARK, Decimal(p.n));
    }
  }
}
