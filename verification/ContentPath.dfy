/** Making free text safe as a path component, and a whole path component by component. */
module ContentPath {
  import opened Text

  /** Path separators, shell and Windows specials, and control characters. */
  predicate IsUnsafe(c: char) {
    c in "/\\:*?\"<>|" || (c as int) <= 0x1F || (c as int) == 0x7F
  }

  function ReplaceUnsafe(s: string): (r: string)
    ensures |r| == |s|
  {
    seq(|s|, i requires 0 <= i < |s| => if IsUnsafe(s[i]) then '_' else s[i])
  }

  /** Every pair of dots, from the left, becomes one underscore. */
  function CollapseDots(s: string): string {
    if |s| < 2 then s
    else if s[0] == '.' && s[1] == '.' then "_" + CollapseDots(s[2..])
    else [s[0]] + CollapseDots(s[1..])
  }

  /** The text before it is cut to length. */
  function Cleaned(s: string): string {
    TrimSpace(CollapseDots(ReplaceUnsafe(s)))
  }

  function SanitizeComponent(s: string, maxLen: int): string {
    var t := Cleaned(s);
    var cut := if maxLen > 0 && |t| > maxLen then t[..maxLen] else t;
    if cut == "" || cut == "." then "_" else cut
  }

  method SanitizeContentPath(p: string) returns (result: string)
    ensures result == SanitizedPath(p)
  {
    var split := Split(p, '/');
    var parts := new string[|split|](i requires 0 <= i < |split| => split[i]);
    for i := 0 to parts.Length
      invariant forall k | 0 <= k < i :: parts[k] == SanitizeComponent(split[k], 0)
      invariant forall k | i <= k < parts.Length :: parts[k] == split[k]
    {
      parts[i] := SanitizeComponent(parts[i], 0);
    }
    assert parts[..] == SanitizedParts(split);
    result := Join(parts[..], '/');
    if StartsWith(result, "/") {
      result := result[1..];
    }
  }

  function SanitizedParts(parts: seq<string>): (r: seq<string>)
    ensures |r| == |parts|
  {
    seq(|parts|, i requires 0 <= i < |parts| => SanitizeComponent(parts[i], 0))
  }

  function SanitizedPath(p: string): string {
    var joined := Join(SanitizedParts(Split(p, '/')), '/');
    if StartsWith(joined, "/") then joined[1..] else joined
  }

  // ----- clean components -----

  ghost predicate NoUnsafe(s: string) {
    forall c <- s :: !IsUnsafe(c)
  }

  ghost predicate NoDoubleDots(s: string) {
    forall i | 0 <= i < |s| - 1 :: !(s[i] == '.' && s[i + 1] == '.')
  }

  /** A component that can be a file name as it stands and never leaves its directory. */
  ghost predicate Clean(s: string) {
    s != "" && s != "." && NoUnsafe(s) && NoDoubleDots(s) && Trimmed(s)
  }

  lemma {:induction false} CollapseFirst(s: string)
    ensures |CollapseDots(s)| <= |s|
    ensures s != "" ==> CollapseDots(s) != ""
    ensures s != "" && CollapseDots(s)[0] == '.' ==> s[0] == '.'
  {
    if |s| >= 2 {
      CollapseFirst(s[1..]);
      CollapseFirst(s[2..]);
    }
  }

  lemma {:induction false} CollapseRemovesDots(s: string)
    requires NoUnsafe(s)
    ensures NoUnsafe(CollapseDots(s)) && NoDoubleDots(CollapseDots(s))
  {
    if |s| >= 2 {
      if s[0] == '.' && s[1] == '.' {
        CollapseRemovesDots(s[2..]);
      } else {
        CollapseRemovesDots(s[1..]);
        CollapseFirst(s[1..]);
      }
    }
  }

  lemma {:induction false} CollapseUnchanged(s: string)
    requires NoDoubleDots(s)
    ensures CollapseDots(s) == s
  {
    if |s| >= 2 {
      CollapseUnchanged(s[1..]);
      assert s == [s[0]] + s[1..];
    }
  }

  lemma ReplaceRemovesUnsafe(s: string)
    ensures NoUnsafe(ReplaceUnsafe(s))
  {
  }

  lemma ReplaceUnchanged(s: string)
    requires NoUnsafe(s)
    ensures ReplaceUnsafe(s) == s
  {
    assert forall i | 0 <= i < |s| :: s[i] in s;
  }

  lemma PartKeeps(s: string, i: nat, j: nat)
    requires i <= j <= |s| && NoUnsafe(s) && NoDoubleDots(s)
    ensures NoUnsafe(s[i..j]) && NoDoubleDots(s[i..j])
  {
  }

  lemma CleanedIsSafe(s: string)
    ensures NoUnsafe(Cleaned(s)) && NoDoubleDots(Cleaned(s)) && Trimmed(Cleaned(s))
  {
    ReplaceRemovesUnsafe(s);
    var t := CollapseDots(ReplaceUnsafe(s));
    CollapseRemovesDots(ReplaceUnsafe(s));
    TrimSpaceTrims(t);
    var i :| IsPart(t, i, TrimSpace(t));
    PartKeeps(t, i, i + |TrimSpace(t)|);
  }

  lemma CleanedUnchanged(s: string)
    requires NoUnsafe(s) && NoDoubleDots(s) && Trimmed(s)
    ensures Cleaned(s) == s
  {
    ReplaceUnchanged(s);
    CollapseUnchanged(s);
    TrimmedUnchanged(s);
  }

  /** A component is left alone exactly when it is clean, and what comes out is clean. */
  lemma ComponentCleaned(s: string)
    ensures Clean(SanitizeComponent(s, 0))
    ensures SanitizeComponent(s, 0) == s <==> Clean(s)
  {
    hide Cleaned, IsUnsafe, Trimmed;
    CleanedIsSafe(s);
    UnderscoreIsClean();
    if Clean(s) {
      CleanedUnchanged(s);
    }
  }

  lemma DotIsNotSpace()
    ensures !IsSpace('.') && !IsSpace('_')
  {
  }

  lemma UnderscoreIsClean()
    ensures Clean("_")
  {
  }

  /**
   * A component without double dots or white space around it is changed character by character:
   * each unsafe one becomes an underscore.
   */
  lemma SanitizedCharacters(s: string)
    requires s != "" && s != "." && NoDoubleDots(s) && Trimmed(s)
    ensures var r := SanitizeComponent(s, 0);
      && |r| == |s|
      && forall i | 0 <= i < |s| ::
           r[i] == if s[i] in "/\\:*?\"<>|" || s[i] as int <= 0x1F || s[i] as int == 0x7F then '_' else s[i]
  {
    hide IsSpace;
    var t := ReplaceUnsafe(s);
    DotIsNotSpace();
    assert NoDoubleDots(t) && Trimmed(t);
    CollapseUnchanged(t);
    TrimmedUnchanged(t);
  }

  // ----- length limits -----

  /** The length limit cuts after trimming, so white space can be left at the end. */
  predicate CutAtSpace(s: string, maxLen: int) {
    var t := Cleaned(s);
    0 < maxLen < |t| && IsSpace(t[maxLen - 1])
  }

  lemma LimitedComponent(s: string, maxLen: int)
    requires maxLen > 0
    ensures |SanitizeComponent(s, maxLen)| <= maxLen
    ensures NoUnsafe(SanitizeComponent(s, maxLen)) && NoDoubleDots(SanitizeComponent(s, maxLen))
    ensures SanitizeComponent(s, maxLen) != "" && SanitizeComponent(s, maxLen) != "."
    ensures Trimmed(SanitizeComponent(s, maxLen)) <==> !CutAtSpace(s, maxLen)
  {
    hide IsUnsafe;
    CleanedIsSafe(s);
    UnderscoreIsClean();
    var t := Cleaned(s);
    if |t| > maxLen {
      PartKeeps(t, 0, maxLen);
      DotIsNotSpace();
    }
  }

  /** A limit keeps the beginning of what there is without it. */
  lemma LimitedIsPrefix(s: string, maxLen: int)
    requires maxLen > 0
    ensures var whole, limited := SanitizeComponent(s, 0), SanitizeComponent(s, maxLen);
      if |whole| <= maxLen then limited == whole
      else if whole[..maxLen] == "." then limited == "_"
      else limited == whole[..maxLen]
  {
    hide Cleaned;
  }

  /** With a limit, sanitising again changes nothing exactly when the cut did not fall after white space. */
  lemma LimitedIdempotence(s: string, maxLen: int)
    requires maxLen > 0
    ensures
      var once := SanitizeComponent(s, maxLen);
      SanitizeComponent(once, maxLen) == once <==> !CutAtSpace(s, maxLen)
  {
    hide IsUnsafe, CutAtSpace;
    var once := SanitizeComponent(s, maxLen);
    LimitedComponent(s, maxLen);
    if Trimmed(once) {
      CleanedUnchanged(once);
    } else {
      CleanedIsSafe(once);
      TrailingSpaceIsLost(once, maxLen);
    }
  }

  lemma TrailingSpaceIsLost(once: string, maxLen: int)
    requires NoUnsafe(once) && NoDoubleDots(once) && !Trimmed(once)
    requires |once| <= maxLen
    ensures SanitizeComponent(once, maxLen) != once
  {
    ReplaceUnchanged(once);
    CollapseUnchanged(once);
    TrimSpaceTrims(once);
    if once == "_" {
      DotIsNotSpace();
    }
  }

  /** The limit on titles. */
  const TITLE_LIMIT := 80

  /** Seventy-nine letters, a blank and one more letter. */
  const LONG_TITLE := seq(79, _ => 'a') + " b"

  /** A title can end in white space when it has been made safe, and a second pass changes it. */
  lemma LimitedExample()
    ensures
      var once := SanitizeComponent(LONG_TITLE, TITLE_LIMIT);
      once == LONG_TITLE[..80] && SanitizeComponent(once, TITLE_LIMIT) != once
  {
    var t := LONG_TITLE;
    assert t[79] == ' ' && t[80] == 'b' && forall i | 0 <= i < 79 :: t[i] == 'a';
    CleanedUnchanged(t);
    LimitedIdempotence(t, TITLE_LIMIT);
  }

  // ----- whole paths -----

  /** The components of a sanitised path are the sanitised components. */
  lemma PathComponents(p: string)
    ensures SanitizedPath(p) == Join(SanitizedParts(Split(p, '/')), '/')
    ensures Split(SanitizedPath(p), '/') == SanitizedParts(Split(p, '/'))
  {
    hide SanitizeComponent, IsUnsafe, Split, NoDoubleDots, Trimmed;
    var parts := SanitizedParts(Split(p, '/'));
    forall i | 0 <= i < |parts|
      ensures parts[i] != "" && '/' !in parts[i]
    {
      ComponentCleaned(Split(p, '/')[i]);
      SlashIsUnsafe(parts[i]);
    }
    SplitJoin(parts, '/');
    assert Join(parts, '/')[0] == parts[0][0];
  }

  lemma SlashIsUnsafe(s: string)
    requires NoUnsafe(s)
    ensures '/' !in s
  {
    assert IsUnsafe('/');
  }

  /** As many components as before, each of them clean; the path is never absolute. */
  lemma PathIsSafe(p: string)
    ensures
      var parts := Split(SanitizedPath(p), '/');
      && |parts| == |Split(p, '/')|
      && forall c <- parts :: Clean(c)
    ensures !StartsWith(SanitizedPath(p), "/")
  {
    hide SanitizeComponent, Clean;
    PathComponents(p);
    var parts := Split(SanitizedPath(p), '/');
    forall c <- parts
      ensures Clean(c)
    {
      var i :| 0 <= i < |parts| && parts[i] == c;
      ComponentCleaned(Split(p, '/')[i]);
    }
    FirstIsNotSlash(p);
  }

  lemma FirstIsNotSlash(p: string)
    ensures !StartsWith(SanitizedPath(p), "/")
  {
    hide SanitizeComponent, IsUnsafe;
    PathComponents(p);
    var parts := SanitizedParts(Split(p, '/'));
    ComponentCleaned(Split(p, '/')[0]);
    SlashIsUnsafe(parts[0]);
    assert Join(parts, '/')[0] == parts[0][0];
  }

  lemma CleanPartsUnchanged(parts: seq<string>)
    requires forall c <- parts :: Clean(c)
    ensures SanitizedParts(parts) == parts
  {
    hide SanitizeComponent, Clean;
    forall i | 0 <= i < |parts|
      ensures SanitizedParts(parts)[i] == parts[i]
    {
      ComponentCleaned(parts[i]);
    }
  }

  /** A path is left alone exactly when all its components are clean. */
  lemma PathUnchangedIff(p: string)
    ensures SanitizedPath(p) == p <==> forall c <- Split(p, '/') :: Clean(c)
  {
    hide SanitizeComponent, Clean;
    PathComponents(p);
    PathIsSafe(p);
    JoinSplit(p, '/');
    if forall c <- Split(p, '/') :: Clean(c) {
      CleanPartsUnchanged(Split(p, '/'));
    }
  }

  lemma PathIdempotent(p: string)
    ensures SanitizedPath(SanitizedPath(p)) == SanitizedPath(p)
  {
    hide SanitizedPath, Clean;
    PathIsSafe(p);
    PathUnchangedIff(SanitizedPath(p));
  }
}
