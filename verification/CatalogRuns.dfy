/**
 * Runs of exports on one catalog. The names of a second are used in order, plain one first, until
 * pruning has freed the plain one; from then on every further export of that second takes it
 * again and is pruned at once. This happens exactly from the export on that has more than `keep`
 * earlier ones in its second.
 */
module CatalogRuns {
  import opened Common
  import opened Text
  import opened Manifest
  import opened GenerationNames
  import opened CatalogStore
  import opened CatalogTheorems

  datatype Export = Export(job: Job, now: int)

  /** The names of one second, by index. */
  function NameAt(t: Utc, i: nat): string {
    Candidate(GenerationName(t), i)
  }

  function NextIndex(entries: Entries, t: Utc): nat {
    FirstFreeIndex(entries, GenerationName(t))
  }

  /** The catalog after one more readable export; without a free name it stays as it is. */
  function Exported(codec: Codec, entries: Entries, e: Export, keep: int): Entries {
    var i := NextIndex(entries, e.job.exportedAt);
    if i > 99 then entries
    else PruneOf(codec, WithGeneration(codec, entries, NameAt(e.job.exportedAt, i), e.job, e.now), keep, e.now)
  }

  /** The catalog after a run that started without one. */
  function StoreAfter(codec: Codec, exports: seq<Export>, keep: int): Entries {
    if exports == [] then map[]
    else Exported(codec, StoreAfter(codec, exports[..|exports| - 1], keep), exports[|exports| - 1], keep)
  }

  /** The name that export `k` of the run reserves, if one is free. */
  function NameOf(codec: Codec, exports: seq<Export>, keep: int, k: nat): Option<string>
    requires k < |exports|
  {
    var i := NextIndex(StoreAfter(codec, exports[..k], keep), exports[k].job.exportedAt);
    if i > 99 then None else Some(NameAt(exports[k].job.exportedAt, i))
  }

  /** Readable exports, none earlier than the one before it. */
  ghost predicate Orderly(exports: seq<Export>) {
    && (forall e <- exports :: Readable(e.job) && FourDigitYear(e.job.exportedAt))
    && (forall i, j | 0 <= i < j < |exports| :: !Earlier(exports[j].job.exportedAt, exports[i].job.exportedAt))
  }

  /** How many exports of the run fell in the second `t`. */
  function CountAt(exports: seq<Export>, t: Utc): nat {
    if exports == [] then 0
    else CountAt(exports[..|exports| - 1], t) + if exports[|exports| - 1].job.exportedAt == t then 1 else 0
  }

  // ----- which names of a second are there -----

  /** The names of a second run over once `keep` + 1 of them are used and all 99 are not yet. */
  predicate RunsOver(keep: nat, count: nat) {
    count > keep && keep <= 98
  }

  /** The greatest index in use after `count` exports of a second. */
  function High(keep: nat, count: nat): nat {
    if count <= keep || keep >= 99 then Min(count, 99) else keep + 1
  }

  /** The indices up to this one have been pruned. */
  function Low(keep: nat, count: nat): nat {
    if RunsOver(keep, count) then 1 else 0
  }

  ghost predicate NotBefore(exports: seq<Export>, t: Utc) {
    forall e <- exports :: !Earlier(t, e.job.exportedAt)
  }

  /** Exactly these indices of the second are there. */
  ghost predicate Holding(entries: Entries, t: Utc, low: nat, high: nat) {
    forall i | 1 <= i <= 99 :: NameAt(t, i) in entries <==> low < i <= high
  }

  ghost predicate OfRun(exports: seq<Export>, n: string) {
    exists k, i: nat :: 0 <= k < |exports| && 1 <= i <= 99 && n == NameAt(exports[k].job.exportedAt, i)
  }

  ghost predicate OfSecond(t: Utc, n: string) {
    exists i: nat :: 1 <= i <= 99 && n == NameAt(t, i)
  }

  /** What a run leaves behind. */
  ghost predicate RunInv(codec: Codec, exports: seq<Export>, keep: nat, entries: Entries) {
    && (forall n <- entries :: IsComplete(codec, entries, n) && OfRun(exports, n))
    && (forall t | FourDigitYear(t) && NotBefore(exports, t) ::
          && Holding(entries, t, Low(keep, CountAt(exports, t)), High(keep, CountAt(exports, t)))
          && (RunsOver(keep, CountAt(exports, t)) ==> forall n <- entries :: OfSecond(t, n)))
  }

  // ----- names -----

  lemma NamesDiffer(a: Utc, i: nat, b: Utc, j: nat)
    requires FourDigitYear(a) && FourDigitYear(b) && 1 <= i <= 99 && 1 <= j <= 99
    ensures NameAt(a, i) == NameAt(b, j) <==> a == b && i == j
  {
    hide GenerationName, Candidate, FourDigitYear;
    NameOrder(a, i, b, j);
    NameOrder(b, j, a, i);
    LessIrreflexive(NameAt(a, i));
    TimesAreOrdered(a, b);
  }

  lemma TimesAreOrdered(a: Utc, b: Utc)
    ensures Earlier(a, b) || a == b || Earlier(b, a)
  {
  }

  /** The names of one second between two indices. */
  function Span(t: Utc, a: nat, b: nat): set<string>
    decreases b
  {
    if b <= a then {} else Span(t, a, b - 1) + {NameAt(t, b)}
  }

  lemma {:induction false} SpanMembers(t: Utc, a: nat, b: nat, n: string)
    ensures n in Span(t, a, b) <==> exists i: nat :: a < i <= b && n == NameAt(t, i)
    decreases b
  {
    hide NameAt;
    if a < b {
      SpanMembers(t, a, b - 1, n);
      if i: nat :| a < i <= b && n == NameAt(t, i) {
        assert i == b || a < i <= b - 1;
      }
    }
  }

  lemma {:induction false} SpanSize(t: Utc, a: nat, b: nat)
    requires FourDigitYear(t) && a <= b <= 99
    ensures |Span(t, a, b)| == b - a
    decreases b
  {
    hide NameAt, FourDigitYear;
    if a < b {
      SpanSize(t, a, b - 1);
      SpanMembers(t, a, b - 1, NameAt(t, b));
      if i: nat :| a < i <= b - 1 && NameAt(t, b) == NameAt(t, i) {
        NamesDiffer(t, b, t, i);
      }
    }
  }

  // ----- one more export -----

  lemma NextIndexIs(entries: Entries, t: Utc, keep: nat, count: nat)
    requires keep >= 1 && Holding(entries, t, Low(keep, count), High(keep, count))
    ensures NextIndex(entries, t) == if RunsOver(keep, count) then 1 else High(keep, count) + 1
  {
    hide Candidate, GenerationName;
    var i := if RunsOver(keep, count) then 1 else High(keep, count) + 1;
    assert i <= 99 ==> NameAt(t, i) !in entries;
    forall j | 1 <= j < i
      ensures Candidate(GenerationName(t), j) in entries
    {
      assert NameAt(t, j) in entries;
    }
    FirstFreeIs(entries, GenerationName(t), i);
  }

  /** With the new name the indices are there from 1 on. */
  lemma HoldingOneMore(entries: Entries, t: Utc, keep: nat, count: nat, with: Entries)
    requires FourDigitYear(t) && keep >= 1 && Holding(entries, t, Low(keep, count), High(keep, count))
    requires NextIndex(entries, t) <= 99
    requires with.Keys == entries.Keys + {NameAt(t, NextIndex(entries, t))}
    ensures Holding(with, t, 0, High(keep, count + 1))
  {
    hide NameAt, NextIndex, FourDigitYear;
    NextIndexIs(entries, t, keep, count);
    var i := NextIndex(entries, t);
    forall j | 1 <= j <= 99
      ensures NameAt(t, j) in with <==> 0 < j <= High(keep, count + 1)
    {
      NamesDiffer(t, i, t, j);
      assert NameAt(t, j) in with <==> NameAt(t, j) in entries || NameAt(t, j) == NameAt(t, i);
    }
  }

  /** Every name is of the second `t` or of an earlier one. */
  ghost predicate UpTo(names: set<string>, t: Utc) {
    forall n <- names :: OfSecond(t, n) || exists s :: FourDigitYear(s) && Earlier(s, t) && OfSecond(s, n)
  }

  lemma OlderSecondIsLess(s: Utc, t: Utc, n: string, j: nat)
    requires FourDigitYear(s) && FourDigitYear(t) && Earlier(s, t) && OfSecond(s, n) && 1 <= j <= 99
    ensures Less(n, NameAt(t, j)) && !Less(NameAt(t, j), n)
  {
    hide GenerationName, Candidate, FourDigitYear, Earlier;
    var i: nat :| 1 <= i <= 99 && n == NameAt(s, i);
    NameOrder(s, i, t, j);
    LessTotal(n, NameAt(t, j));
  }

  /** The names after one of the newest second are those with a higher index. */
  lemma NewerInSecond(all: set<string>, t: Utc, top: nat, j: nat)
    requires FourDigitYear(t) && UpTo(all, t) && 1 <= j <= top <= 99
    requires forall i | 1 <= i <= 99 :: NameAt(t, i) in all <==> i <= top
    ensures Newer(all, NameAt(t, j)) == Span(t, j, top)
  {
    hide NameAt, Less, FourDigitYear, Earlier;
    forall n
      ensures n in Newer(all, NameAt(t, j)) <==> n in Span(t, j, top)
    {
      SpanMembers(t, j, top, n);
      if i: nat :| 1 <= i <= 99 && n == NameAt(t, i) {
        IndexOrder(t, j, i);
        if k: nat :| j < k <= top && n == NameAt(t, k) {
          NamesDiffer(t, i, t, k);
        }
      } else if n in all {
        var s :| FourDigitYear(s) && Earlier(s, t) && OfSecond(s, n);
        OlderSecondIsLess(s, t, n, j);
      }
    }
  }

  lemma IndexOrder(t: Utc, i: nat, j: nat)
    requires FourDigitYear(t) && 1 <= i <= 99 && 1 <= j <= 99
    ensures Less(NameAt(t, i), NameAt(t, j)) <==> i < j
  {
    hide GenerationName, Candidate, FourDigitYear;
    CandidateOrder(GenerationName(t), i, j);
  }

  /** The rank of a name of the newest second. */
  lemma RankInSecond(all: set<string>, t: Utc, top: nat, j: nat)
    requires FourDigitYear(t) && UpTo(all, t) && 1 <= j <= top <= 99
    requires forall i | 1 <= i <= 99 :: NameAt(t, i) in all <==> i <= top
    ensures |Newer(all, NameAt(t, j))| == top - j
  {
    hide NameAt, FourDigitYear, UpTo;
    NewerInSecond(all, t, top, j);
    SpanSize(t, j, top);
  }

  /** An older name has at least all names of the newest second after it. */
  lemma RankOfOlder(all: set<string>, t: Utc, top: nat, n: string)
    requires FourDigitYear(t) && UpTo(all, t) && top <= 99 && n in all && !OfSecond(t, n)
    requires forall i | 1 <= i <= 99 :: NameAt(t, i) in all <==> i <= top
    ensures |Newer(all, n)| >= top
  {
    hide NameAt, Less, FourDigitYear, Earlier;
    var s :| FourDigitYear(s) && Earlier(s, t) && OfSecond(s, n);
    forall m <- Span(t, 0, top)
      ensures m in Newer(all, n)
    {
      SpanMembers(t, 0, top, m);
      var i: nat :| 0 < i <= top && m == NameAt(t, i);
      OlderSecondIsLess(s, t, n, i);
    }
    SpanSize(t, 0, top);
    SubsetSize(Span(t, 0, top), Newer(all, n));
  }

  /** Pruning a catalog of complete generations goes by rank alone. */
  lemma PrunedByRank(codec: Codec, with: Entries, keep: int, now: int, n: string)
    requires forall m <- with :: IsComplete(codec, with, m)
    ensures var after := PruneOf(codec, with, keep, now);
      && (n in after <==> n in with && |Newer(with.Keys, n)| < EffectiveKeep(keep))
      && (n in after ==> IsComplete(codec, after, n))
  {
    hide Complete;
    assert CompleteNames(codec, with) == with.Keys;
  }

  lemma HighAtMost99(keep: nat, count: nat)
    ensures High(keep, count) <= 99
    ensures RunsOver(keep, count) ==> High(keep, count) == keep + 1
    ensures !RunsOver(keep, count) && keep >= 1 ==> High(keep, count) <= keep
  {
  }

  /** After pruning, the names of the newest second that are left. */
  lemma HoldingAfterPrune(codec: Codec, with: Entries, t: Utc, keep: int, count: nat, now: int)
    requires FourDigitYear(t) && UpTo(with.Keys, t)
    requires forall m <- with :: IsComplete(codec, with, m)
    requires Holding(with, t, 0, High(EffectiveKeep(keep), count))
    ensures
      var after := PruneOf(codec, with, keep, now);
      && Holding(after, t, Low(EffectiveKeep(keep), count), High(EffectiveKeep(keep), count))
      && (RunsOver(EffectiveKeep(keep), count) ==> forall n <- after :: OfSecond(t, n))
  {
    hide NameAt, FourDigitYear, UpTo, IsComplete, PruneOf, OfSecond, High;
    var kept := EffectiveKeep(keep);
    var top := High(kept, count);
    var after := PruneOf(codec, with, keep, now);
    HighAtMost99(kept, count);
    assert forall i | 1 <= i <= 99 :: NameAt(t, i) in with.Keys <==> i <= top;
    forall i | 1 <= i <= 99
      ensures NameAt(t, i) in after <==> Low(kept, count) < i <= top
    {
      PrunedByRank(codec, with, keep, now, NameAt(t, i));
      if i <= top {
        RankInSecond(with.Keys, t, top, i);
      }
    }
    if RunsOver(kept, count) {
      forall n <- after
        ensures OfSecond(t, n)
      {
        PrunedByRank(codec, with, keep, now, n);
        if !OfSecond(t, n) {
          RankOfOlder(with.Keys, t, top, n);
        }
      }
    }
  }

  lemma {:induction false} CountedOccurs(exports: seq<Export>, t: Utc)
    ensures CountAt(exports, t) > 0 <==> exists k :: 0 <= k < |exports| && exports[k].job.exportedAt == t
  {
    if exports != [] {
      var init := exports[..|exports| - 1];
      CountedOccurs(init, t);
      if k :| 0 <= k < |exports| && exports[k].job.exportedAt == t {
        assert k < |init| ==> init[k] == exports[k];
      }
      if k :| 0 <= k < |init| && init[k].job.exportedAt == t {
        assert exports[k] == init[k];
      }
    }
  }

  lemma OrderlyInit(exports: seq<Export>, e: Export)
    requires Orderly(exports + [e])
    ensures Orderly(exports) && NotBefore(exports, e.job.exportedAt)
    ensures Readable(e.job) && FourDigitYear(e.job.exportedAt)
    ensures forall x <- exports :: FourDigitYear(x.job.exportedAt)
  {
    hide Readable, FourDigitYear, Earlier;
    var all := exports + [e];
    assert e in all && forall x <- exports :: x in all;
    assert forall i | 0 <= i < |exports| :: all[i] == exports[i];
    forall x <- exports
      ensures !Earlier(e.job.exportedAt, x.job.exportedAt)
    {
      var i :| 0 <= i < |exports| && exports[i] == x;
      assert !Earlier(all[|exports|].job.exportedAt, all[i].job.exportedAt);
    }
  }

  /** The names of a run are of seconds up to the last one. */
  lemma RunIsUpTo(exports: seq<Export>, names: set<string>, t: Utc)
    requires forall x <- exports :: FourDigitYear(x.job.exportedAt)
    requires NotBefore(exports, t) && forall n <- names :: OfRun(exports, n) || OfSecond(t, n)
    ensures UpTo(names, t)
  {
    hide NameAt, FourDigitYear, Earlier;
    forall n <- names | !OfSecond(t, n)
      ensures exists s :: FourDigitYear(s) && Earlier(s, t) && OfSecond(s, n)
    {
      var k, i: nat :| 0 <= k < |exports| && 1 <= i <= 99 && n == NameAt(exports[k].job.exportedAt, i);
      var s := exports[k].job.exportedAt;
      assert exports[k] in exports;
      TimesAreOrdered(s, t);
      assert OfSecond(s, n);
    }
  }

  lemma OfRunMore(exports: seq<Export>, e: Export, n: string)
    requires OfRun(exports, n) || OfSecond(e.job.exportedAt, n)
    ensures OfRun(exports + [e], n)
  {
    hide NameAt;
    var all := exports + [e];
    if OfRun(exports, n) {
      var k, i: nat :| 0 <= k < |exports| && 1 <= i <= 99 && n == NameAt(exports[k].job.exportedAt, i);
      assert all[k] == exports[k];
    } else {
      var i: nat :| 1 <= i <= 99 && n == NameAt(e.job.exportedAt, i);
      assert all[|exports|] == e;
    }
  }

  /** Of a second after the run no name is there. */
  lemma NothingAhead(exports: seq<Export>, entries: Entries, t: Utc)
    requires FourDigitYear(t) && (forall x <- exports :: FourDigitYear(x.job.exportedAt))
    requires CountAt(exports, t) == 0 && forall n <- entries :: OfRun(exports, n)
    ensures Holding(entries, t, 0, 0)
  {
    hide NameAt, FourDigitYear;
    CountedOccurs(exports, t);
    forall i | 1 <= i <= 99
      ensures NameAt(t, i) !in entries
    {
      if NameAt(t, i) in entries {
        var k, j: nat :| 0 <= k < |exports| && 1 <= j <= 99 && NameAt(t, i) == NameAt(exports[k].job.exportedAt, j);
        assert exports[k] in exports;
        NamesDiffer(t, i, exports[k].job.exportedAt, j);
      }
    }
  }

  /** The catalog with the new generation, before it is pruned. */
  lemma WithNewName(codec: Codec, exports: seq<Export>, keep: nat, entries: Entries, e: Export)
    requires Lawful(codec) && Orderly(exports + [e]) && keep >= 1 && RunInv(codec, exports, keep, entries)
    requires NextIndex(entries, e.job.exportedAt) <= 99
    ensures
      var t := e.job.exportedAt;
      var with := WithGeneration(codec, entries, NameAt(t, NextIndex(entries, t)), e.job, e.now);
      && FourDigitYear(t) && UpTo(with.Keys, t)
      && (forall n <- with :: IsComplete(codec, with, n) && OfRun(exports + [e], n))
      && Holding(with, t, 0, High(keep, CountAt(exports, t) + 1))
  {
    hide Complete, NameAt, GenerationName, Candidate, Readable, FourDigitYear, Lawful, NextIndex, ManifestFor, OfRun,
      OfSecond, UpTo;
    var t := e.job.exportedAt;
    OrderlyInit(exports, e);
    var name := NameAt(t, NextIndex(entries, t));
    var with := WithGeneration(codec, entries, name, e.job, e.now);
    NextIsNew(entries, t);
    StampOfWritten(codec, entries, name, e.job, e.now);
    HoldingOneMore(entries, t, keep, CountAt(exports, t), with);
    forall n <- with
      ensures IsComplete(codec, with, n) && (OfRun(exports, n) || OfSecond(t, n))
    {
      assert n != name ==> n in entries && with[n] == entries[n] && IsComplete(codec, entries, n);
    }
    forall n <- with
      ensures OfRun(exports + [e], n)
    {
      OfRunMore(exports, e, n);
    }
    RunIsUpTo(exports, with.Keys, t);
  }

  lemma NextIsNew(entries: Entries, t: Utc)
    requires NextIndex(entries, t) <= 99
    ensures NameAt(t, NextIndex(entries, t)) !in entries
    ensures StartsWith(NameAt(t, NextIndex(entries, t)), FILENAME_PREFIX)
    ensures OfSecond(t, NameAt(t, NextIndex(entries, t)))
  {
    CandidateHasPrefix(t, NextIndex(entries, t));
  }

  lemma CountOneMore(exports: seq<Export>, e: Export, t: Utc)
    ensures CountAt(exports + [e], t) == CountAt(exports, t) + if e.job.exportedAt == t then 1 else 0
  {
    assert (exports + [e])[..|exports|] == exports;
  }

  /** A second not before the run is the last one or lies after the whole run. */
  lemma LastOrAfter(exports: seq<Export>, e: Export, t: Utc)
    requires Orderly(exports + [e]) && NotBefore(exports + [e], t)
    ensures NotBefore(exports, t)
    ensures t != e.job.exportedAt ==> CountAt(exports + [e], t) == 0
  {
    hide Readable, FourDigitYear, Earlier;
    var all := exports + [e];
    assert e in all && forall x <- exports :: x in all;
    if t != e.job.exportedAt {
      CountedOccurs(all, t);
      TimesAreOrdered(t, e.job.exportedAt);
      assert all[|exports|] == e;
      assert forall k | 0 <= k < |exports| :: !Earlier(all[|exports|].job.exportedAt, all[k].job.exportedAt);
    }
  }

  lemma NoneYet(keep: nat)
    ensures Low(keep, 0) == 0 && High(keep, 0) == 0 && !RunsOver(keep, 0)
  {
  }

  /** With all 99 names taken an export fails, and one more makes no difference. */
  lemma AllTaken(entries: Entries, t: Utc, keep: nat, count: nat)
    requires keep >= 1 && Holding(entries, t, Low(keep, count), High(keep, count))
    requires NextIndex(entries, t) > 99
    ensures Low(keep, count + 1) == Low(keep, count) && High(keep, count + 1) == High(keep, count)
    ensures !RunsOver(keep, count + 1)
  {
    NextIndexIs(entries, t, keep, count);
  }

  lemma ExportPreserves(codec: Codec, exports: seq<Export>, keep: int, entries: Entries, e: Export)
    requires Lawful(codec) && Orderly(exports + [e]) && RunInv(codec, exports, EffectiveKeep(keep), entries)
    ensures RunInv(codec, exports + [e], EffectiveKeep(keep), Exported(codec, entries, e, keep))
  {
    hide IsComplete, NameAt, FourDigitYear, Lawful, NextIndex, OfRun, OfSecond, UpTo, PruneOf, WithGeneration, Orderly,
      NotBefore, Holding, Low, High, RunsOver, CountAt;
    var kept, t, all := EffectiveKeep(keep), e.job.exportedAt, exports + [e];
    var after := Exported(codec, entries, e, keep);
    OrderlyInit(exports, e);
    forall n <- after
      ensures IsComplete(codec, after, n) && OfRun(all, n)
    {
      if NextIndex(entries, t) > 99 {
        OfRunMore(exports, e, n);
      } else {
        WithNewName(codec, exports, kept, entries, e);
        PrunedByRank(codec, WithGeneration(codec, entries, NameAt(t, NextIndex(entries, t)), e.job, e.now), keep,
          e.now, n);
      }
    }
    assert e in all && forall x <- exports :: x in all;
    forall u | FourDigitYear(u) && NotBefore(all, u)
      ensures Holding(after, u, Low(kept, CountAt(all, u)), High(kept, CountAt(all, u)))
      ensures RunsOver(kept, CountAt(all, u)) ==> forall n <- after :: OfSecond(u, n)
    {
      LastOrAfter(exports, e, u);
      CountOneMore(exports, e, u);
      if u != t {
        NothingAhead(all, after, u);
        NoneYet(kept);
      } else if NextIndex(entries, t) > 99 {
        AllTaken(entries, t, kept, CountAt(exports, t));
      } else {
        WithNewName(codec, exports, kept, entries, e);
        HoldingAfterPrune(codec, WithGeneration(codec, entries, NameAt(t, NextIndex(entries, t)), e.job, e.now),
          t, keep, CountAt(exports, t) + 1, e.now);
      }
    }
  }

  lemma EmptyRun(codec: Codec, keep: nat)
    ensures RunInv(codec, [], keep, map[])
  {
  }

  lemma {:induction false} RunKeepsInv(codec: Codec, exports: seq<Export>, keep: int)
    requires Lawful(codec) && Orderly(exports)
    ensures RunInv(codec, exports, EffectiveKeep(keep), StoreAfter(codec, exports, keep))
  {
    hide RunInv, Exported, Orderly, Lawful;
    if exports == [] {
      EmptyRun(codec, EffectiveKeep(keep));
    } else {
      var init, last := exports[..|exports| - 1], exports[|exports| - 1];
      assert exports == init + [last];
      OrderlyInit(init, last);
      RunKeepsInv(codec, init, keep);
      ExportPreserves(codec, init, keep, StoreAfter(codec, init, keep), last);
    }
  }

  // ----- when a name is used again -----

  lemma OrderlyPrefix(exports: seq<Export>, k: nat)
    requires Orderly(exports) && k <= |exports|
    ensures Orderly(exports[..k])
    ensures k < |exports| ==>
      NotBefore(exports[..k], exports[k].job.exportedAt) && FourDigitYear(exports[k].job.exportedAt)
  {
    hide Readable, FourDigitYear, Earlier;
    var part := exports[..k];
    forall x <- part
      ensures x in exports
      ensures k < |exports| ==> !Earlier(exports[k].job.exportedAt, x.job.exportedAt)
    {
      var i :| 0 <= i < k && part[i] == x;
      assert exports[i] == x;
    }
    assert forall i | 0 <= i < k :: part[i] == exports[i];
  }

  /** The index export `k` gets, by the number of earlier exports in its second. */
  lemma IndexOfExport(codec: Codec, exports: seq<Export>, keep: int, k: nat)
    requires Lawful(codec) && Orderly(exports) && k < |exports|
    ensures
      var t := exports[k].job.exportedAt;
      var kept, count := EffectiveKeep(keep), CountAt(exports[..k], exports[k].job.exportedAt);
      && Holding(StoreAfter(codec, exports[..k], keep), t, Low(kept, count), High(kept, count))
      && NextIndex(StoreAfter(codec, exports[..k], keep), t)
         == if RunsOver(kept, count) then 1 else High(kept, count) + 1
  {
    hide NextIndex, Orderly, Holding, Low, High, Lawful;
    OrderlyPrefix(exports, k);
    RunKeepsInv(codec, exports[..k], keep);
    NextIndexIs(StoreAfter(codec, exports[..k], keep), exports[k].job.exportedAt, EffectiveKeep(keep),
      CountAt(exports[..k], exports[k].job.exportedAt));
  }

  lemma {:induction false} CountGrows(exports: seq<Export>, j: nat, k: nat, t: Utc)
    requires j < k <= |exports| && exports[j].job.exportedAt == t
    ensures CountAt(exports[..j], t) < CountAt(exports[..k], t)
    decreases k
  {
    assert exports[..k][..k - 1] == exports[..k - 1];
    if j < k - 1 {
      CountGrows(exports, j, k - 1, t);
    }
  }

  /** The first export of a second that has others before `k`. */
  lemma {:induction false} FirstOfSecond(exports: seq<Export>, k: nat, t: Utc) returns (j: nat)
    requires k <= |exports| && CountAt(exports[..k], t) > 0
    ensures j < k && exports[j].job.exportedAt == t && CountAt(exports[..j], t) == 0
  {
    assert exports[..k][..k - 1] == exports[..k - 1];
    if CountAt(exports[..k - 1], t) > 0 {
      j := FirstOfSecond(exports, k - 1, t);
    } else {
      j := k - 1;
    }
  }

  /**
   * A run of readable exports in the order of time, from an empty catalog: an export takes a name
   * that the run has used before exactly when more than `keep` exports of its second came before
   * it, fewer than 99 being kept. With 99 or more kept, it fails instead once all names are taken.
   */
  lemma NameIsReusedIff(codec: Codec, exports: seq<Export>, keep: int, k: nat)
    requires Lawful(codec) && Orderly(exports) && k < |exports|
    ensures
      var kept, count := EffectiveKeep(keep), CountAt(exports[..k], exports[k].job.exportedAt);
      var name := NameOf(codec, exports, keep, k);
      && (name.None? <==> kept >= 99 && count >= 99)
      && (name.Some? ==>
            ((exists j | 0 <= j < k :: NameOf(codec, exports, keep, j) == name) <==> RunsOver(kept, count)))
  {
    hide NextIndex, Orderly, Holding, StoreAfter, NameAt, CountAt, Lawful, FourDigitYear;
    var t := exports[k].job.exportedAt;
    var kept, count := EffectiveKeep(keep), CountAt(exports[..k], t);
    var name := NameOf(codec, exports, keep, k);
    OrderlyPrefix(exports, k);
    IndexOfExport(codec, exports, keep, k);
    if name.Some? {
      if RunsOver(kept, count) {
        var j := FirstOfSecond(exports, k, t);
        IndexOfExport(codec, exports, keep, j);
        assert NameOf(codec, exports, keep, j) == name;
      } else {
        forall j | 0 <= j < k
          ensures NameOf(codec, exports, keep, j) != name
        {
          EarlierNameDiffers(codec, exports, keep, j, k);
        }
      }
    }
  }

  lemma EarlierNameDiffers(codec: Codec, exports: seq<Export>, keep: int, j: nat, k: nat)
    requires Lawful(codec) && Orderly(exports) && j < k < |exports|
    requires !RunsOver(EffectiveKeep(keep), CountAt(exports[..k], exports[k].job.exportedAt))
    requires NameOf(codec, exports, keep, k).Some?
    ensures NameOf(codec, exports, keep, j) != NameOf(codec, exports, keep, k)
  {
    hide NextIndex, Orderly, Holding, StoreAfter, NameAt, CountAt, Lawful, FourDigitYear;
    OrderlyPrefix(exports, j);
    OrderlyPrefix(exports, k);
    IndexOfExport(codec, exports, keep, j);
    IndexOfExport(codec, exports, keep, k);
    var s, t := exports[j].job.exportedAt, exports[k].job.exportedAt;
    if NameOf(codec, exports, keep, j).Some? {
      NamesDiffer(s, NextIndex(StoreAfter(codec, exports[..j], keep), s), t,
          NextIndex(StoreAfter(codec, exports[..k], keep), t));
      if s == t {
        CountGrows(exports, j, k, t);
      }
    }
  }

  /** A free name of the second below one that is taken. */
  ghost predicate HasGap(entries: Entries, t: Utc) {
    exists i, j :: 1 <= i < j <= 99 && NameAt(t, i) !in entries && NameAt(t, j) in entries
  }

  lemma GapIff(entries: Entries, t: Utc, keep: nat, count: nat)
    requires keep >= 1 && Holding(entries, t, Low(keep, count), High(keep, count))
    ensures HasGap(entries, t) <==> RunsOver(keep, count)
  {
    hide NameAt;
    if RunsOver(keep, count) {
      assert NameAt(t, 1) !in entries && NameAt(t, 2) in entries;
    }
  }

  lemma NewestOfSecond(all: set<string>, t: Utc, top: nat)
    requires FourDigitYear(t) && UpTo(all, t) && 1 <= top <= 99
    requires forall i | 1 <= i <= 99 && NameAt(t, i) in all :: i <= top
    ensures Newer(all, NameAt(t, top)) == {}
  {
    hide NameAt, Less, FourDigitYear, Earlier;
    forall n <- all
      ensures !Less(NameAt(t, top), n)
    {
      if i: nat :| 1 <= i <= 99 && n == NameAt(t, i) {
        IndexOrder(t, top, i);
      } else {
        var s :| FourDigitYear(s) && Earlier(s, t) && OfSecond(s, n);
        OlderSecondIsLess(s, t, n, top);
      }
    }
  }

  /** The indices after an export, and the one it got. */
  lemma IndicesAfter(keep: nat, count: nat, i: nat)
    requires keep >= 1 && i == (if RunsOver(keep, count) then 1 else High(keep, count) + 1) && i <= 99
    ensures Low(keep, count + 1) < i <= High(keep, count + 1) <==> !RunsOver(keep, count)
    ensures !RunsOver(keep, count) ==> High(keep, count + 1) == i
  {
  }

  /**
   * An export whose name was used before is removed by its own pruning; every other one is what
   * selection finds after it. Before the export its second shows which it will be: a name is
   * free below one that is taken.
   */
  lemma ReusedNameIsLost(codec: Codec, exports: seq<Export>, keep: int, k: nat)
    requires Lawful(codec) && Orderly(exports) && k < |exports|
    requires NameOf(codec, exports, keep, k).Some?
    ensures
      var t := exports[k].job.exportedAt;
      var kept, count := EffectiveKeep(keep), CountAt(exports[..k], exports[k].job.exportedAt);
      var name, after := NameOf(codec, exports, keep, k).value, StoreAfter(codec, exports[..k + 1], keep);
      && (HasGap(StoreAfter(codec, exports[..k], keep), t) <==> RunsOver(kept, count))
      && (name !in after <==> RunsOver(kept, count))
      && (IsLatest(codec, after, name) <==> !RunsOver(kept, count))
  {
    hide NextIndex, Orderly, Holding, StoreAfter, NameAt, CountAt, Lawful, FourDigitYear, IsComplete, Low, High,
      RunsOver, UpTo, NotBefore, OfRun;
    var t := exports[k].job.exportedAt;
    var kept, count := EffectiveKeep(keep), CountAt(exports[..k], t);
    var before, after := StoreAfter(codec, exports[..k], keep), StoreAfter(codec, exports[..k + 1], keep);
    var i := NextIndex(before, t);
    IndexOfExport(codec, exports, keep, k);
    GapIff(before, t, kept, count);
    IndicesAfter(kept, count, i);
    AfterExport(codec, exports, keep, k);
    NameTaken(after, t, Low(kept, count + 1), High(kept, count + 1), i);
    assert CompleteNames(codec, after) == after.Keys;
    if !RunsOver(kept, count) {
      BoundedBy(after, t, Low(kept, count + 1), High(kept, count + 1));
      NewestOfSecond(after.Keys, t, i);
    }
  }

  lemma NameTaken(entries: Entries, t: Utc, low: nat, high: nat, i: nat)
    requires Holding(entries, t, low, high) && 1 <= i <= 99
    ensures NameAt(t, i) in entries <==> low < i <= high
  {
  }

  lemma BoundedBy(entries: Entries, t: Utc, low: nat, high: nat)
    requires Holding(entries, t, low, high)
    ensures forall i | 1 <= i <= 99 && NameAt(t, i) in entries.Keys :: i <= high
  {
    hide NameAt;
  }

  lemma AfterExport(codec: Codec, exports: seq<Export>, keep: int, k: nat)
    requires Lawful(codec) && Orderly(exports) && k < |exports|
    ensures
      var t := exports[k].job.exportedAt;
      var kept, count := EffectiveKeep(keep), CountAt(exports[..k], exports[k].job.exportedAt);
      var after := StoreAfter(codec, exports[..k + 1], keep);
      && FourDigitYear(t)
      && Holding(after, t, Low(kept, count + 1), High(kept, count + 1))
      && UpTo(after.Keys, t)
      && forall n <- after :: IsComplete(codec, after, n)
  {
    hide Orderly, Holding, StoreAfter, NameAt, CountAt, Lawful, FourDigitYear, IsComplete, Low, High, RunsOver, UpTo,
      OfRun, Earlier;
    var t, part := exports[k].job.exportedAt, exports[..k + 1];
    assert part == exports[..k] + [exports[k]];
    OrderlyPrefix(exports, k);
    OrderlyPrefix(exports, k + 1);
    OrderlyInit(exports[..k], exports[k]);
    CountOneMore(exports[..k], exports[k], t);
    RunKeepsInv(codec, part, keep);
    NotEarlierThanItself(t);
    assert NotBefore(part, t);
    RunIsUpTo(part, StoreAfter(codec, part, keep).Keys, t);
  }

  // ----- an example -----

  lemma SameExports(codec: Codec, e: Export, keep: int)
    requires Readable(e.job) && FourDigitYear(e.job.exportedAt)
    ensures Orderly([e, e, e])
    ensures CountAt([], e.job.exportedAt) == 0 && CountAt([e], e.job.exportedAt) == 1
    ensures CountAt([e, e], e.job.exportedAt) == 2 && CountAt([e, e, e], e.job.exportedAt) == 3
    ensures StoreAfter(codec, [], keep) == map[]
    ensures StoreAfter(codec, [e], keep) == Exported(codec, map[], e, keep)
    ensures StoreAfter(codec, [e, e], keep) == Exported(codec, StoreAfter(codec, [e], keep), e, keep)
    ensures StoreAfter(codec, [e, e, e], keep) == Exported(codec, StoreAfter(codec, [e, e], keep), e, keep)
  {
    hide Exported, Readable, FourDigitYear, Earlier;
    NotEarlierThanItself(e.job.exportedAt);
    assert [e][..0] == [] && [e, e][..1] == [e] && [e, e, e][..2] == [e, e];
  }

  /** With one generation kept, only the second name of a second is left from the second export on. */
  lemma OneKept(codec: Codec, exports: seq<Export>, t: Utc)
    requires Lawful(codec) && Orderly(exports) && FourDigitYear(t) && NotBefore(exports, t) && CountAt(exports, t) > 1
    ensures StoreAfter(codec, exports, 1).Keys == {NameAt(t, 2)}
  {
    hide Lawful, Orderly, FourDigitYear, NotBefore, CountAt, StoreAfter, IsComplete, NameAt;
    RunKeepsInv(codec, exports, 1);
    var left := StoreAfter(codec, exports, 1);
    assert NameAt(t, 2) in left;
    forall n <- left
      ensures n == NameAt(t, 2)
    {
      assert OfSecond(t, n);
    }
  }

  /** Three exports in one second with one generation kept. */
  lemma ThreeExports(codec: Codec, e: Export)
    requires Lawful(codec) && Readable(e.job) && FourDigitYear(e.job.exportedAt)
    ensures
      var t, one := e.job.exportedAt, Exported(codec, map[], e, 1);
      var two := Exported(codec, one, e, 1);
      && NextIndex(map[], t) == 1 && NextIndex(one, t) == 2 && NextIndex(two, t) == 1
      && Exported(codec, two, e, 1).Keys == {NameAt(t, 2)}
  {
    hide Lawful, Orderly, FourDigitYear, Readable, CountAt, StoreAfter, Exported, NextIndex, Holding, NameAt, NotBefore;
    var t, all := e.job.exportedAt, [e, e, e];
    SameExports(codec, e, 1);
    assert all[..0] == [] && all[..1] == [e] && all[..2] == [e, e];
    IndexOfExport(codec, all, 1, 0);
    IndexOfExport(codec, all, 1, 1);
    IndexOfExport(codec, all, 1, 2);
    NotBeforeItself(e);
    OneKept(codec, all, t);
  }

  lemma NotBeforeItself(e: Export)
    ensures NotBefore([e, e, e], e.job.exportedAt)
  {
    NotEarlierThanItself(e.job.exportedAt);
  }

  /**
   * The documentation says that a generation name is never used again. Three exports in one
   * second with one generation kept: the third takes the name of the first and is gone at once.
   */
  method ReuseExample(codec: Codec, job: Job, now: int)
      returns (store: Store, first: string, second: string, third: string)
    requires Lawful(codec) && Readable(job) && FourDigitYear(job.exportedAt)
    ensures fresh(store) && first == third && first != second
    ensures store.entries.Keys == {second}
  {
    hide PruneOf, WithGeneration, GenerationName, Candidate, Lawful, FirstFreeIndex, FourDigitYear, Torn;
    store := new Store(codec);
    ThreeExports(codec, Export(job, now));
    NamesDiffer(job.exportedAt, 1, job.exportedAt, 2);
    var r := store.Write(job, 1, now, NoFault);
    first := r.value;
    r := store.Write(job, 1, now, NoFault);
    second := r.value;
    r := store.Write(job, 1, now, NoFault);
    third := r.value;
  }
}
