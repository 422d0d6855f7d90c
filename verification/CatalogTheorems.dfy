/** What publishing, pruning and selecting guarantee when they run one after the other. */
module CatalogTheorems {
  import opened Common
  import opened Text
  import opened Manifest
  import opened GenerationNames
  import opened CatalogStore

  // ----- pruning -----

  lemma PrunedEntry(codec: Codec, entries: Entries, keep: int, now: int, n: string)
    ensures var after := PruneOf(codec, entries, keep, now);
      && (n in after ==> n in entries && after[n] == entries[n])
      && (IsGeneration(after, n) <==> IsGeneration(entries, n) && !Doomed(codec, entries, EffectiveKeep(keep), now, n))
      && (IsComplete(codec, after, n) <==>
            IsComplete(codec, entries, n) && |Newer(CompleteNames(codec, entries), n)| < EffectiveKeep(keep))
  {
  }

  /** The complete generations that survive are those with fewer than `keep` newer ones. */
  lemma SurvivingComplete(codec: Codec, entries: Entries, keep: int, now: int)
    ensures CompleteNames(codec, PruneOf(codec, entries, keep, now)) ==
      set n | n in CompleteNames(codec, entries) && |Newer(CompleteNames(codec, entries), n)| < EffectiveKeep(keep)
  {
    hide IsComplete, PruneOf, Doomed;
    var after := PruneOf(codec, entries, keep, now);
    forall n
      ensures n in CompleteNames(codec, after) <==>
              n in CompleteNames(codec, entries) && |Newer(CompleteNames(codec, entries), n)| < EffectiveKeep(keep)
    {
      PrunedEntry(codec, entries, keep, now, n);
      MemberIsComplete(codec, entries, n);
      MemberIsComplete(codec, after, n);
    }
  }

  lemma MemberIsComplete(codec: Codec, entries: Entries, n: string)
    ensures n in CompleteNames(codec, entries) <==> IsComplete(codec, entries, n)
  {
  }

  /** The `k` newest of a set of names. */
  ghost predicate AreNewest(chosen: set<string>, all: set<string>, k: nat) {
    && chosen <= all
    && |chosen| == (if |all| < k then |all| else k)
    && forall n, m | n in chosen && m in all && m !in chosen :: Less(m, n)
  }

  /** Exactly the `keep` newest complete generations survive. */
  lemma NewestSurvive(codec: Codec, entries: Entries, keep: int, now: int)
    ensures AreNewest(CompleteNames(codec, PruneOf(codec, entries, keep, now)), CompleteNames(codec, entries),
      EffectiveKeep(keep))
  {
    SurvivingComplete(codec, entries, keep, now);
    RanksBelowAreNewest(CompleteNames(codec, entries), EffectiveKeep(keep));
  }

  function RanksBelow(all: set<string>, k: nat): set<string> {
    set n | n in all && |Newer(all, n)| < k
  }

  lemma NewerShrinks(all: set<string>, a: string, b: string)
    requires a in all && b in all && Less(a, b)
    ensures |Newer(all, b)| < |Newer(all, a)|
  {
    NamesAreOrdered();
    assert Newer(all, b) + {b} <= Newer(all, a);
    assert b !in Newer(all, b);
    SubsetSize(Newer(all, b) + {b}, Newer(all, a));
  }

  lemma {:induction false} GreatestName(all: set<string>) returns (top: string)
    requires all != {}
    ensures top in all && forall n <- all :: AtMost(n, top)
  {
    top :| top in all;
    if all != {top} {
      NamesAreOrdered();
      var rest := GreatestName(all - {top});
      assert all == (all - {top}) + {top};
      if Less(top, rest) {
        top := rest;
      }
    } else {
      assert forall n <- all :: n == top;
    }
  }

  /** Removing the greatest name lowers every other rank by one. */
  lemma RankWithoutTop(all: set<string>, top: string, n: string)
    requires top in all && (forall m <- all :: AtMost(m, top)) && n in all && n != top
    ensures |Newer(all, n)| == |Newer(all - {top}, n)| + 1
  {
    NamesAreOrdered();
    assert Less(n, top);
    assert Newer(all, n) == Newer(all - {top}, n) + {top};
  }

  lemma TopHasRankZero(all: set<string>, top: string)
    requires top in all && forall m <- all :: AtMost(m, top)
    ensures Newer(all, top) == {}
  {
    NamesAreOrdered();
  }

  lemma RanksBelowStep(all: set<string>, top: string, k: nat)
    requires top in all && (forall m <- all :: AtMost(m, top)) && k > 0
    ensures |RanksBelow(all, k)| == |RanksBelow(all - {top}, k - 1)| + 1
  {
    hide Newer;
    TopHasRankZero(all, top);
    forall n | n in all - {top}
      ensures n in RanksBelow(all, k) <==> n in RanksBelow(all - {top}, k - 1)
    {
      RankWithoutTop(all, top, n);
    }
    assert RanksBelow(all, k) == RanksBelow(all - {top}, k - 1) + {top};
  }

  lemma RanksBelowNone(all: set<string>, k: nat)
    requires all == {} || k == 0
    ensures RanksBelow(all, k) == {}
  {
  }

  lemma {:induction false} RanksBelowCount(all: set<string>, k: nat)
    ensures |RanksBelow(all, k)| == if |all| < k then |all| else k
    decreases |all|
  {
    hide RanksBelow, AtMost;
    if all == {} || k == 0 {
      RanksBelowNone(all, k);
    } else {
      var top := GreatestName(all);
      assert |all - {top}| == |all| - 1;
      RanksBelowCount(all - {top}, k - 1);
      RanksBelowStep(all, top, k);
    }
  }

  lemma RanksBelowAreNewest(all: set<string>, k: nat)
    ensures AreNewest(RanksBelow(all, k), all, k)
  {
    RanksBelowCount(all, k);
    NamesAreOrdered();
    forall n, m | n in RanksBelow(all, k) && m in all && m !in RanksBelow(all, k)
      ensures Less(m, n)
    {
      if Less(n, m) {
        NewerShrinks(all, n, m);
      }
    }
  }

  /** The complete generations with a greater name. */
  function CompleteAbove(codec: Codec, entries: Entries, n: string): set<string> {
    set m | m in entries && "catalog-" <= m && entries[m].Directory? && Complete(codec, m, entries[m].generation) &&
      Less(n, m)
  }

  /**
   * Which entries survive: a complete generation iff fewer than `keep` complete ones come after it,
   * seven being kept by default; an incomplete one iff it changed within the last seven days or no
   * complete one comes after it; of the files with the prefix those that are no leftovers; and
   * everything without the prefix.
   */
  lemma SurvivesIff(codec: Codec, entries: Entries, keep: int, now: int, n: string)
    requires n in entries
    ensures n in PruneOf(codec, entries, keep, now) <==>
      if !("catalog-" <= n) then true
      else if entries[n].File? then !EndsWith(n, ".tmp")
      else if Complete(codec, n, entries[n].generation) then
        |CompleteAbove(codec, entries, n)| < if keep <= 0 then 7 else keep
      else now - entries[n].modTime < 7 * 24 * 3_600 * 1_000_000_000 || CompleteAbove(codec, entries, n) == {}
    ensures n in PruneOf(codec, entries, keep, now) ==> PruneOf(codec, entries, keep, now)[n] == entries[n]
  {
    hide Complete, Less;
    assert forall m :: StartsWith(m, FILENAME_PREFIX) <==> "catalog-" <= m;
    assert CompleteAbove(codec, entries, n) == Newer(CompleteNames(codec, entries), n);
  }

  /** A surviving incomplete generation is recent, or newer than every complete one. */
  lemma SurvivingIncomplete(codec: Codec, entries: Entries, keep: int, now: int, n: string)
    requires IsGeneration(PruneOf(codec, entries, keep, now), n) &&
      !IsComplete(codec, PruneOf(codec, entries, keep, now), n)
    ensures IsGeneration(entries, n) && !IsComplete(codec, entries, n)
    ensures now - entries[n].modTime < GRACE || forall m <- CompleteNames(codec, entries) :: !Less(n, m)
  {
    PrunedEntry(codec, entries, keep, now, n);
    if exists m <- CompleteNames(codec, entries) :: Less(n, m) {
      var m :| m in CompleteNames(codec, entries) && Less(n, m);
      assert m in Newer(CompleteNames(codec, entries), n);
    }
  }

  /** Names without the prefix, and files that are no leftovers, are not touched. */
  lemma OthersUntouched(codec: Codec, entries: Entries, keep: int, now: int, n: string)
    requires n in entries && !IsGeneration(entries, n) && !IsLeftover(entries, n)
    ensures n in PruneOf(codec, entries, keep, now) && PruneOf(codec, entries, keep, now)[n] == entries[n]
  {
  }

  /** The newest complete generation survives, and selection does not notice the pruning. */
  lemma SelectionSurvivesPrune(codec: Codec, entries: Entries, keep: int, now: int, n: string)
    ensures IsLatest(codec, PruneOf(codec, entries, keep, now), n) <==> IsLatest(codec, entries, n)
  {
    var all, after := CompleteNames(codec, entries), CompleteNames(codec, PruneOf(codec, entries, keep, now));
    NewestSurvive(codec, entries, keep, now);
    NamesAreOrdered();
    if n in all && Newer(all, n) == {} {
      SurvivingComplete(codec, entries, keep, now);
      assert Newer(after, n) <= Newer(all, n);
    }
    if n in after && Newer(after, n) == {} {
      forall m | m in all
        ensures !Less(n, m)
      {
        if m in after {
          assert m !in Newer(after, n);
        }
      }
      assert Newer(all, n) == {};
    }
  }

  /** Pruning again at the same time removes nothing more. */
  lemma PruneIdempotent(codec: Codec, entries: Entries, keep: int, now: int)
    ensures PruneOf(codec, PruneOf(codec, entries, keep, now), keep, now) == PruneOf(codec, entries, keep, now)
  {
    hide IsComplete;
    var after := PruneOf(codec, entries, keep, now);
    var all, left := CompleteNames(codec, entries), CompleteNames(codec, after);
    SurvivingComplete(codec, entries, keep, now);
    forall n <- after
      ensures !IsLeftover(after, n) && !Doomed(codec, after, EffectiveKeep(keep), now, n)
    {
      PrunedEntry(codec, entries, keep, now, n);
      assert Newer(left, n) <= Newer(all, n);
      SubsetSize(Newer(left, n), Newer(all, n));
    }
  }

  // ----- publishing -----

  lemma CompleteAfterWrite(codec: Codec, entries: Entries, name: string, job: Job, now: int)
    requires Lawful(codec) && name !in entries && StartsWith(name, FILENAME_PREFIX)
    ensures CompleteNames(codec, WithGeneration(codec, entries, name, job, now))
         == CompleteNames(codec, entries) + if Readable(job) then {name} else {}
  {
    PublishedIsComplete(codec, name, job);
    var after := WithGeneration(codec, entries, name, job, now);
    forall n
      ensures n in CompleteNames(codec, after) <==> n in CompleteNames(codec, entries) || (n == name && Readable(job))
    {
      MemberIsComplete(codec, entries, n);
      MemberIsComplete(codec, after, n);
    }
  }

  /** By name: the new generation is the latest exactly when no complete one has a greater name. */
  lemma NameIsSelectedIff(codec: Codec, entries: Entries, name: string, job: Job, keep: int, now: int)
    requires Lawful(codec) && Readable(job) && name !in entries && StartsWith(name, FILENAME_PREFIX)
    ensures IsLatest(codec, PruneOf(codec, WithGeneration(codec, entries, name, job, now), keep, now), name)
       <==> Newer(CompleteNames(codec, entries), name) == {}
  {
    var with := WithGeneration(codec, entries, name, job, now);
    SelectionSurvivesPrune(codec, with, keep, now, name);
    CompleteAfterWrite(codec, entries, name, job, now);
    LessIrreflexive(name);
    assert Newer(CompleteNames(codec, with), name) == Newer(CompleteNames(codec, entries), name);
  }

  /** By name: it outlives the pruning of its own export exactly when fewer than `keep` have greater names. */
  lemma NameSurvivesIff(codec: Codec, entries: Entries, name: string, job: Job, keep: int, now: int)
    requires Lawful(codec) && Readable(job) && name !in entries && StartsWith(name, FILENAME_PREFIX)
    ensures name in PruneOf(codec, WithGeneration(codec, entries, name, job, now), keep, now)
       <==> |Newer(CompleteNames(codec, entries), name)| < EffectiveKeep(keep)
  {
    var with := WithGeneration(codec, entries, name, job, now);
    CompleteAfterWrite(codec, entries, name, job, now);
    LessIrreflexive(name);
    assert Newer(CompleteNames(codec, with), name) == Newer(CompleteNames(codec, entries), name);
    MemberIsComplete(codec, with, name);
  }

  // ----- time stamps -----

  /** When a complete generation says it was exported. */
  function ExportedAt(codec: Codec, entries: Entries, n: string): Utc
    requires IsComplete(codec, entries, n)
  {
    VerifyGeneration(codec, n, entries[n].generation).value.exportedAt
  }

  ghost predicate HasStamp(t: Utc, n: string) {
    FourDigitYear(t) && exists i: nat :: 1 <= i <= 99 && n == Candidate(GenerationName(t), i)
  }

  /** Every complete generation has one of the names of the second it was exported in. */
  ghost predicate Stamped(codec: Codec, entries: Entries) {
    forall n <- CompleteNames(codec, entries) :: HasStamp(ExportedAt(codec, entries, n), n)
  }

  lemma StampOfWritten(codec: Codec, entries: Entries, name: string, job: Job, now: int)
    requires Lawful(codec) && Readable(job) && StartsWith(name, FILENAME_PREFIX)
    ensures
      var with := WithGeneration(codec, entries, name, job, now);
      IsComplete(codec, with, name) && ExportedAt(codec, with, name) == job.exportedAt
  {
    PublishedIsComplete(codec, name, job);
  }

  lemma CandidateHasPrefix(t: Utc, i: nat)
    ensures StartsWith(Candidate(GenerationName(t), i), FILENAME_PREFIX)
  {
    hide Stamp, Padded;
    assert Candidate(GenerationName(t), i)[..8] == FILENAME_PREFIX;
  }

  /** Exports keep the catalog stamped. */
  lemma WriteKeepsStamped(codec: Codec, entries: Entries, name: string, job: Job, keep: int, now: int)
    requires Lawful(codec) && Readable(job) && Stamped(codec, entries)
    requires name !in entries && HasStamp(job.exportedAt, name)
    ensures Stamped(codec, PruneOf(codec, WithGeneration(codec, entries, name, job, now), keep, now))
  {
    hide HasStamp, VerifyGeneration, Candidate, GenerationName, PruneOf, Doomed;
    var with := WithGeneration(codec, entries, name, job, now);
    var after := PruneOf(codec, with, keep, now);
    NamePrefix(job.exportedAt, name);
    CompleteAfterWrite(codec, entries, name, job, now);
    StampOfWritten(codec, entries, name, job, now);
    forall n <- CompleteNames(codec, after)
      ensures HasStamp(ExportedAt(codec, after, n), n)
    {
      PrunedEntry(codec, with, keep, now, n);
      MemberIsComplete(codec, with, n);
      MemberIsComplete(codec, entries, n);
    }
  }

  lemma NamePrefix(t: Utc, n: string)
    requires HasStamp(t, n)
    ensures StartsWith(n, FILENAME_PREFIX)
  {
    var i: nat :| 1 <= i <= 99 && n == Candidate(GenerationName(t), i);
    CandidateHasPrefix(t, i);
  }

  /** The complete generations exported after `t`, and those of that second with an index above `i`. */
  ghost predicate IsAhead(codec: Codec, entries: Entries, t: Utc, i: nat, m: string) {
    IsComplete(codec, entries, m) &&
    (Earlier(t, ExportedAt(codec, entries, m)) || exists j: nat :: i < j <= 99 && m == Candidate(GenerationName(t), j))
  }

  ghost function Ahead(codec: Codec, entries: Entries, t: Utc, i: nat): set<string> {
    set m | m in CompleteNames(codec, entries) && IsAhead(codec, entries, t, i, m)
  }

  /** In a stamped catalog the greater names are those of later times and of higher indices. */
  lemma AheadIsNewer(codec: Codec, entries: Entries, t: Utc, i: nat)
    requires Stamped(codec, entries) && FourDigitYear(t) && 1 <= i <= 99
    ensures Ahead(codec, entries, t, i) == Newer(CompleteNames(codec, entries), Candidate(GenerationName(t), i))
  {
    hide IsComplete, VerifyGeneration, Candidate, GenerationName, Earlier, FourDigitYear, Less;
    forall m <- CompleteNames(codec, entries)
      ensures IsAhead(codec, entries, t, i, m) <==> Less(Candidate(GenerationName(t), i), m)
    {
      MemberIsComplete(codec, entries, m);
      var at := ExportedAt(codec, entries, m);
      assert HasStamp(at, m);
      var j: nat :| 1 <= j <= 99 && m == Candidate(GenerationName(at), j);
      NameOrder(t, i, at, j);
      if k: nat :| i < k <= 99 && m == Candidate(GenerationName(t), k) {
        NameOrder(t, i, t, k);
      }
    }
  }

  /**
   * A readable export is what selection finds afterwards exactly when no complete generation was
   * exported later and none of its own second has an index above the first free one.
   */
  lemma WrittenIsSelectedIff(codec: Codec, entries: Entries, job: Job, keep: int, now: int)
    requires Lawful(codec) && Readable(job) && FourDigitYear(job.exportedAt) && Stamped(codec, entries)
    requires FirstFreeIndex(entries, GenerationName(job.exportedAt)) <= 99
    ensures
      var i := FirstFreeIndex(entries, GenerationName(job.exportedAt));
      var name := Candidate(GenerationName(job.exportedAt), i);
      IsLatest(codec, PruneOf(codec, WithGeneration(codec, entries, name, job, now), keep, now), name)
      <==> Ahead(codec, entries, job.exportedAt, i) == {}
  {
    hide IsLatest, PruneOf, GenerationName, Candidate;
    var i := FirstFreeIndex(entries, GenerationName(job.exportedAt));
    CandidateHasPrefix(job.exportedAt, i);
    NameIsSelectedIff(codec, entries, Candidate(GenerationName(job.exportedAt), i), job, keep, now);
    AheadIsNewer(codec, entries, job.exportedAt, i);
  }

  /** It outlives the pruning of its own export exactly when fewer than `keep` of those are there. */
  lemma WrittenSurvivesIff(codec: Codec, entries: Entries, job: Job, keep: int, now: int)
    requires Lawful(codec) && Readable(job) && FourDigitYear(job.exportedAt) && Stamped(codec, entries)
    requires FirstFreeIndex(entries, GenerationName(job.exportedAt)) <= 99
    ensures
      var i := FirstFreeIndex(entries, GenerationName(job.exportedAt));
      var name := Candidate(GenerationName(job.exportedAt), i);
      name in PruneOf(codec, WithGeneration(codec, entries, name, job, now), keep, now)
      <==> |Ahead(codec, entries, job.exportedAt, i)| < EffectiveKeep(keep)
  {
    hide PruneOf, GenerationName, Candidate;
    var i := FirstFreeIndex(entries, GenerationName(job.exportedAt));
    CandidateHasPrefix(job.exportedAt, i);
    NameSurvivesIff(codec, entries, Candidate(GenerationName(job.exportedAt), i), job, keep, now);
    AheadIsNewer(codec, entries, job.exportedAt, i);
  }

  // ----- exports that fail -----

  /** What a failed export leaves is complete only if what it wrote of the manifest reads. */
  lemma TornIsCompleteIff(codec: Codec, name: string, job: Job, fault: Fault)
    requires Lawful(codec) && fault != NoFault
    ensures Complete(codec, name, Torn(codec, name, job, fault)) <==>
      && Readable(job) && fault.AtManifest? && fault.created
      && codec.parse(Prefix(codec, ManifestFor(codec, name, job), fault.written)).Some?
  {
    hide Lawful, VerifyManifest, VerifyFile;
    if fault.AtManifest? && fault.created {
      CompleteWhileWriting(codec, name, job, fault.written);
    } else {
      NoManifestIsIncomplete(codec, name, Torn(codec, name, job, fault));
    }
  }

  lemma NoManifestIsIncomplete(codec: Codec, name: string, g: Generation)
    requires g.manifest.None?
    ensures !Complete(codec, name, g)
  {
  }

  /** A failed export whose manifest does not read changes nothing that selection can find. */
  lemma FailedExportIsInvisible(codec: Codec, entries: Entries, name: string, job: Job, fault: Fault, now: int)
    requires name !in entries && !Complete(codec, name, Torn(codec, name, job, fault))
    ensures CompleteNames(codec, entries[name := Directory(Torn(codec, name, job, fault), now)]) ==
      CompleteNames(codec, entries)
  {
    hide Complete, Torn;
    var after := entries[name := Directory(Torn(codec, name, job, fault), now)];
    forall n
      ensures n in CompleteNames(codec, after) <==> n in CompleteNames(codec, entries)
    {
      MemberIsComplete(codec, entries, n);
      MemberIsComplete(codec, after, n);
    }
  }
}
