/**
 * The catalog directory and the operations on it, one at a time: publish a generation, select
 * the newest complete one, prune old ones.
 */
module CatalogStore {
  import opened Common
  import opened Text
  import opened Names
  import opened Manifest
  import opened GenerationNames

  /** Nanoseconds: an incomplete generation younger than this may still be an export at work. */
  const GRACE := 7 * 24 * 3_600 * 1_000_000_000

  datatype Entry = File | Directory(generation: Generation, modTime: int)

  type Entries = map<string, Entry>

  predicate IsGeneration(entries: Entries, name: string) {
    name in entries && StartsWith(name, FILENAME_PREFIX) && entries[name].Directory?
  }

  /** What an interrupted rename of an older version left behind. */
  predicate IsLeftover(entries: Entries, name: string) {
    name in entries && StartsWith(name, FILENAME_PREFIX) && entries[name].File? && EndsWith(name, ".tmp")
  }

  predicate IsComplete(codec: Codec, entries: Entries, name: string) {
    IsGeneration(entries, name) && Complete(codec, name, entries[name].generation)
  }

  function CompleteNames(codec: Codec, entries: Entries): set<string> {
    set n | n in entries && IsComplete(codec, entries, n)
  }

  function Elements(names: seq<string>): set<string> {
    set n | n in names
  }

  /** The names that come after `name`. */
  function Newer(names: set<string>, name: string): set<string> {
    set m | m in names && Less(name, m)
  }

  function EffectiveKeep(keep: int): nat {
    if keep <= 0 then DEFAULT_KEEP else keep
  }

  /** Incomplete, past its grace period, and older than a complete generation. */
  predicate IsOutdated(codec: Codec, entries: Entries, now: int, name: string) {
    && IsGeneration(entries, name) && !IsComplete(codec, entries, name)
    && now - entries[name].modTime >= GRACE
    && Newer(CompleteNames(codec, entries), name) != {}
  }

  /**
   * What pruning removes: a complete generation with `keep` newer complete ones, and an
   * incomplete generation past its grace period with a newer complete one.
   */
  predicate Doomed(codec: Codec, entries: Entries, keep: nat, now: int, name: string) {
    && IsGeneration(entries, name)
    && var newer := Newer(CompleteNames(codec, entries), name);
      (IsComplete(codec, entries, name) && |newer| >= keep) || IsOutdated(codec, entries, now, name)
  }

  function PruneOf(codec: Codec, entries: Entries, keep: int, now: int): Entries {
    map n | n in entries && !IsLeftover(entries, n) && !Doomed(codec, entries, EffectiveKeep(keep), now, n) ::
      entries[n]
  }

  /** The index of the first free name of a second from `i` on; 100 if all 99 names are taken. */
  function FirstFreeFrom(entries: Entries, base: string, i: nat): (k: nat)
    requires 1 <= i <= 100
    ensures i <= k <= 100
    ensures k <= 99 ==> Candidate(base, k) !in entries
    ensures forall j | i <= j < k :: Candidate(base, j) in entries
    decreases 100 - i
  {
    if i == 100 || Candidate(base, i) !in entries then i else FirstFreeFrom(entries, base, i + 1)
  }

  function FirstFreeIndex(entries: Entries, base: string): nat {
    FirstFreeFrom(entries, base, 1)
  }

  lemma FirstFreeIs(entries: Entries, base: string, i: nat)
    requires 1 <= i <= 100 && (i <= 99 ==> Candidate(base, i) !in entries)
    requires forall j | 1 <= j < i :: Candidate(base, j) in entries
    ensures FirstFreeIndex(entries, base) == i
  {
    var k := FirstFreeIndex(entries, base);
    assert !(k < i) && !(i < k);
  }

  datatype WriteError = VersionMissing | TooManyGenerations | Interrupted(name: string)

  /** Where writing a file of the generation fails, and how much of it is there by then. */
  datatype Fault = NoFault | AtDocument(created: bool, written: nat) | AtManifest(created: bool, written: nat)

  function FirstBytes(all: Bytes, k: nat): Bytes {
    if k > |all| then all else all[..k]
  }

  /** What a failed export leaves: nothing is cleaned up. */
  function Torn(codec: Codec, name: string, job: Job, fault: Fault): Generation {
    match fault
    case NoFault => Generation(Some(job.document), Some(codec.encode(ManifestFor(codec, name, job))))
    case AtDocument(created, k) => Generation(if created then Some(FirstBytes(job.document, k)) else None, None)
    case AtManifest(created, k) =>
      Generation(Some(job.document), if created then Some(Prefix(codec, ManifestFor(codec, name, job), k)) else None)
  }

  datatype Selection = Selection(name: string, manifest: Manifest)

  datatype Status = Status(name: string, result: Result<Manifest, Reason>)

  class Store {
    const codec: Codec
    var entries: Entries

    constructor (codec: Codec)
      ensures this.codec == codec && entries == map[]
    {
      this.codec := codec;
      entries := map[];
    }

    /** Reserves a directory: `mkdir` succeeds for one caller only. */
    method CreateUniqueGenerationDir(base: string, now: int) returns (r: Result<string, WriteError>)
      modifies this`entries
      ensures var i := FirstFreeIndex(old(entries), base);
        if i > 99 then r == Failure(TooManyGenerations) && entries == old(entries)
        else
          && r == Success(Candidate(base, i))
          && entries == old(entries)[r.value := Directory(Generation(None, None), now)]
    {
      for i := 1 to 100
        invariant entries == old(entries)
        invariant forall j: nat | 1 <= j < i :: Candidate(base, j) in entries
      {
        var name := Candidate(base, i);
        if name !in entries {
          FirstFreeIs(entries, base, i);
          entries := entries[name := Directory(Generation(None, None), now)];
          return Success(name);
        }
      }
      FirstFreeIs(entries, base, 100);
      return Failure(TooManyGenerations);
    }

    /** The generation names, newest first, and the leftovers. */
    method ScanSnapshots() returns (names: seq<string>, stale: seq<string>)
      ensures Descending(names)
      ensures forall n :: n in names <==> IsGeneration(entries, n)
      ensures forall n :: n in stale <==> IsLeftover(entries, n)
    {
      names, stale := [], [];
      var todo := entries.Keys;
      while todo != {}
        invariant todo <= entries.Keys && Distinct(names)
        invariant forall n :: n in names <==> IsGeneration(entries, n) && n !in todo
        invariant forall n :: n in stale <==> IsLeftover(entries, n) && n !in todo
        decreases todo
      {
        var n :| n in todo;
        todo := todo - {n};
        if !StartsWith(n, FILENAME_PREFIX) {
          continue;
        }
        if entries[n].Directory? {
          names := names + [n];
        } else if EndsWith(n, ".tmp") {
          stale := stale + [n];
        }
      }
      names := SortNames(names);
      names := Reverse(names);
    }

    /** Removes the names from the directory. */
    method RemoveAll(names: seq<string>)
      modifies this`entries
      ensures entries == old(entries) - Elements(names)
    {
      for k := 0 to |names|
        invariant entries == old(entries) - Elements(names[..k])
      {
        assert Elements(names[..k + 1]) == Elements(names[..k]) + {names[k]};
        entries := entries - {names[k]};
      }
      assert names[..|names|] == names;
    }

    /** Sorts the generations into complete ones, newest first, and incomplete ones to remove. */
    method Judge(names: seq<string>, now: int) returns (complete: seq<string>, doomed: seq<string>)
      requires Descending(names)
      requires forall n :: n in names <==> IsGeneration(entries, n)
      ensures Descending(complete)
      ensures forall n :: n in complete <==> n in CompleteNames(codec, entries)
      ensures forall n :: n in doomed <==>
                IsOutdated(codec, entries, now, n)
    {
      complete, doomed := [], [];
      for k := 0 to |names|
        invariant Descending(complete)
        invariant forall n :: n in complete <==> n in names[..k] && IsComplete(codec, entries, n)
        invariant forall n :: n in doomed <==>
                    n in names[..k] && IsOutdated(codec, entries, now, n)
      {
        var name := names[k];
        assert name in names;
        assert names[..k + 1] == names[..k] + [name];
        EarlierIsNewer(codec, entries, names, k, complete);
        if VerifyGeneration(codec, name, entries[name].generation).Failure? {
          if now - entries[name].modTime < GRACE {
            continue;
          }
          if |complete| > 0 {
            doomed := doomed + [name];
          }
          continue;
        }
        complete := complete + [name];
      }
      assert names[..|names|] == names;
    }

    method Prune(keep: int, now: int)
      modifies this`entries
      ensures entries == PruneOf(codec, old(entries), keep, now)
    {
      var kept := EffectiveKeep(keep);
      var names, stale := ScanSnapshots();
      RemoveAll(stale);
      LeftoversDoNotMatter(codec, old(entries), entries);
      var complete, doomed := Judge(names, now);
      RankedByPosition(codec, old(entries), complete);
      if |complete| > kept {
        doomed := doomed + complete[kept..];
      }
      ghost var was := old(entries);
      DoomedNames(codec, was, kept, now, complete, if |complete| > kept then complete[kept..] else []);
      RemoveAll(doomed);
    }

    /** Document first, manifest last, each opened under its final name. */
    method WriteFiles(name: string, job: Job, now: int, fault: Fault)
      requires name in entries && entries[name] == Directory(Generation(None, None), now)
      modifies this`entries
      ensures entries == old(entries)[name := Directory(Torn(codec, name, job, fault), now)]
    {
      if fault.AtDocument? {
        if fault.created {
          entries := entries[name := Directory(Generation(Some(FirstBytes(job.document, fault.written)), None), now)];
        }
        return;
      }
      entries := entries[name := Directory(Generation(Some(job.document), None), now)];
      var manifest := ManifestFor(codec, name, job);
      if fault.AtManifest? {
        if fault.created {
          var part := Prefix(codec, manifest, fault.written);
          entries := entries[name := Directory(Generation(Some(job.document), Some(part)), now)];
        }
        return;
      }
      entries := entries[name := Directory(Generation(Some(job.document), Some(codec.encode(manifest))), now)];
    }

    /** Document first, manifest last, then prune. A fault on the way ends the export where it is. */
    method Write(job: Job, keep: int, now: int, fault: Fault) returns (r: Result<string, WriteError>)
      modifies this`entries
      ensures
        var base := GenerationName(job.exportedAt);
        var i := FirstFreeIndex(old(entries), base);
        if job.schemaVersion <= 0 then r == Failure(VersionMissing) && entries == old(entries)
        else if i > 99 then r == Failure(TooManyGenerations) && entries == old(entries)
        else if fault != NoFault then
          && r == Failure(Interrupted(Candidate(base, i)))
          && entries == old(entries)[r.error.name := Directory(Torn(codec, r.error.name, job, fault), now)]
        else
          && r == Success(Candidate(base, i))
          && entries == PruneOf(codec, WithGeneration(codec, old(entries), r.value, job, now), keep, now)
    {
      hide PruneOf, Candidate, GenerationName, FirstBytes, Prefix, ManifestFor;
      if job.schemaVersion <= 0 {
        return Failure(VersionMissing);
      }
      var reserved := CreateUniqueGenerationDir(GenerationName(job.exportedAt), now);
      if reserved.Failure? {
        return reserved;
      }
      var name := reserved.value;
      WriteFiles(name, job, now, fault);
      assert entries == old(entries)[name := Directory(Torn(codec, name, job, fault), now)];
      if fault != NoFault {
        return Failure(Interrupted(name));
      }
      WholeIsGeneration(codec, old(entries), name, job, now);
      Prune(keep, now);
      return Success(name);
    }

    method ListSnapshots() returns (statuses: seq<Status>)
      ensures Descending(Listed(statuses))
      ensures forall n :: n in Listed(statuses) <==> IsGeneration(entries, n)
      ensures forall k | 0 <= k < |statuses| :: IsGeneration(entries, statuses[k].name) &&
                statuses[k].result == VerifyGeneration(codec, statuses[k].name, entries[statuses[k].name].generation)
    {
      var names, _ := ScanSnapshots();
      statuses := [];
      for k := 0 to |names|
        invariant Listed(statuses) == names[..k]
        invariant forall j | 0 <= j < k :: IsGeneration(entries, names[j]) &&
                    statuses[j] == Status(names[j], VerifyGeneration(codec, names[j], entries[names[j]].generation))
      {
        assert names[k] in names;
        statuses := statuses + [Status(names[k], VerifyGeneration(codec, names[k], entries[names[k]].generation))];
      }
      assert names[..|names|] == names;
    }

    /** The newest complete generation; `rejected` are the newer ones passed over, newest first. */
    method SelectLatest() returns (chosen: Option<Selection>, rejected: seq<Status>)
      ensures chosen.Some? ==> IsLatest(codec, entries, chosen.value.name)
      ensures chosen.Some? ==>
                VerifyGeneration(codec, chosen.value.name, entries[chosen.value.name].generation) ==
                    Success(chosen.value.manifest)
      ensures chosen.None? ==> CompleteNames(codec, entries) == {}
      ensures Descending(Listed(rejected))
      ensures forall n :: n in Listed(rejected) <==>
                IsGeneration(entries, n) && (chosen.Some? ==> Less(chosen.value.name, n))
    {
      var statuses := ListSnapshots();
      rejected := [];
      for k := 0 to |statuses|
        invariant rejected == statuses[..k]
        invariant forall j | 0 <= j < k :: statuses[j].result.Failure?
      {
        var st := statuses[k];
        if st.result.Failure? {
          rejected := rejected + [st];
          continue;
        }
        FirstIsLatest(codec, entries, statuses, k);
        return Some(Selection(st.name, st.result.value)), rejected;
      }
      assert statuses[..|statuses|] == statuses;
      NoneIsComplete(codec, entries, statuses);
      return None, rejected;
    }
  }

  function Listed(statuses: seq<Status>): (names: seq<string>)
    ensures |names| == |statuses|
  {
    seq(|statuses|, i requires 0 <= i < |statuses| => statuses[i].name)
  }

  function WithGeneration(codec: Codec, entries: Entries, name: string, job: Job, now: int): Entries {
    entries[name := Directory(Generation(Some(job.document), Some(codec.encode(ManifestFor(codec, name, job)))), now)]
  }

  lemma WholeIsGeneration(codec: Codec, entries: Entries, name: string, job: Job, now: int)
    ensures entries[name := Directory(Torn(codec, name, job, NoFault), now)] ==
      WithGeneration(codec, entries, name, job, now)
  {
  }

  predicate IsLatest(codec: Codec, entries: Entries, name: string) {
    name in CompleteNames(codec, entries) && Newer(CompleteNames(codec, entries), name) == {}
  }

  // ----- proof of the operations -----

  /** Scanning newest first, a complete generation has been seen exactly when a newer one exists. */
  lemma EarlierIsNewer(codec: Codec, entries: Entries, names: seq<string>, k: nat, complete: seq<string>)
    requires k < |names| && Descending(names)
    requires forall n :: n in names <==> IsGeneration(entries, n)
    requires forall n :: n in complete <==> n in names[..k] && IsComplete(codec, entries, n)
    ensures |complete| > 0 <==> Newer(CompleteNames(codec, entries), names[k]) != {}
    ensures names[k] !in names[..k]
    ensures forall n <- complete :: Less(names[k], n)
  {
    NamesAreOrdered();
    if complete != [] {
      assert complete[0] in complete;
      assert complete[0] in Newer(CompleteNames(codec, entries), names[k]);
    }
    if m :| m in Newer(CompleteNames(codec, entries), names[k]) {
      var j :| 0 <= j < |names| && names[j] == m;
      assert j < k;
      assert names[..k][j] == m;
      assert m in complete;
    }
  }

  lemma LeftoversDoNotMatter(codec: Codec, was: Entries, now: Entries)
    requires now == was - (set n | n in was && IsLeftover(was, n))
    ensures CompleteNames(codec, now) == CompleteNames(codec, was)
    ensures forall n :: IsGeneration(now, n) <==> IsGeneration(was, n)
    ensures forall n | IsGeneration(was, n) :: now[n] == was[n]
  {
  }

  lemma {:induction false} DescendingCount(names: seq<string>)
    requires Descending(names)
    ensures |Elements(names)| == |names|
  {
    if names != [] {
      var init, last := names[..|names| - 1], names[|names| - 1];
      DescendingCount(init);
      assert Elements(names) == Elements(init) + {last};
      NamesAreOrdered();
      assert last !in init;
    } else {
      assert Elements(names) == {};
    }
  }

  /** In the newest-first list a complete generation has as many newer ones as its position says. */
  lemma RankedByPosition(codec: Codec, entries: Entries, complete: seq<string>)
    requires Descending(complete)
    requires forall n :: n in complete <==> n in CompleteNames(codec, entries)
    ensures forall j | 0 <= j < |complete| :: |Newer(CompleteNames(codec, entries), complete[j])| == j
  {
    NamesAreOrdered();
    forall j | 0 <= j < |complete|
      ensures |Newer(CompleteNames(codec, entries), complete[j])| == j
    {
      DescendingCount(complete[..j]);
      PrefixIsNewer(CompleteNames(codec, entries), complete, j);
    }
  }

  lemma PrefixIsNewer(all: set<string>, complete: seq<string>, j: nat)
    requires Descending(complete) && j < |complete|
    requires forall n :: n in complete <==> n in all
    ensures Newer(all, complete[j]) == Elements(complete[..j])
  {
    NamesAreOrdered();
    forall n
      ensures n in Newer(all, complete[j]) <==> n in complete[..j]
    {
      if n in Newer(all, complete[j]) {
        var i :| 0 <= i < |complete| && complete[i] == n;
        assert i < j;
        assert complete[..j][i] == n;
      }
    }
  }

  /** The complete generations beyond the first `keep` are those with `keep` newer ones. */
  lemma DoomedNames(codec: Codec, entries: Entries, keep: nat, now: int, complete: seq<string>, beyond: seq<string>)
    requires Descending(complete)
    requires forall n :: n in complete <==> n in CompleteNames(codec, entries)
    requires forall j | 0 <= j < |complete| :: |Newer(CompleteNames(codec, entries), complete[j])| == j
    requires beyond == if |complete| > keep then complete[keep..] else []
    ensures forall n ::
      n in beyond <==> IsComplete(codec, entries, n) && |Newer(CompleteNames(codec, entries), n)| >= keep
  {
    forall n
      ensures n in beyond <==> IsComplete(codec, entries, n) && |Newer(CompleteNames(codec, entries), n)| >= keep
    {
      assert IsComplete(codec, entries, n) <==> n in CompleteNames(codec, entries);
      if n in complete {
        var j :| 0 <= j < |complete| && complete[j] == n;
        if j >= keep {
          assert beyond[j - keep] == n;
        }
      }
      if n in beyond {
        var j :| 0 <= j < |beyond| && beyond[j] == n;
        assert complete[keep + j] == n;
      }
    }
  }

  /** The first complete status in a newest-first list is the newest complete generation. */
  lemma FirstIsLatest(codec: Codec, entries: Entries, statuses: seq<Status>, k: nat)
    requires k < |statuses| && Descending(Listed(statuses))
    requires forall n :: n in Listed(statuses) <==> IsGeneration(entries, n)
    requires forall j | 0 <= j < |statuses| :: IsGeneration(entries, statuses[j].name) &&
               statuses[j].result == VerifyGeneration(codec, statuses[j].name, entries[statuses[j].name].generation)
    requires forall j | 0 <= j < k :: statuses[j].result.Failure?
    requires statuses[k].result.Success?
    ensures IsLatest(codec, entries, statuses[k].name)
    ensures Descending(Listed(statuses[..k]))
    ensures forall n :: n in Listed(statuses[..k]) <==> IsGeneration(entries, n) && Less(statuses[k].name, n)
  {
    NamesAreOrdered();
    var names := Listed(statuses);
    assert names[k] == statuses[k].name;
    assert Listed(statuses[..k]) == names[..k];
    forall n
      ensures n in names[..k] <==> IsGeneration(entries, n) && Less(statuses[k].name, n)
    {
      if IsGeneration(entries, n) {
        var j :| 0 <= j < |names| && names[j] == n;
        assert j < k ==> names[..k][j] == n;
        assert j >= k ==> !Less(names[k], n);
      }
      if n in names[..k] {
        var j :| 0 <= j < k && names[..k][j] == n;
        assert names[j] == n;
      }
    }
    forall n <- names[..k]
      ensures !IsComplete(codec, entries, n)
    {
      var j :| 0 <= j < k && names[..k][j] == n;
      assert statuses[j].name == n;
    }
  }

  lemma NoneIsComplete(codec: Codec, entries: Entries, statuses: seq<Status>)
    requires forall n :: n in Listed(statuses) <==> IsGeneration(entries, n)
    requires forall j | 0 <= j < |statuses| :: IsGeneration(entries, statuses[j].name) &&
               statuses[j].result == VerifyGeneration(codec, statuses[j].name, entries[statuses[j].name].generation)
    requires forall j | 0 <= j < |statuses| :: statuses[j].result.Failure?
    ensures CompleteNames(codec, entries) == {}
  {
    forall n
      ensures !IsComplete(codec, entries, n)
    {
      if IsGeneration(entries, n) {
        assert n in Listed(statuses);
        var j :| 0 <= j < |statuses| && Listed(statuses)[j] == n;
        assert statuses[j].name == n;
      }
    }
  }
}
