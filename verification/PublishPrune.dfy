/**
 * One prune that no other process interrupts, in the protocol with a clock: whatever happened
 * before, it leaves exactly what the prune of the sequential catalog leaves.
 */
module PublishPrune {
  import opened Common
  import opened Text
  import opened Names
  import opened Manifest
  import opened PublishProtocol
  import opened PublishGrace
  import CatalogStore

  // ----- the steps -----

  /** Reading one name, first the manifest and then the document. */
  function ScanOne(p: ProcessId): seq<Event> {
    [Step(ReadManifest(p, false)), Step(CheckDocument(p, false))]
  }

  function ScanEvents(p: ProcessId, n: nat): seq<Event> {
    if n == 0 then [] else ScanEvents(p, n - 1) + ScanOne(p)
  }

  /** Removing one name: its files, its directory, and on to the next. */
  function RemoveOne(p: ProcessId): seq<Event> {
    [Step(Unlink(p, Document)), Step(Unlink(p, Declaration)), Step(RemoveDirectory(p)), Step(NextDoomed(p))]
  }

  function RemoveEvents(p: ProcessId, n: nat): seq<Event> {
    if n == 0 then [] else RemoveEvents(p, n - 1) + RemoveOne(p)
  }

  /** A prune from its start to its end. */
  function WholePrune(p: ProcessId, keep: int, listing: seq<string>): seq<Event> {
    [Step(StartPrune(p, keep, listing))] + ScanEvents(p, |listing|) + [Step(EndScan(p))] +
    RemoveEvents(p, |listing|)
  }

  // ----- what a state shows -----

  /** The catalog directory as the sequential operations see it. */
  function EntriesOf(t: Timed): CatalogStore.Entries
    requires t.modified.Keys == t.world.dirs.Keys
  {
    map n | n in t.world.dirs :: CatalogStore.Directory(
      Generation(PartOf(t.world, n, Document), PartOf(t.world, n, Declaration)), t.modified[n])
  }

  /** A state without its history. */
  datatype TimedShape = TimedShape(dirs: map<string, Directory>, files: map<FileId, Bytes>,
    exporters: map<ProcessId, Exporter>, pruners: map<ProcessId, Pruner>, now: int, modified: map<string, int>)

  function TimedShapeOf(t: Timed): TimedShape {
    TimedShape(t.world.dirs, t.world.files, t.world.exporters, t.world.pruners, t.now, t.modified)
  }

  predicate Dated(t: Timed) {
    t.modified.Keys == t.world.dirs.Keys
  }

  lemma StepShape(codec: Codec, t: Timed, a: Action)
    ensures var v := Act(codec, t.world, Judged(t, a));
      TimedShapeOf(Advance(codec, t, Step(a))) ==
        TimedShape(v.dirs, v.files, v.exporters, v.pruners, t.now, Touched(t.world, v, t.modified, t.now))
  {
    hide Act, Verifies, Judged;
  }

  lemma Untouched(t: Timed, v: World)
    requires Dated(t) && v.dirs == t.world.dirs
    ensures Touched(t.world, v, t.modified, t.now) == t.modified
  {
  }

  lemma StartShape(codec: Codec, t: Timed, p: ProcessId, keep: int, listing: seq<string>)
    requires Dated(t) && p !in t.world.pruners && Descending(listing)
    ensures TimedShapeOf(Advance(codec, t, Step(StartPrune(p, keep, listing)))) ==
      TimedShapeOf(t).(pruners :=
        t.world.pruners[p := Scanning(CatalogStore.EffectiveKeep(keep), listing, None, [], [])])
  {
    hide Advance, Touched, Descending;
    StepShape(codec, t, StartPrune(p, keep, listing));
    Untouched(t, Act(codec, t.world, StartPrune(p, keep, listing)));
  }

  /** The prune reads the first name of those to do. */
  predicate AtName(t: Timed, p: ProcessId, pr: Pruner) {
    Dated(t) && p in t.world.pruners && t.world.pruners[p] == pr && pr.Scanning? && pr.todo != [] &&
    pr.todo[0] in t.world.dirs
  }

  /** What becomes of the prune when the first name is found incomplete. */
  function Skipped(t: Timed, pr: Pruner): Pruner
    requires pr.Scanning? && pr.todo != []
  {
    if IsOutdated(t, pr.todo[0]) && pr.complete != []
    then pr.(todo := pr.todo[1..], seen := None, doomed := pr.doomed + [pr.todo[0]])
    else pr.(todo := pr.todo[1..], seen := None)
  }

  lemma ReadShape(codec: Codec, t: Timed, p: ProcessId, pr: Pruner)
    requires AtName(t, p, pr) && pr.seen.None?
    ensures
      var m := VerifyManifest(codec, pr.todo[0], PartOf(t.world, pr.todo[0], Declaration));
      TimedShapeOf(Advance(codec, t, Step(ReadManifest(p, false)))) == TimedShapeOf(t).(pruners :=
        t.world.pruners[p := if m.Failure? then Skipped(t, pr) else pr.(seen := Some(m.value))])
  {
    hide Advance, Touched, VerifyManifest, PartOf;
    StepShape(codec, t, ReadManifest(p, false));
    Untouched(t, Act(codec, t.world, Judged(t, ReadManifest(p, false))));
  }

  lemma CheckShape(codec: Codec, t: Timed, p: ProcessId, pr: Pruner)
    requires AtName(t, p, pr) && pr.seen.Some?
    ensures
      var m := pr.seen.value;
      var bad := VerifyFile(codec, PartOf(t.world, pr.todo[0], Document), m.sizeBytes, m.sha256);
      TimedShapeOf(Advance(codec, t, Step(CheckDocument(p, false)))) == TimedShapeOf(t).(pruners :=
        t.world.pruners[p := if bad.Some? then Skipped(t, pr)
          else pr.(todo := pr.todo[1..], seen := None, complete := pr.complete + [pr.todo[0]])])
  {
    hide Advance, Touched, VerifyFile, PartOf;
    StepShape(codec, t, CheckDocument(p, false));
    Untouched(t, Act(codec, t.world, Judged(t, CheckDocument(p, false))));
  }

  lemma NothingToCheck(codec: Codec, t: Timed, p: ProcessId)
    requires Dated(t) && p in t.world.pruners && t.world.pruners[p].Scanning? && t.world.pruners[p].seen.None?
    ensures TimedShapeOf(Advance(codec, t, Step(CheckDocument(p, false)))) == TimedShapeOf(t)
  {
    hide Advance, Touched;
    StepShape(codec, t, CheckDocument(p, false));
    Untouched(t, Act(codec, t.world, Judged(t, CheckDocument(p, false))));
  }

  // ----- the scan -----

  /** The prune once the first name is judged. */
  function JudgedName(codec: Codec, t: Timed, pr: Pruner): Pruner
    requires pr.Scanning? && pr.todo != [] && Dated(t)
  {
    if CatalogStore.IsComplete(codec, EntriesOf(t), pr.todo[0])
    then pr.(todo := pr.todo[1..], complete := pr.complete + [pr.todo[0]])
    else Skipped(t, pr)
  }

  lemma TwoEvents(codec: Codec, t: Timed, a: Event, b: Event)
    ensures RunTimed(codec, t, [a, b]) == Advance(codec, Advance(codec, t, a), b)
  {
    hide Advance;
    assert [a, b][..1] == [a] && [a][..0] == [];
    assert RunTimed(codec, t, []) == t;
    assert RunTimed(codec, t, [a]) == Advance(codec, t, a);
  }

  predicate IsCatalogName(name: string) {
    StartsWith(name, FILENAME_PREFIX)
  }

  lemma CompleteInTwoSteps(codec: Codec, t: Timed, n: string)
    requires Dated(t) && n in t.world.dirs && IsCatalogName(n)
    ensures
      var m := VerifyManifest(codec, n, PartOf(t.world, n, Declaration));
      CatalogStore.IsComplete(codec, EntriesOf(t), n) <==>
        m.Success? && VerifyFile(codec, PartOf(t.world, n, Document), m.value.sizeBytes, m.value.sha256).None?
  {
    hide PartOf, VerifyManifest, VerifyFile;
  }

  lemma JudgeShape(codec: Codec, t: Timed, p: ProcessId, pr: Pruner)
    requires AtName(t, p, pr) && pr.seen.None? && IsCatalogName(pr.todo[0])
    ensures TimedShapeOf(RunTimed(codec, t, ScanOne(p))) ==
      TimedShapeOf(t).(pruners := t.world.pruners[p := JudgedName(codec, t, pr)])
  {
    hide Advance, VerifyManifest, VerifyFile, PartOf, RunTimed, IsCatalogName, EntriesOf, CatalogStore.IsComplete;
    var u := Advance(codec, t, Step(ReadManifest(p, false)));
    TwoEvents(codec, t, Step(ReadManifest(p, false)), Step(CheckDocument(p, false)));
    ReadShape(codec, t, p, pr);
    CompleteInTwoSteps(codec, t, pr.todo[0]);
    var m := VerifyManifest(codec, pr.todo[0], PartOf(t.world, pr.todo[0], Declaration));
    if m.Success? {
      CheckShape(codec, u, p, pr.(seen := Some(m.value)));
      SameContent(t.world, u.world, pr.todo[0]);
    } else {
      NothingToCheck(codec, u, p);
    }
  }

  lemma SameContent(w: World, v: World, n: string)
    requires v.dirs == w.dirs && v.files == w.files
    ensures PartOf(v, n, Document) == PartOf(w, n, Document)
  {
  }

  /** The complete names among `names`, in their order. */
  function Found(codec: Codec, entries: CatalogStore.Entries, names: seq<string>): seq<string> {
    if names == [] then []
    else
      var n := names[|names| - 1];
      Found(codec, entries, names[..|names| - 1]) + if CatalogStore.IsComplete(codec, entries, n) then [n] else []
  }

  predicate IsLate(entries: CatalogStore.Entries, now: int, n: string) {
    n in entries && entries[n].Directory? && now - entries[n].modTime >= CatalogStore.GRACE
  }

  /** The incomplete names among `names` that are late and come after a complete one. */
  function Late(codec: Codec, entries: CatalogStore.Entries, now: int, names: seq<string>): seq<string> {
    if names == [] then []
    else
      var n := names[|names| - 1];
      var before := names[..|names| - 1];
      Late(codec, entries, now, before) +
      if !CatalogStore.IsComplete(codec, entries, n) && IsLate(entries, now, n) && Found(codec, entries, before) != []
      then [n] else []
  }

  /** The prune after the first `n` names. */
  function ScannedTo(codec: Codec, t: Timed, keep: nat, listing: seq<string>, n: nat): Pruner
    requires Dated(t) && n <= |listing|
  {
    Scanning(keep, listing[n..], None, Found(codec, EntriesOf(t), listing[..n]),
      Late(codec, EntriesOf(t), t.now, listing[..n]))
  }

  lemma NextScanned(codec: Codec, t: Timed, u: Timed, keep: nat, listing: seq<string>, n: nat)
    requires Dated(t) && Dated(u) && n < |listing| && listing[n] in t.world.dirs
    requires EntriesOf(u) == EntriesOf(t) && u.now == t.now && u.modified == t.modified
    ensures JudgedName(codec, u, ScannedTo(codec, t, keep, listing, n)) == ScannedTo(codec, t, keep, listing, n + 1)
  {
    hide CatalogStore.IsComplete;
    var before, upTo := listing[..n], listing[..n + 1];
    assert upTo[..n] == before && upTo[n] == listing[n] && listing[n..][1..] == listing[n + 1..];
    assert IsLate(EntriesOf(t), t.now, listing[n]) <==> IsOutdated(u, listing[n]);
  }

  lemma SameEntries(t: Timed, u: Timed)
    requires Dated(t) && u.world.dirs == t.world.dirs && u.world.files == t.world.files && u.modified == t.modified
    ensures Dated(u) && EntriesOf(u) == EntriesOf(t)
  {
  }

  lemma {:induction false} ScanShape(codec: Codec, t: Timed, p: ProcessId, keep: nat, listing: seq<string>, n: nat)
    requires Dated(t) && n <= |listing| && forall name <- listing :: name in t.world.dirs && IsCatalogName(name)
    requires p in t.world.pruners && t.world.pruners[p] == Scanning(keep, listing, None, [], [])
    ensures TimedShapeOf(RunTimed(codec, t, ScanEvents(p, n))) ==
      TimedShapeOf(t).(pruners := t.world.pruners[p := ScannedTo(codec, t, keep, listing, n)])
  {
    hide RunTimed, IsCatalogName, EntriesOf, JudgedName, ScanOne, Found, Late;
    if n == 0 {
      NoEvents(codec, t);
      NothingScanned(codec, t, keep, listing);
    } else {
      ScanShape(codec, t, p, keep, listing, n - 1);
      var u := RunTimed(codec, t, ScanEvents(p, n - 1));
      RunSplits(codec, t, ScanEvents(p, n - 1), ScanOne(p));
      SameEntries(t, u);
      assert listing[n - 1] in listing && listing[n - 1..][0] == listing[n - 1];
      JudgeShape(codec, u, p, ScannedTo(codec, t, keep, listing, n - 1));
      NextScanned(codec, t, u, keep, listing, n - 1);
    }
  }

  lemma NoEvents(codec: Codec, t: Timed)
    ensures RunTimed(codec, t, []) == t
  {
  }

  lemma NothingScanned(codec: Codec, t: Timed, keep: nat, listing: seq<string>)
    requires Dated(t)
    ensures ScannedTo(codec, t, keep, listing, 0) == Scanning(keep, listing, None, [], [])
  {
    assert listing[0..] == listing && listing[..0] == [];
  }

  // ----- what the scan finds -----

  lemma {:induction false} FoundAre(codec: Codec, entries: CatalogStore.Entries, names: seq<string>)
    requires Descending(names)
    ensures Descending(Found(codec, entries, names))
    ensures forall n :: n in Found(codec, entries, names) <==> n in names && CatalogStore.IsComplete(codec, entries, n)
  {
    hide CatalogStore.IsComplete;
    if names != [] {
      var init, last := names[..|names| - 1], names[|names| - 1];
      FoundAre(codec, entries, init);
      forall n | n in init
        ensures Less(last, n)
      {
        var i :| 0 <= i < |init| && init[i] == n;
        assert names[i] == n;
      }
      DescendingMore(Found(codec, entries, init), last);
    }
  }

  lemma DescendingMore(names: seq<string>, n: string)
    requires Descending(names) && forall m <- names :: Less(n, m)
    ensures Descending(names + [n])
  {
  }

  lemma {:induction false} LateAre(
    codec: Codec, entries: CatalogStore.Entries, now: int, names: seq<string>, k: nat)
    requires k <= |names| && Descending(names) && forall n :: n in names <==> CatalogStore.IsGeneration(entries, n)
    ensures forall n ::
      n in Late(codec, entries, now, names[..k]) <==>
        n in names[..k] && CatalogStore.IsOutdated(codec, entries, now, n)
  {
    hide CatalogStore.IsComplete, CatalogStore.CompleteNames, CatalogStore.Newer;
    if k > 0 {
      var before := names[..k - 1];
      LateAre(codec, entries, now, names, k - 1);
      assert names[..k][..k - 1] == before;
      assert names[k - 1] in names;
      DescendingFront(names, k - 1);
      FoundAre(codec, entries, before);
      CatalogStore.EarlierIsNewer(codec, entries, names, k - 1, Found(codec, entries, before));
    }
  }

  lemma DescendingFront(names: seq<string>, k: nat)
    requires Descending(names) && k <= |names|
    ensures Descending(names[..k])
  {
  }

  lemma {:induction false} FoundAndLate(codec: Codec, entries: CatalogStore.Entries, now: int, names: seq<string>)
    ensures |Found(codec, entries, names)| + |Late(codec, entries, now, names)| <= |names|
  {
    hide CatalogStore.IsComplete;
    if names != [] {
      FoundAndLate(codec, entries, now, names[..|names| - 1]);
    }
  }

  // ----- the removal -----

  lemma EndShape(codec: Codec, t: Timed, p: ProcessId, pr: Pruner)
    requires Dated(t) && p in t.world.pruners && t.world.pruners[p] == pr && pr.Scanning? && pr.todo == []
    ensures TimedShapeOf(Advance(codec, t, Step(EndScan(p)))) ==
      TimedShapeOf(t).(pruners := t.world.pruners[p := Removing(pr.doomed + Beyond(pr))])
  {
    hide Advance, Touched, Beyond;
    StepShape(codec, t, EndScan(p));
    Untouched(t, Act(codec, t.world, EndScan(p)));
  }

  lemma UnlinkShape(codec: Codec, t: Timed, p: ProcessId, part: Part, n: string, rest: seq<string>)
    requires Dated(t) && p in t.world.pruners && t.world.pruners[p] == Removing([n] + rest)
    ensures var u := Advance(codec, t, Step(Unlink(p, part)));
      && Dated(u) && u.now == t.now && u.world.files == t.world.files && u.world.exporters == t.world.exporters
      && u.world.pruners == t.world.pruners
      && u.world.dirs - {n} == t.world.dirs - {n} && u.modified - {n} == t.modified - {n}
      && (n in u.world.dirs <==> n in t.world.dirs)
      && (n in t.world.dirs ==> u.world.dirs[n] == t.world.dirs[n].WithLink(part, None))
  {
    hide Advance;
    StepShape(codec, t, Unlink(p, part));
  }

  lemma RemoveShape(codec: Codec, t: Timed, p: ProcessId, n: string, rest: seq<string>)
    requires Dated(t) && p in t.world.pruners && t.world.pruners[p] == Removing([n] + rest)
    requires n in t.world.dirs ==> t.world.dirs[n] == Directory(None, None)
    ensures TimedShapeOf(Advance(codec, t, Step(RemoveDirectory(p)))) ==
      TimedShapeOf(t).(dirs := t.world.dirs - {n}, modified := t.modified - {n})
  {
    hide Advance;
    StepShape(codec, t, RemoveDirectory(p));
  }

  lemma NextShape(codec: Codec, t: Timed, p: ProcessId, n: string, rest: seq<string>)
    requires Dated(t) && p in t.world.pruners && t.world.pruners[p] == Removing([n] + rest)
    ensures TimedShapeOf(Advance(codec, t, Step(NextDoomed(p)))) ==
      TimedShapeOf(t).(pruners := t.world.pruners[p := Removing(rest)])
  {
    hide Advance, Touched;
    assert ([n] + rest)[1..] == rest;
    StepShape(codec, t, NextDoomed(p));
    Untouched(t, Act(codec, t.world, NextDoomed(p)));
  }

  lemma {:induction false} FourEvents(codec: Codec, t: Timed, a: Event, b: Event, c: Event, d: Event)
    ensures RunTimed(codec, t, [a, b, c, d]) ==
      Advance(codec, Advance(codec, Advance(codec, Advance(codec, t, a), b), c), d)
  {
    hide Advance, RunTimed;
    TwoEvents(codec, t, a, b);
    TwoEvents(codec, RunTimed(codec, t, [a, b]), c, d);
    RunSplits(codec, t, [a, b], [c, d]);
    assert [a, b] + [c, d] == [a, b, c, d];
  }

  /** What is left once the names are removed and `rest` is to do. */
  function LeftOver(t: Timed, p: ProcessId, gone: set<string>, rest: seq<string>): TimedShape {
    TimedShapeOf(t).(
      dirs := t.world.dirs - gone, modified := t.modified - gone, pruners := t.world.pruners[p := Removing(rest)])
  }

  lemma RemoveOneShape(codec: Codec, t: Timed, p: ProcessId, n: string, rest: seq<string>)
    requires Dated(t) && p in t.world.pruners && t.world.pruners[p] == Removing([n] + rest)
    ensures TimedShapeOf(RunTimed(codec, t, RemoveOne(p))) == LeftOver(t, p, {n}, rest)
  {
    hide Advance, RunTimed;
    var t1 := Advance(codec, t, Step(Unlink(p, Document)));
    var t2 := Advance(codec, t1, Step(Unlink(p, Declaration)));
    var t3 := Advance(codec, t2, Step(RemoveDirectory(p)));
    FourEvents(codec, t, Step(Unlink(p, Document)), Step(Unlink(p, Declaration)), Step(RemoveDirectory(p)),
      Step(NextDoomed(p)));
    UnlinkShape(codec, t, p, Document, n, rest);
    UnlinkShape(codec, t1, p, Declaration, n, rest);
    RemoveShape(codec, t2, p, n, rest);
    NextShape(codec, t3, p, n, rest);
  }

  lemma NothingToRemove(codec: Codec, t: Timed, p: ProcessId)
    requires Dated(t) && p in t.world.pruners && t.world.pruners[p] == Removing([])
    ensures TimedShapeOf(RunTimed(codec, t, RemoveOne(p))) == TimedShapeOf(t)
  {
    hide Advance, RunTimed, Touched;
    var t1 := Advance(codec, t, Step(Unlink(p, Document)));
    var t2 := Advance(codec, t1, Step(Unlink(p, Declaration)));
    var t3 := Advance(codec, t2, Step(RemoveDirectory(p)));
    FourEvents(codec, t, Step(Unlink(p, Document)), Step(Unlink(p, Declaration)), Step(RemoveDirectory(p)),
      Step(NextDoomed(p)));
    IdleShape(codec, t, p, Unlink(p, Document));
    IdleShape(codec, t1, p, Unlink(p, Declaration));
    IdleShape(codec, t2, p, RemoveDirectory(p));
    IdleShape(codec, t3, p, NextDoomed(p));
  }

  lemma IdleShape(codec: Codec, t: Timed, p: ProcessId, a: Action)
    requires Dated(t) && p in t.world.pruners && t.world.pruners[p] == Removing([])
    requires (a.Unlink? || a.RemoveDirectory? || a.NextDoomed?) && a.p == p
    ensures TimedShapeOf(Advance(codec, t, Step(a))) == TimedShapeOf(t)
  {
    hide Advance, Touched;
    StepShape(codec, t, a);
    Untouched(t, t.world);
  }

  lemma LeftOverNext(t: Timed, u: Timed, p: ProcessId, doomed: seq<string>, n: nat)
    requires n < |doomed|
    requires TimedShapeOf(u) == LeftOver(t, p, CatalogStore.Elements(doomed[..n]), doomed[n..])
    ensures LeftOver(u, p, {doomed[n]}, doomed[n + 1..])
         == LeftOver(t, p, CatalogStore.Elements(doomed[..n + 1]), doomed[n + 1..])
  {
    var gone, name := CatalogStore.Elements(doomed[..n]), doomed[n];
    assert CatalogStore.Elements(doomed[..n + 1]) == gone + {name};
    assert t.world.dirs - gone - {name} == t.world.dirs - (gone + {name});
    assert t.modified - gone - {name} == t.modified - (gone + {name});
  }

  lemma NothingLeftOver(t: Timed, p: ProcessId, doomed: seq<string>)
    requires p in t.world.pruners && t.world.pruners[p] == Removing(doomed)
    ensures LeftOver(t, p, CatalogStore.Elements(doomed[..0]), doomed[0..]) == TimedShapeOf(t)
  {
    assert doomed[0..] == doomed && CatalogStore.Elements(doomed[..0]) == {};
    assert t.world.dirs - {} == t.world.dirs && t.modified - {} == t.modified;
  }

  lemma {:induction false} RemoveAllShape(codec: Codec, t: Timed, p: ProcessId, doomed: seq<string>, n: nat)
    requires Dated(t) && p in t.world.pruners && t.world.pruners[p] == Removing(doomed)
    ensures
      var done := Min(n, |doomed|);
      TimedShapeOf(RunTimed(codec, t, RemoveEvents(p, n))) ==
        LeftOver(t, p, CatalogStore.Elements(doomed[..done]), doomed[done..])
  {
    hide RunTimed, RemoveOne, CatalogStore.Elements;
    if n == 0 {
      NoEvents(codec, t);
      NothingLeftOver(t, p, doomed);
    } else {
      RemoveAllShape(codec, t, p, doomed, n - 1);
      var u := RunTimed(codec, t, RemoveEvents(p, n - 1));
      RunSplits(codec, t, RemoveEvents(p, n - 1), RemoveOne(p));
      if n <= |doomed| {
        assert doomed[n - 1..] == [doomed[n - 1]] + doomed[n..];
        RemoveOneShape(codec, u, p, doomed[n - 1], doomed[n..]);
        LeftOverNext(t, u, p, doomed, n - 1);
      } else {
        NothingToRemove(codec, u, p);
      }
    }
  }

  // ----- the whole prune -----

  /** The listing of the directory: every name with the prefix, newest first. */
  ghost predicate IsCatalogListing(t: Timed, listing: seq<string>) {
    Descending(listing) && forall n :: n in listing <==> n in t.world.dirs && IsCatalogName(n)
  }

  /** The names that the scan chooses. */
  function Chosen(codec: Codec, t: Timed, keep: int, listing: seq<string>): seq<string>
    requires Dated(t)
  {
    var pr := ScannedTo(codec, t, CatalogStore.EffectiveKeep(keep), listing, |listing|);
    pr.doomed + Beyond(pr)
  }

  /** What the scan chooses is what the sequential prune removes. */
  lemma ChosenAreDoomed(codec: Codec, t: Timed, keep: int, listing: seq<string>)
    requires Dated(t) && IsCatalogListing(t, listing)
    ensures |Chosen(codec, t, keep, listing)| <= |listing|
    ensures forall n :: n in Chosen(codec, t, keep, listing) <==>
      CatalogStore.Doomed(codec, EntriesOf(t), CatalogStore.EffectiveKeep(keep), t.now, n)
  {
    hide CatalogStore.IsComplete, Found, Late, CatalogStore.Newer;
    var entries, kept := EntriesOf(t), CatalogStore.EffectiveKeep(keep);
    var pr := ScannedTo(codec, t, kept, listing, |listing|);
    assert listing[..|listing|] == listing;
    assert forall n :: n in listing <==> CatalogStore.IsGeneration(entries, n);
    FoundAre(codec, entries, listing);
    LateAre(codec, entries, t.now, listing, |listing|);
    FoundAndLate(codec, entries, t.now, listing);
    MembersAreComplete(codec, entries);
    CompleteIsGeneration(codec, entries);
    CatalogStore.RankedByPosition(codec, entries, pr.complete);
    CatalogStore.DoomedNames(codec, entries, kept, t.now, pr.complete, Beyond(pr));
  }

  lemma MembersAreComplete(codec: Codec, entries: CatalogStore.Entries)
    ensures forall n ::
      n in CatalogStore.CompleteNames(codec, entries) <==> CatalogStore.IsComplete(codec, entries, n)
  {
  }

  lemma CompleteIsGeneration(codec: Codec, entries: CatalogStore.Entries)
    ensures forall n | CatalogStore.IsComplete(codec, entries, n) :: CatalogStore.IsGeneration(entries, n)
  {
  }

  lemma WholePruneRuns(codec: Codec, t: Timed, p: ProcessId, keep: int, listing: seq<string>)
    ensures
      var t1 := Advance(codec, t, Step(StartPrune(p, keep, listing)));
      var t2 := RunTimed(codec, t1, ScanEvents(p, |listing|));
      var t3 := Advance(codec, t2, Step(EndScan(p)));
      RunTimed(codec, t, WholePrune(p, keep, listing)) == RunTimed(codec, t3, RemoveEvents(p, |listing|))
  {
    hide Advance, RunTimed, ScanEvents, RemoveEvents;
    var start := Step(StartPrune(p, keep, listing));
    NoEvents(codec, t);
    LastEvent(codec, t, [], start);
    assert [] + [start] == [start];
    RunSplits(codec, t, [start], ScanEvents(p, |listing|));
    LastEvent(codec, t, [start] + ScanEvents(p, |listing|), Step(EndScan(p)));
    RunSplits(codec, t, [start] + ScanEvents(p, |listing|) + [Step(EndScan(p))], RemoveEvents(p, |listing|));
  }

  /** The state when the scan has ended. */
  lemma ScannedShape(codec: Codec, t: Timed, p: ProcessId, keep: int, listing: seq<string>)
    requires Dated(t) && p !in t.world.pruners && IsCatalogListing(t, listing)
    ensures
      var t1 := Advance(codec, t, Step(StartPrune(p, keep, listing)));
      var t2 := RunTimed(codec, t1, ScanEvents(p, |listing|));
      TimedShapeOf(Advance(codec, t2, Step(EndScan(p)))) ==
        TimedShapeOf(t).(pruners := t.world.pruners[p := Removing(Chosen(codec, t, keep, listing))])
  {
    hide Advance, RunTimed, EntriesOf, IsCatalogName, Found, Late, Beyond;
    var kept := CatalogStore.EffectiveKeep(keep);
    var t1 := Advance(codec, t, Step(StartPrune(p, keep, listing)));
    StartShape(codec, t, p, keep, listing);
    ScanShape(codec, t1, p, kept, listing, |listing|);
    SameEntries(t, t1);
    EndShape(codec, RunTimed(codec, t1, ScanEvents(p, |listing|)), p, ScannedTo(codec, t1, kept, listing, |listing|));
  }

  /**
   * A prune that runs from start to end without another process between its steps leaves exactly
   * what the sequential prune leaves of the directory, and touches no export and no other prune.
   */
  lemma PruneAlone(codec: Codec, t: Timed, p: ProcessId, keep: int, listing: seq<string>)
    requires Dated(t) && p !in t.world.pruners && IsCatalogListing(t, listing)
    ensures
      var u := RunTimed(codec, t, WholePrune(p, keep, listing));
      && Dated(u) && EntriesOf(u) == CatalogStore.PruneOf(codec, EntriesOf(t), keep, t.now)
      && u.now == t.now && u.world.exporters == t.world.exporters
      && u.world.pruners == t.world.pruners[p := Removing([])]
  {
    hide Advance, RunTimed, EntriesOf, CatalogStore.PruneOf, CatalogStore.Elements, Chosen, IsCatalogListing;
    var t1 := Advance(codec, t, Step(StartPrune(p, keep, listing)));
    var t3 := Advance(codec, RunTimed(codec, t1, ScanEvents(p, |listing|)), Step(EndScan(p)));
    var doomed := Chosen(codec, t, keep, listing);
    WholePruneRuns(codec, t, p, keep, listing);
    ScannedShape(codec, t, p, keep, listing);
    RemoveAllShape(codec, t3, p, doomed, |listing|);
    ChosenAreDoomed(codec, t, keep, listing);
    assert doomed[..|doomed|] == doomed && doomed[|doomed|..] == [];
    Remaining(codec, t, RunTimed(codec, t3, RemoveEvents(p, |listing|)), keep, doomed);
  }

  lemma Remaining(codec: Codec, t: Timed, u: Timed, keep: int, doomed: seq<string>)
    requires Dated(t) && u.world.files == t.world.files
    requires u.world.dirs == t.world.dirs - CatalogStore.Elements(doomed)
    requires u.modified == t.modified - CatalogStore.Elements(doomed)
    requires forall n :: n in doomed <==>
      CatalogStore.Doomed(codec, EntriesOf(t), CatalogStore.EffectiveKeep(keep), t.now, n)
    ensures Dated(u) && EntriesOf(u) == CatalogStore.PruneOf(codec, EntriesOf(t), keep, t.now)
  {
    hide CatalogStore.Doomed;
  }

  // ----- in any run -----

  lemma {:induction false} RunsAreDated(codec: Codec, now: int, events: seq<Event>)
    ensures Dated(RunTimed(codec, StartAt(now), events))
  {
    hide Next, Judged;
    if events != [] {
      RunsAreDated(codec, now, events[..|events| - 1]);
    }
  }

  /** Whatever exports and prunes did before, and wherever they stand. */
  lemma PruneAloneInAnyRun(codec: Codec, now: int, events: seq<Event>, p: ProcessId, keep: int, listing: seq<string>)
    requires
      var t := RunTimed(codec, StartAt(now), events);
      p !in t.world.pruners && IsCatalogListing(t, listing)
    ensures
      var t := RunTimed(codec, StartAt(now), events);
      var u := RunTimed(codec, StartAt(now), events + WholePrune(p, keep, listing));
      Dated(t) && Dated(u) && EntriesOf(u) == CatalogStore.PruneOf(codec, EntriesOf(t), keep, t.now)
  {
    hide RunTimed, EntriesOf, CatalogStore.PruneOf, WholePrune, IsCatalogListing;
    RunsAreDated(codec, now, events);
    RunSplits(codec, StartAt(now), events, WholePrune(p, keep, listing));
    PruneAlone(codec, RunTimed(codec, StartAt(now), events), p, keep, listing);
  }
}
