/**
 * Runs in which selection finds nothing although a generation is complete in every state of them:
 * the only name it listed is pruned, behind newer generations that it did not list, before it
 * comes to verify it. The prune keeps `k` generations, and just `k` newer ones are completed.
 */
module PublishExample {
  import opened Common
  import opened Names
  import opened Manifest
  import opened PublishProtocol
  import opened PublishTheorems
  import opened PublishKeep
  import opened PublishSelection
  import CatalogStore

  lemma RunStep(codec: Codec, w: World, steps: seq<Action>, a: Action)
    ensures Run(codec, w, steps + [a]) == Next(codec, Run(codec, w, steps), a)
  {
    assert (steps + [a])[..|steps|] == steps;
  }

  lemma {:induction false} RunConcat(codec: Codec, w: World, a: seq<Action>, b: seq<Action>)
    ensures Run(codec, w, a + b) == Run(codec, Run(codec, w, a), b)
  {
    hide Next;
    if b == [] {
      assert a + b == a;
    } else {
      RunConcat(codec, w, a, b[..|b| - 1]);
      assert (a + b)[..|a + b| - 1] == a + b[..|b| - 1];
    }
  }

  /** The generation `name` is there, whole, in the files `f` and `g`. */
  ghost predicate IsExport(codec: Codec, w: World, name: string, job: Job, f: FileId, g: FileId) {
    && name in w.dirs && w.dirs[name] == Directory(Some(f), Some(g)) && f != g
    && f in w.files && w.files[f] == job.document
    && g in w.files && w.files[g] == codec.encode(ManifestFor(codec, name, job))
  }

  lemma ExportVerifies(codec: Codec, w: World, name: string, job: Job, f: FileId, g: FileId)
    requires Lawful(codec) && Readable(job) && IsExport(codec, w, name, job, f, g)
    ensures Verifies(codec, w, name)
    ensures var m := ManifestFor(codec, name, job);
      && VerifyManifest(codec, name, PartOf(w, name, Declaration)) == Success(m)
      && VerifyFile(codec, PartOf(w, name, Document), m.sizeBytes, m.sha256) == None
  {
    assert w.dirs[name].Link(Document) == Some(f) && w.dirs[name].Link(Declaration) == Some(g);
    PublishedIsComplete(codec, name, job);
    assert codec.parse(codec.encode(ManifestFor(codec, name, job))) == Some(ManifestFor(codec, name, job));
  }

  /** A state without its history. */
  datatype Shape = Shape(dirs: map<string, Directory>, files: map<FileId, Bytes>,
    exporters: map<ProcessId, Exporter>, pruners: map<ProcessId, Pruner>)

  function ShapeOf(w: World): Shape {
    Shape(w.dirs, w.files, w.exporters, w.pruners)
  }

  lemma NextShape(codec: Codec, w: World, a: Action)
    ensures ShapeOf(Next(codec, w, a)) == ShapeOf(Act(codec, w, a))
  {
    hide Act, Verifies;
  }

  // ----- an undisturbed export -----

  predicate OfExport(a: Action) {
    a.Reserve? || a.Open? || a.WriteChunk? || a.Close?
  }

  lemma OpenShape(codec: Codec, w: World, p: ProcessId, f: FileId)
    requires p in w.exporters && w.exporters[p].phase.Ready? && f !in w.files
    requires w.exporters[p].name in w.dirs && w.dirs[w.exporters[p].name].Link(w.exporters[p].phase.part) == None
    ensures
      var e := w.exporters[p];
      ShapeOf(Next(codec, w, Open(p, f))) == Shape(
        w.dirs[e.name := w.dirs[e.name].WithLink(e.phase.part, Some(f))], w.files[f := []],
        w.exporters[p := e.(phase := Writing(e.phase.part, f, 0))], w.pruners)
  {
    NextShape(codec, w, Open(p, f));
  }

  lemma WriteShape(codec: Codec, w: World, p: ProcessId)
    requires p in w.exporters && w.exporters[p].phase.Writing? && w.exporters[p].phase.written == 0
    requires w.exporters[p].phase.file in w.files && w.files[w.exporters[p].phase.file] == []
    ensures
      var e := w.exporters[p];
      var all := Payload(codec, e, e.phase.part);
      ShapeOf(Next(codec, w, WriteChunk(p, |all|))) == Shape(
        w.dirs, w.files[e.phase.file := all], w.exporters[p := e.(phase := Writing(e.phase.part, e.phase.file, |all|))],
        w.pruners)
  {
    hide Payload;
    var e := w.exporters[p];
    var all := Payload(codec, e, e.phase.part);
    NextShape(codec, w, WriteChunk(p, |all|));
    assert all[0..0 + |all|] == all && WriteAt([], 0, all) == all;
  }

  lemma CloseShape(codec: Codec, w: World, p: ProcessId)
    requires p in w.exporters && w.exporters[p].phase.Writing?
    requires w.exporters[p].phase.written == |Payload(codec, w.exporters[p], w.exporters[p].phase.part)|
    ensures
      var e := w.exporters[p];
      ShapeOf(Next(codec, w, Close(p))) == Shape(w.dirs, w.files,
        if e.phase.part.Document? then w.exporters[p := e.(phase := Ready(Declaration))] else w.exporters - {p},
        w.pruners)
  {
    NextShape(codec, w, Close(p));
  }

  /** One file of an export: opened, written and closed. */
  lemma FileShape(codec: Codec, w: World, p: ProcessId, f: FileId) returns (steps: seq<Action>)
    requires p in w.exporters && w.exporters[p].phase.Ready? && f !in w.files
    requires w.exporters[p].name in w.dirs && w.dirs[w.exporters[p].name].Link(w.exporters[p].phase.part) == None
    ensures
      var e := w.exporters[p];
      ShapeOf(Run(codec, w, steps)) == Shape(
        w.dirs[e.name := w.dirs[e.name].WithLink(e.phase.part, Some(f))], w.files[f := Payload(codec, e, e.phase.part)],
        if e.phase.part.Document? then w.exporters[p := e.(phase := Ready(Declaration))] else w.exporters - {p},
        w.pruners)
    ensures forall a <- steps :: a.Open? || a.WriteChunk? || a.Close?
  {
    hide Next, Payload, Run;
    var e := w.exporters[p];
    var size := |Payload(codec, e, e.phase.part)|;
    SamePayload(codec, e, Writing(e.phase.part, f, 0));
    SamePayload(codec, e, Writing(e.phase.part, f, size));
    var v := Next(codec, w, Open(p, f));
    OpenShape(codec, w, p, f);
    WriteShape(codec, v, p);
    var u := Next(codec, v, WriteChunk(p, size));
    CloseShape(codec, u, p);
    steps := [Open(p, f), WriteChunk(p, size), Close(p)];
    RunThree(codec, w, Open(p, f), WriteChunk(p, size), Close(p));
  }

  lemma RunThree(codec: Codec, w: World, a: Action, b: Action, c: Action)
    ensures Run(codec, w, [a, b, c]) == Next(codec, Next(codec, Next(codec, w, a), b), c)
  {
    hide Next, Run;
    RunNothing(codec, w);
    RunStep(codec, w, [], a);
    RunStep(codec, w, [a], b);
    RunStep(codec, w, [a, b], c);
    assert [] + [a] == [a] && [a] + [b] == [a, b] && [a, b] + [c] == [a, b, c];
  }

  lemma SamePayload(codec: Codec, e: Exporter, phase: Phase)
    ensures forall part :: Payload(codec, e.(phase := phase), part) == Payload(codec, e, part)
  {
  }

  /** All steps of one export. */
  lemma ExportShape(codec: Codec, w: World, p: ProcessId, name: string, job: Job, f: FileId, g: FileId)
      returns (steps: seq<Action>)
    requires p !in w.exporters && name !in w.dirs && f !in w.files && g !in w.files && f != g
    ensures ShapeOf(Run(codec, w, steps)) == Shape(
      w.dirs[name := Directory(Some(f), Some(g))],
      w.files[f := job.document][g := codec.encode(ManifestFor(codec, name, job))], w.exporters, w.pruners)
    ensures forall a <- steps :: OfExport(a) && (a.Reserve? ==> a.name == name)
  {
    hide Next, Run, ManifestFor;
    var reserve := Reserve(p, name, job);
    var e := Exporter(name, job, Ready(Document));
    var v := Next(codec, w, reserve);
    NextShape(codec, w, reserve);
    assert v.dirs[name].Link(Document) == None;
    var first := FileShape(codec, v, p, f);
    var u := Run(codec, v, first);
    assert u.dirs[name] == Directory(Some(f), None);
    assert u.dirs[name].Link(Declaration) == None;
    var second := FileShape(codec, u, p, g);
    assert u.dirs[name].WithLink(Declaration, Some(g)) == Directory(Some(f), Some(g));
    steps := [reserve] + first + second;
    RunStep(codec, w, [], reserve);
    RunNothing(codec, w);
    assert [] + [reserve] == [reserve];
    RunConcat(codec, w, [reserve], first);
    RunConcat(codec, w, [reserve] + first, second);
    assert u.exporters - {p} == w.exporters;
  }

  lemma RunNothing(codec: Codec, w: World)
    ensures Run(codec, w, []) == w
  {
  }

  // ----- a prune that keeps one of two generations -----

  lemma ReadShape(codec: Codec, w: World, p: ProcessId, job: Job, f: FileId, g: FileId)
    requires Lawful(codec) && Readable(job) && p in w.pruners
    requires
      var pr := w.pruners[p];
      pr.Scanning? && pr.seen.None? && pr.todo != [] && IsExport(codec, w, pr.todo[0], job, f, g)
    ensures
      var pr := w.pruners[p];
      ShapeOf(Next(codec, w, ReadManifest(p, false))) ==
      ShapeOf(w).(pruners := w.pruners[p := pr.(seen := Some(ManifestFor(codec, pr.todo[0], job)))])
  {
    hide IsExport, Lawful, VerifyManifest, VerifyFile, PartOf, ManifestFor;
    NextShape(codec, w, ReadManifest(p, false));
    ExportVerifies(codec, w, w.pruners[p].todo[0], job, f, g);
  }

  lemma CheckShape(codec: Codec, w: World, p: ProcessId, job: Job, f: FileId, g: FileId)
    requires Lawful(codec) && Readable(job) && p in w.pruners
    requires
      var pr := w.pruners[p];
      && pr.Scanning? && pr.todo != [] && IsExport(codec, w, pr.todo[0], job, f, g)
      && pr.seen == Some(ManifestFor(codec, pr.todo[0], job))
    ensures
      var pr := w.pruners[p];
      ShapeOf(Next(codec, w, CheckDocument(p, false))) ==
      ShapeOf(w).(pruners :=
        w.pruners[p := pr.(todo := pr.todo[1..], seen := None, complete := pr.complete + [pr.todo[0]])])
  {
    hide IsExport, Lawful, VerifyManifest, VerifyFile, PartOf, ManifestFor;
    NextShape(codec, w, CheckDocument(p, false));
    ExportVerifies(codec, w, w.pruners[p].todo[0], job, f, g);
  }

  /** One name is found complete. */
  lemma ScanShape(codec: Codec, w: World, p: ProcessId, job: Job, f: FileId, g: FileId)
    requires Lawful(codec) && Readable(job) && p in w.pruners
    requires
      var pr := w.pruners[p];
      pr.Scanning? && pr.seen.None? && pr.todo != [] && IsExport(codec, w, pr.todo[0], job, f, g)
    ensures
      var pr := w.pruners[p];
      ShapeOf(Run(codec, w, [ReadManifest(p, false), CheckDocument(p, false)])) ==
      ShapeOf(w).(pruners := w.pruners[p := pr.(todo := pr.todo[1..], complete := pr.complete + [pr.todo[0]])])
  {
    hide Lawful, Next, Run, ManifestFor;
    RunNothing(codec, w);
    ReadShape(codec, w, p, job, f, g);
    var v := Next(codec, w, ReadManifest(p, false));
    assert IsExport(codec, v, v.pruners[p].todo[0], job, f, g);
    CheckShape(codec, v, p, job, f, g);
    RunStep(codec, w, [], ReadManifest(p, false));
    RunStep(codec, w, [ReadManifest(p, false)], CheckDocument(p, false));
    assert [] + [ReadManifest(p, false)] == [ReadManifest(p, false)];
    assert [ReadManifest(p, false)] + [CheckDocument(p, false)] == [ReadManifest(p, false), CheckDocument(p, false)];
  }

  lemma StartShape(codec: Codec, w: World, p: ProcessId, k: nat, names: seq<string>)
    requires p !in w.pruners && Descending(names) && k > 0
    ensures ShapeOf(Next(codec, w, StartPrune(p, k, names))) ==
      ShapeOf(w).(pruners := w.pruners[p := Scanning(k, names, None, [], [])])
  {
    NextShape(codec, w, StartPrune(p, k, names));
  }

  lemma EndShape(codec: Codec, w: World, p: ProcessId, k: nat, names: seq<string>)
    requires p in w.pruners && |names| == k + 1 && w.pruners[p] == Scanning(k, [], None, names, [])
    ensures ShapeOf(Next(codec, w, EndScan(p))) == ShapeOf(w).(pruners := w.pruners[p := Removing([names[k]])])
  {
    NextShape(codec, w, EndScan(p));
    assert names[k..] == [names[k]] && [] + [names[k]] == [names[k]];
  }

  lemma UnlinkShape(codec: Codec, w: World, p: ProcessId, name: string)
    requires p in w.pruners && w.pruners[p] == Removing([name]) && name in w.dirs
    ensures ShapeOf(Next(codec, w, Unlink(p, Document))) ==
      ShapeOf(w).(dirs := w.dirs[name := w.dirs[name].WithLink(Document, None)])
  {
    NextShape(codec, w, Unlink(p, Document));
  }

  // ----- several generations -----

  /** The names are there, each exported whole, and nothing is under way. */
  ghost predicate Published(codec: Codec, w: World, names: seq<string>, jobs: seq<Job>) {
    && |names| == |jobs| && w.exporters == map[] && w.pruners == map[]
    && (forall n :: n in w.dirs <==> n in names)
    && (forall i | 0 <= i < |names| :: IsExport(codec, w, names[i], jobs[i], 2 * i, 2 * i + 1))
    && (forall f <- w.files :: f < 2 * |names|)
  }

  lemma PublishOne(codec: Codec, w: World, names: seq<string>, jobs: seq<Job>, name: string, job: Job)
    returns (steps: seq<Action>)
    requires Published(codec, w, names, jobs) && name !in names
    ensures Published(codec, Run(codec, w, steps), names + [name], jobs + [job])
    ensures forall a <- steps :: OfExport(a) && (a.Reserve? ==> a.name == name)
  {
    hide Run, ManifestFor;
    var f := 2 * |names|;
    steps := ExportShape(codec, w, 0, name, job, f, f + 1);
    var v := Run(codec, w, steps);
    forall i | 0 <= i < |names| + 1
      ensures IsExport(codec, v, (names + [name])[i], (jobs + [job])[i], 2 * i, 2 * i + 1)
    {
      if i < |names| {
        assert IsExport(codec, w, names[i], jobs[i], 2 * i, 2 * i + 1);
      }
    }
  }

  /** The names from `i` on are exported one after the other. */
  lemma {:induction false} PublishRest(codec: Codec, w: World, names: seq<string>, jobs: seq<Job>, i: nat)
    returns (steps: seq<Action>)
    requires |names| == |jobs| && i <= |names| && Ascending(names)
    requires Published(codec, w, names[..i], jobs[..i])
    ensures Published(codec, Run(codec, w, steps), names, jobs)
    ensures forall a <- steps :: OfExport(a) && (a.Reserve? ==> a.name in names)
    decreases |names| - i
  {
    hide Run, Published, Less;
    if i == |names| {
      assert names[..i] == names && jobs[..i] == jobs;
      steps := [];
      RunNothing(codec, w);
    } else {
      NotBefore(names, i);
      var first := PublishOne(codec, w, names[..i], jobs[..i], names[i], jobs[i]);
      assert names[..i] + [names[i]] == names[..i + 1] && jobs[..i] + [jobs[i]] == jobs[..i + 1];
      var rest := PublishRest(codec, Run(codec, w, first), names, jobs, i + 1);
      steps := first + rest;
      RunConcat(codec, w, first, rest);
    }
  }

  lemma NotBefore(names: seq<string>, i: nat)
    requires Ascending(names) && i < |names|
    ensures names[i] !in names[..i]
  {
    LessIrreflexive(names[i]);
  }

  // ----- a prune of them -----

  function Backwards(names: seq<string>): (r: seq<string>)
    ensures |r| == |names|
  {
    seq(|names|, i requires 0 <= i < |names| => names[|names| - 1 - i])
  }

  /** The steps that find `n` names complete. */
  function Scans(p: ProcessId, n: nat): seq<Action> {
    if n == 0 then [] else Scans(p, n - 1) + [ReadManifest(p, false), CheckDocument(p, false)]
  }

  lemma {:induction false} ScansShape(
    codec: Codec, w: World, p: ProcessId, k: nat, names: seq<string>, jobs: seq<Job>, n: nat)
    requires Lawful(codec) && |names| == |jobs| && n <= |names|
    requires forall i | 0 <= i < |names| :: Readable(jobs[i]) && IsExport(codec, w, names[i], jobs[i], 2 * i, 2 * i + 1)
    requires p in w.pruners && w.pruners[p] == Scanning(k, Backwards(names), None, [], [])
    ensures ShapeOf(Run(codec, w, Scans(p, n))) ==
      ShapeOf(w).(pruners := w.pruners[p := Scanning(k, Backwards(names)[n..], None, Backwards(names)[..n], [])])
  {
    hide Lawful, Run, Readable, ManifestFor;
    var all := Backwards(names);
    if n == 0 {
      RunNothing(codec, w);
      assert all[0..] == all && all[..0] == [];
      assert w.pruners[p := w.pruners[p]] == w.pruners;
    } else {
      ScansShape(codec, w, p, k, names, jobs, n - 1);
      var v := Run(codec, w, Scans(p, n - 1));
      var i := |names| - n;
      assert all[n - 1..][0] == names[i] && IsExport(codec, w, names[i], jobs[i], 2 * i, 2 * i + 1);
      ScanShape(codec, v, p, jobs[i], 2 * i, 2 * i + 1);
      assert all[n - 1..][1..] == all[n..] && all[..n - 1] + [names[i]] == all[..n];
      RunConcat(codec, w, Scans(p, n - 1), [ReadManifest(p, false), CheckDocument(p, false)]);
    }
  }

  /** The steps of a prune that keeps `k`, up to the removal of the oldest document. */
  function PruneSteps(p: ProcessId, k: nat, names: seq<string>): seq<Action> {
    [StartPrune(p, k, Backwards(names))] + Scans(p, |names|) + [EndScan(p)] + [Unlink(p, Document)]
  }

  lemma {:induction false} ScansOnly(p: ProcessId, n: nat)
    ensures forall a <- Scans(p, n) :: a == ReadManifest(p, false) || a == CheckDocument(p, false)
  {
    if n > 0 {
      ScansOnly(p, n - 1);
    }
  }

  lemma BackwardsDescends(names: seq<string>)
    requires Ascending(names)
    ensures Descending(Backwards(names))
    ensures forall n :: n in Backwards(names) <==> n in names
  {
    hide Less;
    forall n | n in names
      ensures n in Backwards(names)
    {
      var i :| 0 <= i < |names| && names[i] == n;
      assert Backwards(names)[|names| - 1 - i] == n;
    }
  }

  lemma PruneRun(codec: Codec, w: World, p: ProcessId, k: nat, names: seq<string>)
    ensures
      var v := Run(codec, Next(codec, w, StartPrune(p, k, Backwards(names))), Scans(p, |names|));
      Run(codec, w, PruneSteps(p, k, names)) == Next(codec, Next(codec, v, EndScan(p)), Unlink(p, Document))
  {
    hide Next, Run, Scans, Backwards;
    var start := StartPrune(p, k, Backwards(names));
    RunNothing(codec, w);
    RunStep(codec, w, [], start);
    assert [] + [start] == [start];
    RunConcat(codec, w, [start], Scans(p, |names|));
    RunStep(codec, w, [start] + Scans(p, |names|), EndScan(p));
    RunStep(codec, w, [start] + Scans(p, |names|) + [EndScan(p)], Unlink(p, Document));
  }

  lemma NoPruner(codec: Codec, w: World, names: seq<string>, jobs: seq<Job>, p: ProcessId)
    requires Published(codec, w, names, jobs)
    ensures p !in w.pruners && |names| == |jobs|
  {
  }

  lemma SameExport(codec: Codec, w: World, v: World, names: seq<string>, jobs: seq<Job>, i: nat)
    requires Published(codec, w, names, jobs) && i < |names|
    requires v.dirs == w.dirs && v.files == w.files
    ensures IsExport(codec, v, names[i], jobs[i], 2 * i, 2 * i + 1)
  {
    assert IsExport(codec, w, names[i], jobs[i], 2 * i, 2 * i + 1);
  }

  /** A prune finds all names complete. */
  lemma ScannedShape(codec: Codec, w: World, p: ProcessId, k: nat, names: seq<string>, jobs: seq<Job>)
    requires Lawful(codec) && Published(codec, w, names, jobs) && Ascending(names) && k > 0
    requires forall j <- jobs :: Readable(j)
    ensures ShapeOf(Run(codec, Next(codec, w, StartPrune(p, k, Backwards(names))), Scans(p, |names|))) ==
      ShapeOf(w).(pruners := w.pruners[p := Scanning(k, [], None, Backwards(names), [])])
  {
    hide Lawful, Next, Run, Readable, Less, Scans, IsExport, Published, Ascending, Descending;
    var all := Backwards(names);
    BackwardsDescends(names);
    NoPruner(codec, w, names, jobs, p);
    StartShape(codec, w, p, k, all);
    var v := Next(codec, w, StartPrune(p, k, all));
    forall i | 0 <= i < |names|
      ensures Readable(jobs[i]) && IsExport(codec, v, names[i], jobs[i], 2 * i, 2 * i + 1)
    {
      assert jobs[i] in jobs;
      SameExport(codec, w, v, names, jobs, i);
    }
    ScansShape(codec, v, p, k, names, jobs, |names|);
    assert all[|names|..] == [] && all[..|names|] == all;
  }

  lemma PruneShape(codec: Codec, w: World, p: ProcessId, k: nat, names: seq<string>, jobs: seq<Job>)
    requires Lawful(codec) && Published(codec, w, names, jobs) && Ascending(names) && |names| == k + 1 > 1
    requires forall j <- jobs :: Readable(j)
    ensures ShapeOf(Run(codec, w, PruneSteps(p, k, names))) ==
      ShapeOf(w).(dirs := w.dirs[names[0] := Directory(None, Some(1))], pruners := w.pruners[p := Removing([names[0]])])
  {
    hide Lawful, Next, Run, Readable, ManifestFor, Less, Scans, PruneSteps, Published, Ascending;
    var all := Backwards(names);
    ScannedShape(codec, w, p, k, names, jobs);
    var v := Run(codec, Next(codec, w, StartPrune(p, k, all)), Scans(p, |names|));
    EndShape(codec, v, p, k, all);
    FirstIsExport(codec, w, names, jobs);
    UnlinkShape(codec, Next(codec, v, EndScan(p)), p, names[0]);
    PruneRun(codec, w, p, k, names);
  }

  lemma FirstIsExport(codec: Codec, w: World, names: seq<string>, jobs: seq<Job>)
    requires Published(codec, w, names, jobs) && names != []
    ensures IsExport(codec, w, names[0], jobs[0], 0, 1)
  {
    assert IsExport(codec, w, names[0], jobs[0], 2 * 0, 2 * 0 + 1);
  }

  // ----- selection meanwhile -----

  function Others(steps: seq<Action>): seq<Move> {
    seq(|steps|, i requires 0 <= i < |steps| => Other(steps[i]))
  }

  lemma MoveStep(codec: Codec, v: View, moves: seq<Move>, m: Move)
    ensures Moves(codec, v, moves + [m]) == MoveOn(codec, Moves(codec, v, moves), m)
  {
    assert (moves + [m])[..|moves|] == moves;
  }

  lemma {:induction false} OtherMoves(codec: Codec, v: View, steps: seq<Action>)
    ensures Moves(codec, v, Others(steps)) == v.(world := Run(codec, v.world, steps))
  {
    hide Next;
    if steps != [] {
      OtherMoves(codec, v, steps[..|steps| - 1]);
      assert Others(steps)[..|steps| - 1] == Others(steps[..|steps| - 1]);
    }
  }

  /** What is left of the pruned generation: its manifest still reads, its document is gone. */
  lemma PrunedFails(codec: Codec, w: World, name: string, job: Job, i: FileId)
    requires Lawful(codec) && Readable(job)
    requires name in w.dirs && w.dirs[name] == Directory(None, Some(i))
    requires i in w.files && w.files[i] == codec.encode(ManifestFor(codec, name, job))
    ensures VerifyManifest(codec, name, PartOf(w, name, Declaration)) == Success(ManifestFor(codec, name, job))
    ensures PartOf(w, name, Document) == None && !Verifies(codec, w, name)
  {
    assert w.dirs[name].Link(Document) == None && w.dirs[name].Link(Declaration) == Some(i);
    assert codec.parse(codec.encode(ManifestFor(codec, name, job))) == Some(ManifestFor(codec, name, job));
  }

  lemma NothingIsFound(codec: Codec, v: View, moves: seq<Move>, name: string, job: Job, i: FileId)
    requires Lawful(codec) && Readable(job)
    requires
      var View(w, s) := Moves(codec, v, moves);
      && s == Looking([name], None) && name in w.dirs && w.dirs[name] == Directory(None, Some(i))
      && i in w.files && w.files[i] == codec.encode(ManifestFor(codec, name, job))
    ensures
      Moves(codec, v, moves + [SeeManifest] + [SeeDocument] + [SeeManifest]) ==
          View(Moves(codec, v, moves).world, NothingFound)
  {
    hide Lawful, Moves, PartOf, VerifyManifest, ManifestFor;
    var w := Moves(codec, v, moves).world;
    PrunedFails(codec, w, name, job, i);
    MoveStep(codec, v, moves, SeeManifest);
    MoveStep(codec, v, moves + [SeeManifest], SeeDocument);
    MoveStep(codec, v, moves + [SeeManifest] + [SeeDocument], SeeManifest);
    assert [name][1..] == [];
  }

  // ----- what the history can hold -----

  /** The steps concern only these names, and prunes keep exactly `k`. */
  ghost predicate StepsWithin(steps: seq<Action>, names: set<string>, k: nat) {
    forall a <- steps :: StepWithin(a, names, k)
  }

  predicate StepWithin(a: Action, names: set<string>, k: nat) {
    && (a.Reserve? ==> a.name in names)
    && (a.StartPrune? ==> a.keep == k && CatalogStore.Elements(a.listing) <= names)
  }

  ghost predicate PrunerWithin(pr: Pruner, names: set<string>) {
    match pr
    case Scanning(_, todo, _, complete, doomed) =>
      CatalogStore.Elements(todo) <= names && CatalogStore.Elements(complete) <= names
    case Removing(_) => true
  }

  ghost predicate Within(w: World, names: set<string>) {
    && w.dirs.Keys <= names && w.history.verified <= names && w.history.doomed <= names
    && forall p <- w.pruners :: PrunerWithin(w.pruners[p], names)
  }

  lemma DirsWithin(codec: Codec, w: World, a: Action, names: set<string>)
    requires w.dirs.Keys <= names && (a.Reserve? ==> a.name in names)
    ensures Act(codec, w, a).dirs.Keys <= names
  {
    hide DoReadManifest, DoCheckDocument, DoEndScan, DoStartPrune, DoNextDoomed, DoCrash, Payload, WriteAt;
    if a.ReadManifest? || a.CheckDocument? || a.EndScan? {
      ScanChangesNothing(codec, w, a);
    } else if a.StartPrune? || a.NextDoomed? || a.Crash? {
      OtherPruneDirs(codec, w, a);
    }
  }

  lemma OtherPruneDirs(codec: Codec, w: World, a: Action)
    requires a.StartPrune? || a.NextDoomed? || a.Crash?
    ensures Act(codec, w, a).dirs == w.dirs
  {
  }

  lemma ReadWithin(codec: Codec, w: World, a: Action, p: ProcessId, names: set<string>)
    requires a.ReadManifest?
    requires p in Act(codec, w, a).pruners && p in w.pruners && PrunerWithin(w.pruners[p], names)
    ensures PrunerWithin(Act(codec, w, a).pruners[p], names)
  {
    hide VerifyManifest, VerifyFile, PartOf;
  }

  lemma CheckWithin(codec: Codec, w: World, a: Action, p: ProcessId, names: set<string>)
    requires a.CheckDocument?
    requires p in Act(codec, w, a).pruners && p in w.pruners && PrunerWithin(w.pruners[p], names)
    ensures PrunerWithin(Act(codec, w, a).pruners[p], names)
  {
    hide VerifyFile, PartOf;
  }

  lemma PrunersWithin(codec: Codec, w: World, a: Action, p: ProcessId, names: set<string>, k: nat)
    requires StepWithin(a, names, k) && p in Act(codec, w, a).pruners
    requires p in w.pruners ==> PrunerWithin(w.pruners[p], names)
    ensures PrunerWithin(Act(codec, w, a).pruners[p], names)
  {
    if a.ReadManifest? {
      ScanStarted(codec, w, a, p);
      ReadWithin(codec, w, a, p, names);
    } else if a.CheckDocument? {
      ScanStarted(codec, w, a, p);
      CheckWithin(codec, w, a, p, names);
    } else {
      hide DoReadManifest, DoCheckDocument, Payload, WriteAt;
    }
  }

  lemma ScanStarted(codec: Codec, w: World, a: Action, p: ProcessId)
    requires (a.ReadManifest? || a.CheckDocument?) && p in Act(codec, w, a).pruners
    ensures p in w.pruners
  {
    hide VerifyManifest, VerifyFile, PartOf;
  }

  lemma DoomedWithin(codec: Codec, w: World, a: Action, n: string, names: set<string>)
    requires Within(w, names) && DoomedBy(codec, w, a, n)
    ensures n in names
  {
    var pr := w.pruners[a.p];
    assert PrunerWithin(pr, names);
    if a.EndScan? {
      var i :| 0 <= i < |Beyond(pr)| && Beyond(pr)[i] == n;
      assert pr.complete[pr.keep + i] == n;
    }
  }

  lemma ActWithin(codec: Codec, w: World, a: Action, names: set<string>, k: nat)
    requires Within(w, names) && StepWithin(a, names, k)
    ensures Within(Act(codec, w, a), names)
  {
    hide Act, PrunerWithin, DoomedBy;
    var v := Act(codec, w, a);
    DirsWithin(codec, w, a, names);
    ActKeepsVerified(codec, w, a);
    forall p <- v.pruners
      ensures PrunerWithin(v.pruners[p], names)
    {
      PrunersWithin(codec, w, a, p, names, k);
    }
    forall n <- v.history.doomed
      ensures n in names
    {
      if n !in w.history.doomed {
        HowDoomed(codec, w, a, n);
        DoomedWithin(codec, w, a, n, names);
      }
    }
  }

  lemma NextWithin(codec: Codec, w: World, a: Action, names: set<string>, k: nat)
    requires Within(w, names) && StepWithin(a, names, k)
    ensures Within(Next(codec, w, a), names)
  {
    hide Act, Verifies, PrunerWithin;
    ActWithin(codec, w, a, names, k);
  }

  lemma {:induction false} RunWithin(codec: Codec, steps: seq<Action>, names: set<string>, k: nat)
    requires StepsWithin(steps, names, k)
    ensures Within(Run(codec, EMPTY, steps), names)
  {
    hide Next;
    if steps != [] {
      hide Within;
      RunWithin(codec, steps[..|steps| - 1], names, k);
      NextWithin(codec, Run(codec, EMPTY, steps[..|steps| - 1]), steps[|steps| - 1], names, k);
    }
  }

  /** The one generation of a catalog that verifies is what selection finds in it. */
  lemma OnlyOne(codec: Codec, w: World, name: string)
    requires Verifies(codec, w, name) && forall n <- w.dirs :: n == name || !Verifies(codec, w, n)
    ensures IsSelected(codec, w, name)
  {
    hide Complete;
  }

  lemma OldestIsListed(codec: Codec, w: World, names: seq<string>, jobs: seq<Job>)
    requires Lawful(codec) && Published(codec, w, names, jobs) && |names| == 1 && Readable(jobs[0])
    ensures IsListing(w, names) && IsSelected(codec, w, names[0])
  {
    hide Verifies, IsExport, Lawful;
    assert IsExport(codec, w, names[0], jobs[0], 2 * 0, 2 * 0 + 1);
    ExportVerifies(codec, w, names[0], jobs[0], 0, 1);
    OnlyOne(codec, w, names[0]);
  }

  /** With the oldest one pruned, the other names verify and the last of them is the newest. */
  lemma NewestIsSelected(codec: Codec, was: World, w: World, names: seq<string>, jobs: seq<Job>)
    requires Lawful(codec) && Published(codec, was, names, jobs) && Ascending(names) && |names| > 1
    requires forall j <- jobs :: Readable(j)
    requires w.files == was.files && w.dirs == was.dirs[names[0] := Directory(None, Some(1))]
    ensures IsSelected(codec, w, names[|names| - 1])
    ensures forall n <- names[1..] :: Verifies(codec, w, n)
  {
    hide Verifies, Lawful, ManifestFor, Less;
    NamesDiffer(names);
    forall i | 0 < i < |names|
      ensures Verifies(codec, w, names[i])
    {
      assert jobs[i] in jobs && IsExport(codec, was, names[i], jobs[i], 2 * i, 2 * i + 1);
      ExportVerifies(codec, w, names[i], jobs[i], 2 * i, 2 * i + 1);
    }
    forall m | Verifies(codec, w, m)
      ensures AtMost(m, names[|names| - 1])
    {
      VerifyingIsThere(codec, w, m);
      var i :| 0 <= i < |names| && names[i] == m;
      assert i == |names| - 1 || Less(names[i], names[|names| - 1]);
    }
  }

  lemma NamesDiffer(names: seq<string>)
    requires Ascending(names)
    ensures forall i, j | 0 <= i < j < |names| :: names[i] != names[j]
  {
    forall i, j | 0 <= i < j < |names|
      ensures names[i] != names[j]
    {
      LessIrreflexive(names[i]);
    }
  }

  /** The names after the first. */
  lemma GreaterThanFirst(codec: Codec, w: World, names: seq<string>)
    requires Ascending(names) && names != [] && Within(w, CatalogStore.Elements(names))
    requires forall n <- names[1..] :: n in w.history.verified
    ensures Greater(w, names[0]) == CatalogStore.Elements(names[1..])
    ensures |Greater(w, names[0])| == |names| - 1
  {
    hide Less;
    LessIrreflexive(names[0]);
    forall n
      ensures n in Greater(w, names[0]) <==> n in names[1..]
    {
      if n in names[1..] {
        var i :| 0 <= i < |names[1..]| && names[1..][i] == n;
        assert names[i + 1] == n;
      }
      if n in Greater(w, names[0]) {
        var i :| 0 <= i < |names| && names[i] == n;
        assert i > 0 && names[1..][i - 1] == n;
      }
    }
    var all := Backwards(names[1..]);
    assert forall i, j | 0 <= i < j < |names[1..]| :: Less(names[1..][i], names[1..][j]);
    BackwardsDescends(names[1..]);
    CatalogStore.DescendingCount(all);
    assert CatalogStore.Elements(all) == CatalogStore.Elements(names[1..]);
  }

  /**
   * `names[0]` is complete and listed alone. The other `k` names are exported, and a prune that
   * keeps `k` generations starts to remove `names[0]`. Then selection comes to it and finds nothing,
   * while the `k` others are complete, and no further name has been.
   */
  lemma SelectionCanFindNothing(codec: Codec, names: seq<string>, jobs: seq<Job>, k: nat)
    returns (before: seq<Action>, moves: seq<Move>)
    requires Lawful(codec) && |names| == |jobs| == k + 1 > 1 && Ascending(names)
    requires forall j <- jobs :: Readable(j)
    ensures KeepAtLeast(before + ActionsOf(moves), k)
    ensures
      var start := Run(codec, EMPTY, before);
      && IsListing(start, [names[0]]) && IsSelected(codec, start, names[0])
      && var View(end, found) := Moves(codec, View(start, Looking([names[0]], None)), moves);
        && found == NothingFound && IsSelected(codec, end, names[k])
        && |Greater(end, names[0])| == k
  {
    hide Lawful, Readable, Run, Moves, ManifestFor, Verifies, Less, IsSelected, Published, Greater, Within, PruneSteps;
    NothingPublished(codec, names, jobs);
    assert names[..1] == [names[0]] && jobs[..1] == [jobs[0]] && jobs[0] in jobs;
    assert [] + [names[0]] == [names[0]] && [] + [jobs[0]] == [jobs[0]];
    before := PublishOne(codec, EMPTY, [], [], names[0], jobs[0]);
    var start := Run(codec, EMPTY, before);
    OldestIsListed(codec, start, [names[0]], [jobs[0]]);
    var writing := PublishRest(codec, start, names, jobs, 1);
    var full := Run(codec, start, writing);
    PruneShape(codec, full, 1, k, names, jobs);
    var steps := writing + PruneSteps(1, k, names);
    var end := Run(codec, full, PruneSteps(1, k, names));
    RunConcat(codec, start, writing, PruneSteps(1, k, names));
    var v := View(start, Looking([names[0]], None));
    OtherMoves(codec, v, steps);
    PrunedState(codec, full, end, names, jobs);
    NothingIsFound(codec, v, Others(steps), names[0], jobs[0], 1);
    moves := Others(steps) + [SeeManifest] + [SeeDocument] + [SeeManifest];
    ActionsOfMoves(steps);
    NewestIsSelected(codec, full, end, names, jobs);
    StepsAreWithin(before, writing, names, k);
    RunConcat(codec, EMPTY, before, steps);
    RunWithin(codec, before + steps, CatalogStore.Elements(names), k);
    RunInv(codec, before + steps);
    forall n <- names[1..]
      ensures n in end.history.verified
    {
      SelectedWasObserved(codec, end, n);
    }
    GreaterThanFirst(codec, end, names);
  }

  lemma NothingPublished(codec: Codec, names: seq<string>, jobs: seq<Job>)
    ensures Published(codec, EMPTY, [], [])
  {
  }

  /** What the pruned directory and its manifest look like. */
  lemma PrunedState(codec: Codec, was: World, w: World, names: seq<string>, jobs: seq<Job>)
    requires Published(codec, was, names, jobs) && names != []
    requires w.files == was.files && w.dirs == was.dirs[names[0] := Directory(None, Some(1))]
    ensures names[0] in w.dirs && w.dirs[names[0]] == Directory(None, Some(1))
    ensures 1 in w.files && w.files[1] == codec.encode(ManifestFor(codec, names[0], jobs[0]))
  {
    assert IsExport(codec, was, names[0], jobs[0], 2 * 0, 2 * 0 + 1);
  }

  lemma {:induction false} ActionsOfOthers(steps: seq<Action>)
    ensures ActionsOf(Others(steps)) == steps
  {
    if steps != [] {
      ActionsOfOthers(steps[..|steps| - 1]);
      assert Others(steps)[..|steps| - 1] == Others(steps[..|steps| - 1]);
    }
  }

  lemma ActionsOfMoves(steps: seq<Action>)
    ensures ActionsOf(Others(steps) + [SeeManifest] + [SeeDocument] + [SeeManifest]) == steps
  {
    hide Others;
    ActionsOfOthers(steps);
    ActionsOfLook(Others(steps), SeeManifest);
    ActionsOfLook(Others(steps) + [SeeManifest], SeeDocument);
    ActionsOfLook(Others(steps) + [SeeManifest] + [SeeDocument], SeeManifest);
  }

  lemma ActionsOfLook(moves: seq<Move>, m: Move)
    requires !m.Other?
    ensures ActionsOf(moves + [m]) == ActionsOf(moves)
  {
    assert (moves + [m])[..|moves|] == moves;
  }

  lemma StepsAreWithin(before: seq<Action>, writing: seq<Action>, names: seq<string>, k: nat)
    requires k > 0 && Ascending(names)
    requires forall a <- before :: OfExport(a) && (a.Reserve? ==> a.name in names)
    requires forall a <- writing :: OfExport(a) && (a.Reserve? ==> a.name in names)
    ensures StepsWithin(before + (writing + PruneSteps(1, k, names)), CatalogStore.Elements(names), k)
    ensures KeepAtLeast(before + (writing + PruneSteps(1, k, names)), k)
  {
    hide Scans, Backwards, Less;
    ScansOnly(1, |names|);
    BackwardsDescends(names);
    forall a <- before + (writing + PruneSteps(1, k, names))
      ensures StepWithin(a, CatalogStore.Elements(names), k) && KeepsAtLeast(a, k)
    {
      assert a in before || a in writing || a in PruneSteps(1, k, names);
    }
  }
}
