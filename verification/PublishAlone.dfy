/**
 * One export that no other process interrupts, in the protocol with a clock: it adds exactly the
 * generation that the sequential export adds, and with its prune behind it the result is that of
 * the sequential catalog.
 */
module PublishAlone {
  import opened Common
  import opened Manifest
  import opened PublishProtocol
  import opened PublishInvariant
  import opened PublishGrace
  import opened PublishPrune
  import CatalogStore

  // ----- one file -----

  /** Opening, writing and closing one file. */
  function FileEvents(p: ProcessId, f: FileId, size: nat): seq<Event> {
    [Step(Open(p, f)), Step(WriteChunk(p, size)), Step(Close(p))]
  }

  /** The export `e` is about to create its next file, which is not there yet. */
  predicate AtFile(t: Timed, p: ProcessId, e: Exporter, f: FileId) {
    && Dated(t) && p in t.world.exporters && t.world.exporters[p] == e && e.phase.Ready?
    && e.name in t.world.dirs && t.world.dirs[e.name].Link(e.phase.part) == None
    && f !in t.world.files && t.modified[e.name] == t.now
  }

  lemma OpenShape(codec: Codec, t: Timed, p: ProcessId, e: Exporter, f: FileId)
    requires AtFile(t, p, e, f)
    ensures TimedShapeOf(Advance(codec, t, Step(Open(p, f)))) == TimedShapeOf(t).(
      dirs := t.world.dirs[e.name := t.world.dirs[e.name].WithLink(e.phase.part, Some(f))],
      files := t.world.files[f := []], exporters := t.world.exporters[p := e.(phase := Writing(e.phase.part, f, 0))])
  {
    hide Advance;
    StepShape(codec, t, Open(p, f));
  }

  lemma WriteShape(codec: Codec, t: Timed, p: ProcessId, e: Exporter)
    requires Dated(t) && p in t.world.exporters && t.world.exporters[p] == e
    requires e.phase.Writing? && e.phase.written == 0
    requires e.phase.file in t.world.files && t.world.files[e.phase.file] == []
    ensures var all := Payload(codec, e, e.phase.part);
      TimedShapeOf(Advance(codec, t, Step(WriteChunk(p, |all|)))) == TimedShapeOf(t).(
        files := t.world.files[e.phase.file := all],
        exporters := t.world.exporters[p := e.(phase := Writing(e.phase.part, e.phase.file, |all|))])
  {
    hide Advance, Touched, Payload;
    var all := Payload(codec, e, e.phase.part);
    assert all[0..0 + |all|] == all && WriteAt([], 0, all) == all;
    StepShape(codec, t, WriteChunk(p, |all|));
    Untouched(t, Act(codec, t.world, WriteChunk(p, |all|)));
  }

  lemma CloseShape(codec: Codec, t: Timed, p: ProcessId, e: Exporter)
    requires Dated(t) && p in t.world.exporters && t.world.exporters[p] == e
    requires e.phase.Writing? && e.phase.written == |Payload(codec, e, e.phase.part)|
    ensures TimedShapeOf(Advance(codec, t, Step(Close(p)))) == TimedShapeOf(t).(exporters :=
      if e.phase.part.Document? then t.world.exporters[p := e.(phase := Ready(Declaration))]
      else t.world.exporters - {p})
  {
    hide Advance, Touched, Payload;
    StepShape(codec, t, Close(p));
    Untouched(t, Act(codec, t.world, Close(p)));
  }

  lemma ThreeEvents(codec: Codec, t: Timed, a: Event, b: Event, c: Event)
    ensures RunTimed(codec, t, [a, b, c]) == Advance(codec, Advance(codec, Advance(codec, t, a), b), c)
  {
    hide Advance, RunTimed;
    TwoEvents(codec, t, a, b);
    LastEvent(codec, t, [a, b], c);
    assert [a, b] + [c] == [a, b, c];
  }

  lemma SamePayload(codec: Codec, e: Exporter, phase: Phase, part: Part)
    ensures Payload(codec, e.(phase := phase), part) == Payload(codec, e, part)
  {
  }

  lemma FileShape(codec: Codec, t: Timed, p: ProcessId, e: Exporter, f: FileId)
    requires AtFile(t, p, e, f)
    ensures var all := Payload(codec, e, e.phase.part);
      TimedShapeOf(RunTimed(codec, t, FileEvents(p, f, |all|))) == TimedShapeOf(t).(
        dirs := t.world.dirs[e.name := t.world.dirs[e.name].WithLink(e.phase.part, Some(f))],
        files := t.world.files[f := all],
        exporters := if e.phase.part.Document? then t.world.exporters[p := e.(phase := Ready(Declaration))]
          else t.world.exporters - {p})
  {
    hide Advance, RunTimed, Payload;
    var part, all := e.phase.part, Payload(codec, e, e.phase.part);
    var e1, e2 := e.(phase := Writing(part, f, 0)), e.(phase := Writing(part, f, |all|));
    var t1 := Advance(codec, t, Step(Open(p, f)));
    var t2 := Advance(codec, t1, Step(WriteChunk(p, |all|)));
    ThreeEvents(codec, t, Step(Open(p, f)), Step(WriteChunk(p, |all|)), Step(Close(p)));
    SamePayload(codec, e, e1.phase, part);
    SamePayload(codec, e, e2.phase, part);
    OpenShape(codec, t, p, e, f);
    WriteShape(codec, t1, p, e1);
    CloseShape(codec, t2, p, e2);
  }

  // ----- the whole export -----

  /** An export from its reservation to its end, in the files `f` and `g`. */
  function WholeExport(codec: Codec, p: ProcessId, name: string, job: Job, f: FileId, g: FileId): seq<Event> {
    [Step(Reserve(p, name, job))] + FileEvents(p, f, |job.document|) +
    FileEvents(p, g, |codec.encode(ManifestFor(codec, name, job))|)
  }

  lemma ReserveShape(codec: Codec, t: Timed, p: ProcessId, name: string, job: Job)
    requires Dated(t) && p !in t.world.exporters && name !in t.world.dirs
    ensures TimedShapeOf(Advance(codec, t, Step(Reserve(p, name, job)))) == TimedShapeOf(t).(
      dirs := t.world.dirs[name := Directory(None, None)], modified := t.modified[name := t.now],
      exporters := t.world.exporters[p := Exporter(name, job, Ready(Document))])
  {
    hide Advance;
    StepShape(codec, t, Reserve(p, name, job));
  }

  lemma WholeExportRuns(codec: Codec, t: Timed, p: ProcessId, name: string, job: Job, f: FileId, g: FileId)
    ensures
      var t1 := Advance(codec, t, Step(Reserve(p, name, job)));
      var t2 := RunTimed(codec, t1, FileEvents(p, f, |job.document|));
      RunTimed(codec, t, WholeExport(codec, p, name, job, f, g)) ==
        RunTimed(codec, t2, FileEvents(p, g, |codec.encode(ManifestFor(codec, name, job))|))
  {
    hide Advance, RunTimed, ManifestFor, FileEvents;
    var reserve := Step(Reserve(p, name, job));
    var first := FileEvents(p, f, |job.document|);
    var second := FileEvents(p, g, |codec.encode(ManifestFor(codec, name, job))|);
    NoEvents(codec, t);
    LastEvent(codec, t, [], reserve);
    assert [] + [reserve] == [reserve];
    RunSplits(codec, t, [reserve], first);
    RunSplits(codec, t, [reserve] + first, second);
  }

  /** The reservation and the document. */
  lemma DocumentShape(codec: Codec, t: Timed, p: ProcessId, name: string, job: Job, f: FileId)
    requires Dated(t) && p !in t.world.exporters && name !in t.world.dirs && f !in t.world.files
    ensures
      TimedShapeOf(RunTimed(codec, Advance(codec, t, Step(Reserve(p, name, job))), FileEvents(p, f, |job.document|))) ==
      TimedShapeOf(t).(
        dirs := t.world.dirs[name := Directory(Some(f), None)], modified := t.modified[name := t.now],
        files := t.world.files[f := job.document],
        exporters := t.world.exporters[p := Exporter(name, job, Ready(Declaration))])
  {
    hide Advance, RunTimed, FileEvents;
    var t1 := Advance(codec, t, Step(Reserve(p, name, job)));
    ReserveShape(codec, t, p, name, job);
    assert t1.world.dirs[name].Link(Document) == None;
    assert t1.world.dirs[name].WithLink(Document, Some(f)) == Directory(Some(f), None);
    FileShape(codec, t1, p, Exporter(name, job, Ready(Document)), f);
  }

  lemma ExportShape(codec: Codec, t: Timed, p: ProcessId, name: string, job: Job, f: FileId, g: FileId)
    requires Dated(t) && p !in t.world.exporters && name !in t.world.dirs
    requires f !in t.world.files && g !in t.world.files && f != g
    ensures TimedShapeOf(RunTimed(codec, t, WholeExport(codec, p, name, job, f, g))) == TimedShapeOf(t).(
      dirs := t.world.dirs[name := Directory(Some(f), Some(g))], modified := t.modified[name := t.now],
      files := t.world.files[f := job.document][g := codec.encode(ManifestFor(codec, name, job))])
  {
    hide Advance, RunTimed, ManifestFor, FileEvents, WholeExport, Payload;
    var t2 := RunTimed(codec, Advance(codec, t, Step(Reserve(p, name, job))), FileEvents(p, f, |job.document|));
    WholeExportRuns(codec, t, p, name, job, f, g);
    DocumentShape(codec, t, p, name, job, f);
    assert t2.world.dirs[name].Link(Declaration) == None;
    assert t2.world.dirs[name].WithLink(Declaration, Some(g)) == Directory(Some(f), Some(g));
    FileShape(codec, t2, p, Exporter(name, job, Ready(Declaration)), g);
    ManifestIsPayload(codec, Exporter(name, job, Ready(Declaration)));
    Overwritten(t.world.dirs, name, Directory(Some(f), None), Directory(Some(f), Some(g)));
    Withdrawn(t.world.exporters, p, Exporter(name, job, Ready(Declaration)));
  }

  lemma ManifestIsPayload(codec: Codec, e: Exporter)
    ensures Payload(codec, e, Declaration) == codec.encode(ManifestFor(codec, e.name, e.job))
  {
  }

  lemma Overwritten<K, V>(m: map<K, V>, k: K, a: V, b: V)
    ensures m[k := a][k := b] == m[k := b]
  {
  }

  lemma Withdrawn<K, V>(m: map<K, V>, k: K, a: V)
    requires k !in m
    ensures m[k := a] - {k} == m
  {
  }

  /** No directory links to a file that is not there. */
  ghost predicate Linked(t: Timed) {
    forall n <- t.world.dirs, part: Part | t.world.dirs[n].Link(part).Some? ::
      t.world.dirs[n].Link(part).value in t.world.files
  }

  lemma OthersReadTheSame(t: Timed, u: Timed, name: string, f: FileId, g: FileId, n: string, part: Part)
    requires Linked(t) && n in t.world.dirs && n in u.world.dirs && u.world.dirs[n] == t.world.dirs[n]
    requires f !in t.world.files && g !in t.world.files
    requires forall x <- t.world.files | x != f && x != g :: x in u.world.files && u.world.files[x] == t.world.files[x]
    ensures PartOf(u.world, n, part) == PartOf(t.world, n, part)
  {
  }

  /** An export alone adds the generation that the sequential export adds. */
  lemma ExportAlone(codec: Codec, t: Timed, p: ProcessId, name: string, job: Job, f: FileId, g: FileId)
    requires Dated(t) && Linked(t) && p !in t.world.exporters && name !in t.world.dirs
    requires f !in t.world.files && g !in t.world.files && f != g
    ensures
      var u := RunTimed(codec, t, WholeExport(codec, p, name, job, f, g));
      && Dated(u) && EntriesOf(u) == CatalogStore.WithGeneration(codec, EntriesOf(t), name, job, t.now)
      && u.now == t.now && u.world.exporters == t.world.exporters && u.world.pruners == t.world.pruners
  {
    hide RunTimed, ManifestFor, WholeExport, Linked, PartOf;
    var u := RunTimed(codec, t, WholeExport(codec, p, name, job, f, g));
    ExportShape(codec, t, p, name, job, f, g);
    forall n, part: Part | n in t.world.dirs
      ensures PartOf(u.world, n, part) == PartOf(t.world, n, part)
    {
      OthersReadTheSame(t, u, name, f, g, n, part);
    }
    NewReads(u.world, name, f, g);
  }

  lemma NewReads(w: World, name: string, f: FileId, g: FileId)
    requires name in w.dirs && w.dirs[name] == Directory(Some(f), Some(g)) && f in w.files && g in w.files
    ensures PartOf(w, name, Document) == Some(w.files[f]) && PartOf(w, name, Declaration) == Some(w.files[g])
  {
  }

  lemma RunsAreLinked(codec: Codec, now: int, events: seq<Event>)
    requires Lawful(codec)
    ensures Linked(RunTimed(codec, StartAt(now), events))
  {
    hide RunTimed, Lawful;
    TimedInv(codec, now, events);
    HomesAreLinks(RunTimed(codec, StartAt(now), events));
  }

  lemma HomesAreLinks(t: Timed)
    requires Homes(t.world)
    ensures Linked(t)
  {
    forall n <- t.world.dirs, part: Part | t.world.dirs[n].Link(part).Some?
      ensures t.world.dirs[n].Link(part).value in t.world.files
    {
      assert HasHome(t.world, t.world.dirs[n].Link(part).value, n);
    }
  }

  /**
   * Whatever exports and prunes did before, and wherever they stand: an export under a free name,
   * and then a prune, both alone, leave what the sequential catalog's export leaves.
   */
  lemma WriteAlone(codec: Codec, now: int, events: seq<Event>, p: ProcessId, name: string, job: Job,
      f: FileId, g: FileId, keep: int, listing: seq<string>)
    requires Lawful(codec)
    requires
      var t := RunTimed(codec, StartAt(now), events);
      && p !in t.world.exporters && p !in t.world.pruners && name !in t.world.dirs
      && f !in t.world.files && g !in t.world.files && f != g
      && IsCatalogListing(RunTimed(codec, t, WholeExport(codec, p, name, job, f, g)), listing)
    ensures
      var t := RunTimed(codec, StartAt(now), events);
      var u := RunTimed(codec, StartAt(now),
        events + WholeExport(codec, p, name, job, f, g) + WholePrune(p, keep, listing));
      && Dated(t) && Dated(u)
      && EntriesOf(u) ==
           CatalogStore.PruneOf(codec, CatalogStore.WithGeneration(codec, EntriesOf(t), name, job, t.now), keep, t.now)
  {
    hide RunTimed, WholeExport, WholePrune, EntriesOf, CatalogStore.PruneOf, CatalogStore.WithGeneration, Lawful,
      IsCatalogListing, Linked;
    var t := RunTimed(codec, StartAt(now), events);
    var whole := WholeExport(codec, p, name, job, f, g);
    RunsAreDated(codec, now, events);
    RunsAreLinked(codec, now, events);
    ExportAlone(codec, t, p, name, job, f, g);
    PruneAlone(codec, RunTimed(codec, t, whole), p, keep, listing);
    RunSplits(codec, StartAt(now), events, whole);
    RunSplits(codec, StartAt(now), events + whole, WholePrune(p, keep, listing));
  }
}
