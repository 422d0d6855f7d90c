/** The invariant of the publish protocol and its preservation by every step. */
module PublishInvariant {
  import opened Common
  import opened Names
  import opened Manifest
  import opened PublishProtocol
  import CatalogStore

  // ----- the invariant -----

  /** Every file belongs to the directory it was created in, and only that one links to it. */
  ghost predicate Homes(w: World) {
    && (forall f <- w.files :: f in w.history.home)
    && (forall n <- w.dirs, part: Part | w.dirs[n].Link(part).Some? :: HasHome(w, w.dirs[n].Link(part).value, n))
    && (forall p <- w.exporters | w.exporters[p].phase.Writing? ::
        HasHome(w, w.exporters[p].phase.file, w.exporters[p].name))
  }

  ghost predicate HasHome(w: World, f: FileId, n: string) {
    f in w.files && f in w.history.home && w.history.home[f] == n
  }

  /** A name that no prune has doomed has at most one exporter. */
  ghost predicate Exclusive(w: World) {
    forall p <- w.exporters, q <- w.exporters | p != q && w.exporters[p].name == w.exporters[q].name ::
      w.exporters[p].name in w.history.doomed
  }

  ghost predicate IsPrefix(a: Bytes, b: Bytes, k: nat) {
    k <= |b| && a == b[..k]
  }

  /** How far an exporter has come, read off the directory of a name that no prune has doomed. */
  ghost predicate Follows(codec: Codec, w: World, e: Exporter) {
    && e.name in w.dirs
    && e.name in w.history.jobs && w.history.jobs[e.name] == e.job
    && var d := w.dirs[e.name];
      match e.phase
      case Ready(Document) => d == Directory(None, None)
      case Writing(Document, f, k) =>
        d == Directory(Some(f), None) && f in w.files && IsPrefix(w.files[f], e.job.document, k)
      case Ready(Declaration) =>
        d.declaration == None && Content(w, d.document) == Some(e.job.document)
      case Writing(Declaration, f, k) =>
        && d.declaration == Some(f) && d.document != Some(f)
        && f in w.files && IsPrefix(w.files[f], codec.encode(ManifestFor(codec, e.name, e.job)), k)
        && Content(w, d.document) == Some(e.job.document)
  }

  ghost predicate Disciplined(codec: Codec, w: World) {
    forall p <- w.exporters | w.exporters[p].name !in w.history.doomed :: Follows(codec, w, w.exporters[p])
  }

  /** A directory that no prune has doomed: the manifest is there only next to the whole document. */
  ghost predicate Whole(codec: Codec, w: World, n: string) {
    && n in w.dirs && n in w.history.jobs
    && (w.dirs[n].declaration.Some? ==>
          && PartOf(w, n, Document) == Some(w.history.jobs[n].document)
          && PartOf(w, n, Declaration).Some?
          && exists k: nat ::
              IsPrefix(PartOf(w, n, Declaration).value, codec.encode(ManifestFor(codec, n, w.history.jobs[n])), k))
  }

  ghost predicate AllWhole(codec: Codec, w: World) {
    forall n <- w.dirs | n !in w.history.doomed :: Whole(codec, w, n)
  }

  /** Every doomed name is older than a name that verified. */
  ghost predicate Topped(w: World) {
    forall n <- w.history.doomed :: exists c <- w.history.verified :: Less(n, c)
  }

  /** What verified once still verifies, unless it was doomed. */
  ghost predicate Still(codec: Codec, w: World) {
    forall n <- w.history.verified :: n in w.history.doomed || Verifies(codec, w, n)
  }

  ghost predicate Observed(codec: Codec, w: World) {
    forall n <- w.dirs | Verifies(codec, w, n) :: n in w.history.verified
  }

  predicate Known(w: World, n: string) {
    n in w.history.verified || n in w.history.doomed
  }

  /** What a prune took for complete had verified, or is doomed itself. */
  ghost predicate PrunerFits(w: World, pr: Pruner) {
    match pr
    case Scanning(keep, todo, seen, complete, doomed) =>
      && keep >= 1
      && Descending(complete + todo)
      && (forall n <- complete :: Known(w, n))
      && (forall n <- doomed :: n in w.history.doomed)
      && (seen.Some? ==> todo != [] && Known(w, todo[0]))
    case Removing(doomed) =>
      forall n <- doomed :: n in w.history.doomed
  }

  ghost predicate Pruning(w: World) {
    forall p <- w.pruners :: PrunerFits(w, w.pruners[p])
  }

  ghost predicate Inv(codec: Codec, w: World) {
    && Homes(w) && Exclusive(w) && Disciplined(codec, w) && AllWhole(codec, w)
    && Topped(w) && Still(codec, w) && Observed(codec, w) && Pruning(w)
  }

  /** All but `Observed`, which the bookkeeping after a step restores. */
  ghost predicate StepInv(codec: Codec, w: World) {
    && Homes(w) && Exclusive(w) && Disciplined(codec, w) && AllWhole(codec, w)
    && Topped(w) && Still(codec, w) && Pruning(w)
  }

  lemma ObserveRestores(codec: Codec, w: World)
    requires StepInv(codec, w)
    ensures Inv(codec, Observe(codec, w))
  {
    var o := Observe(codec, w);
    assert forall n :: Verifies(codec, o, n) <==> Verifies(codec, w, n);
    forall p <- o.exporters | o.exporters[p].name !in o.history.doomed
      ensures Follows(codec, o, o.exporters[p])
    {
      assert Follows(codec, w, w.exporters[p]);
    }
    forall n <- o.dirs | n !in o.history.doomed
      ensures Whole(codec, o, n)
    {
      assert Whole(codec, w, n);
    }
    forall p <- o.pruners
      ensures PrunerFits(o, o.pruners[p])
    {
      assert PrunerFits(w, w.pruners[p]);
    }
  }

  // ----- steps that touch one directory -----

  /** Only the directory `x`, its files and its exporters may have changed. */
  ghost predicate SameElsewhere(w: World, v: World, x: string) {
    && (forall n | n != x :: n in v.dirs <==> n in w.dirs)
    && (forall n <- v.dirs | n != x :: v.dirs[n] == w.dirs[n])
    && (forall f <- w.files ::
        f in v.files && (f in w.history.home && w.history.home[f] != x ==> v.files[f] == w.files[f]))
    && v.history.doomed == w.history.doomed && v.history.verified == w.history.verified
    && (forall n <- w.history.jobs :: n in v.history.jobs && (n != x ==> v.history.jobs[n] == w.history.jobs[n]))
    && (forall q <- v.pruners :: q in w.pruners && v.pruners[q] == w.pruners[q])
  }

  /** The exporters of other names are as before; those of `x` follow their directory unless `x` is doomed. */
  ghost predicate ExportersFit(codec: Codec, w: World, v: World, x: string) {
    forall q <- v.exporters ::
      if v.exporters[q].name == x then x in v.history.doomed || Follows(codec, v, v.exporters[q])
      else q in w.exporters && w.exporters[q] == v.exporters[q]
  }

  lemma PartsElsewhere(w: World, v: World, x: string, n: string, part: Part)
    requires Homes(w) && SameElsewhere(w, v, x) && n != x
    ensures PartOf(v, n, part) == PartOf(w, n, part)
  {
    if n in w.dirs && w.dirs[n].Link(part).Some? {
      assert HasHome(w, w.dirs[n].Link(part).value, n);
    }
  }

  lemma VerifiesElsewhere(codec: Codec, w: World, v: World, x: string, n: string)
    requires Homes(w) && SameElsewhere(w, v, x) && n != x
    ensures Verifies(codec, v, n) <==> Verifies(codec, w, n)
  {
    PartsElsewhere(w, v, x, n, Document);
    PartsElsewhere(w, v, x, n, Declaration);
  }

  lemma WholeElsewhere(codec: Codec, w: World, v: World, x: string, n: string)
    requires Homes(w) && SameElsewhere(w, v, x) && n != x && Whole(codec, w, n)
    ensures Whole(codec, v, n)
  {
    PartsElsewhere(w, v, x, n, Document);
    PartsElsewhere(w, v, x, n, Declaration);
  }

  lemma FollowsElsewhere(codec: Codec, w: World, v: World, x: string, e: Exporter)
    requires Homes(w) && SameElsewhere(w, v, x) && e.name != x && Follows(codec, w, e)
    ensures Follows(codec, v, e)
  {
    hide Homes;
    PartsElsewhere(w, v, x, e.name, Document);
    PartsElsewhere(w, v, x, e.name, Declaration);
    assert w.dirs[e.name].Link(Document) == w.dirs[e.name].document;
    assert w.dirs[e.name].Link(Declaration) == w.dirs[e.name].declaration;
  }

  /** One directory changed as the invariant asks: the whole state still satisfies it. */
  lemma StepInOneDirectory(codec: Codec, w: World, v: World, x: string)
    requires Inv(codec, w) && SameElsewhere(w, v, x)
    requires Homes(v) && Exclusive(v) && ExportersFit(codec, w, v, x)
    requires x !in w.history.doomed && x in v.dirs ==> Whole(codec, v, x)
    requires x !in w.history.doomed && x in w.history.verified ==> Verifies(codec, v, x)
    ensures StepInv(codec, v)
  {
    hide Homes, Exclusive, Whole, Follows, Verifies;
    forall q <- v.exporters | v.exporters[q].name !in v.history.doomed
      ensures Follows(codec, v, v.exporters[q])
    {
      if v.exporters[q].name != x {
        FollowsElsewhere(codec, w, v, x, w.exporters[q]);
      }
    }
    forall n <- v.dirs | n !in v.history.doomed
      ensures Whole(codec, v, n)
    {
      if n != x {
        WholeElsewhere(codec, w, v, x, n);
      }
    }
    forall n <- v.history.verified
      ensures n in v.history.doomed || Verifies(codec, v, n)
    {
      if n != x {
        VerifiesElsewhere(codec, w, v, x, n);
      }
    }
    PruningKept(w, v);
  }

  lemma PruningKept(w: World, v: World)
    requires Pruning(w)
    requires w.history.doomed <= v.history.doomed && w.history.verified <= v.history.verified
    requires forall q <- v.pruners :: q in w.pruners && v.pruners[q] == w.pruners[q]
    ensures Pruning(v)
  {
    forall q <- v.pruners
      ensures PrunerFits(v, v.pruners[q])
    {
      assert PrunerFits(w, w.pruners[q]);
    }
  }

  // ----- exporters -----

  /** While nothing of the manifest is there, the generation has not verified. */
  lemma NotYetVerified(codec: Codec, w: World, e: Exporter)
    requires Inv(codec, w) && e.name !in w.history.doomed && e.name in w.dirs
    requires w.dirs[e.name].declaration.None?
    ensures e.name !in w.history.verified
  {
    assert PartOf(w, e.name, Declaration) == None;
  }

  lemma ReserveFits(codec: Codec, w: World, p: ProcessId, name: string, job: Job)
    requires Inv(codec, w) && p !in w.exporters && name !in w.dirs
    ensures var v := DoReserve(w, p, name, job);
      SameElsewhere(w, v, name) && Exclusive(v) && ExportersFit(codec, w, v, name)
  {
    hide Homes, AllWhole, Still, Observed, Pruning, Topped;
    forall q <- w.exporters
      ensures w.exporters[q].name == name ==> name in w.history.doomed
    {
      if w.exporters[q].name !in w.history.doomed {
        assert Follows(codec, w, w.exporters[q]);
      }
    }
  }

  lemma ReserveHomes(w: World, p: ProcessId, name: string, job: Job)
    requires Homes(w)
    ensures Homes(DoReserve(w, p, name, job))
  {
    var v := DoReserve(w, p, name, job);
    forall n <- v.dirs, part: Part | v.dirs[n].Link(part).Some?
      ensures HasHome(v, v.dirs[n].Link(part).value, n)
    {
      assert HasHome(w, w.dirs[n].Link(part).value, n);
    }
    forall q <- v.exporters | v.exporters[q].phase.Writing?
      ensures HasHome(v, v.exporters[q].phase.file, v.exporters[q].name)
    {
      assert HasHome(w, w.exporters[q].phase.file, w.exporters[q].name);
    }
  }

  lemma ReservePreserves(codec: Codec, w: World, p: ProcessId, name: string, job: Job)
    requires Inv(codec, w)
    ensures StepInv(codec, DoReserve(w, p, name, job))
  {
    hide Homes, Exclusive, SameElsewhere, ExportersFit, Pruning;
    var v := DoReserve(w, p, name, job);
    if v != w {
      ReserveFits(codec, w, p, name, job);
      ReserveHomes(w, p, name, job);
      StepInOneDirectory(codec, w, v, name);
    }
  }

  /** The one exporter of a name not doomed follows its directory. */
  lemma OnlyExporter(codec: Codec, w: World, p: ProcessId)
    requires Inv(codec, w) && p in w.exporters && w.exporters[p].name !in w.history.doomed
    ensures Follows(codec, w, w.exporters[p])
    ensures forall q <- w.exporters | q != p :: w.exporters[q].name != w.exporters[p].name
    ensures Whole(codec, w, w.exporters[p].name)
  {
  }

  lemma OpenElsewhere(w: World, p: ProcessId, unused: FileId)
    requires Homes(w) && p in w.exporters
    ensures SameElsewhere(w, DoOpen(w, p, unused), w.exporters[p].name)
  {
    var e := w.exporters[p];
    if e.name in w.dirs && e.phase.Ready? && w.dirs[e.name].Link(e.phase.part).Some? {
      assert HasHome(w, w.dirs[e.name].Link(e.phase.part).value, e.name);
    }
  }

  /** A step of one exporter that keeps its name and leaves the other exporters alone. */
  lemma OneExporterFits(codec: Codec, w: World, v: World, p: ProcessId)
    requires Inv(codec, w) && p in w.exporters
    requires v.history.doomed == w.history.doomed
    requires forall q <- v.exporters :: q in w.exporters && (q != p ==> v.exporters[q] == w.exporters[q])
    requires p in v.exporters ==> v.exporters[p].name == w.exporters[p].name
    requires p in v.exporters && w.exporters[p].name !in w.history.doomed ==> Follows(codec, v, v.exporters[p])
    ensures ExportersFit(codec, w, v, w.exporters[p].name)
  {
    hide Homes, AllWhole, Still, Observed, Pruning, Topped, Follows;
  }

  lemma OpenPreserves(codec: Codec, w: World, p: ProcessId, unused: FileId)
    requires Inv(codec, w)
    ensures StepInv(codec, DoOpen(w, p, unused))
  {
    hide Homes, Exclusive, SameElsewhere, ExportersFit, Pruning, Follows, Whole, Verifies;
    var v := DoOpen(w, p, unused);
    if v != w {
      var e := w.exporters[p];
      OpenElsewhere(w, p, unused);
      OpenHomes(w, p, unused);
      if e.name !in w.history.doomed {
        OnlyExporter(codec, w, p);
        OpenFollows(codec, w, p, unused);
        NotYetVerified(codec, w, e);
      }
      OneExporterFits(codec, w, v, p);
      StepInOneDirectory(codec, w, v, e.name);
    }
  }

  /** A file that its own directory links to, or a new one that it links to now. */
  lemma LinkHomes(w: World, v: World, p: ProcessId, f: FileId)
    requires Homes(w) && p in w.exporters && w.exporters[p].name in w.dirs
    requires f in w.files ==> HasHome(w, f, w.exporters[p].name)
    requires
      var e := w.exporters[p];
      && v.dirs == w.dirs[e.name := w.dirs[e.name].WithLink(e.phase.part, Some(f))]
      && v.files == w.files[f := []] && v.history.home == w.history.home[f := e.name]
      && v.exporters == w.exporters[p := e.(phase := Writing(e.phase.part, f, 0))]
    ensures Homes(v)
  {
    var e := w.exporters[p];
    assert HasHome(v, f, e.name);
    forall n <- v.dirs, other: Part | v.dirs[n].Link(other).Some?
      ensures HasHome(v, v.dirs[n].Link(other).value, n)
    {
      if !(n == e.name && other == e.phase.part) {
        assert v.dirs[n].Link(other) == w.dirs[n].Link(other);
        assert HasHome(w, w.dirs[n].Link(other).value, n);
      }
    }
    forall q <- v.exporters | v.exporters[q].phase.Writing?
      ensures HasHome(v, v.exporters[q].phase.file, v.exporters[q].name)
    {
      assert q != p ==> HasHome(w, w.exporters[q].phase.file, w.exporters[q].name);
    }
  }

  lemma OpenHomes(w: World, p: ProcessId, unused: FileId)
    requires Homes(w) && Exclusive(w)
    ensures Homes(DoOpen(w, p, unused)) && Exclusive(DoOpen(w, p, unused))
  {
    var v := DoOpen(w, p, unused);
    if v != w && w.exporters[p].name in w.dirs {
      var e := w.exporters[p];
      var link := w.dirs[e.name].Link(e.phase.part);
      if link.Some? {
        assert HasHome(w, link.value, e.name);
        assert w.dirs[e.name].WithLink(e.phase.part, link) == w.dirs[e.name];
        assert w.dirs[e.name := w.dirs[e.name]] == w.dirs && w.history.home[link.value := e.name] == w.history.home;
      }
      hide Homes;
      LinkHomes(w, v, p, if link.Some? then link.value else unused);
    }
  }

  lemma OpenFollows(codec: Codec, w: World, p: ProcessId, unused: FileId)
    requires Homes(w) && p in w.exporters && w.exporters[p].phase.Ready?
    requires Follows(codec, w, w.exporters[p]) && DoOpen(w, p, unused) != w
    ensures var v := DoOpen(w, p, unused);
      p in v.exporters && Follows(codec, v, v.exporters[p]) && Whole(codec, v, w.exporters[p].name)
    ensures w.exporters[p].name in w.dirs && w.dirs[w.exporters[p].name].declaration.None?
  {
    var v := DoOpen(w, p, unused);
    var e := w.exporters[p];
    assert w.dirs[e.name].Link(e.phase.part) == None;
    if e.phase.part.Declaration? {
      assert w.dirs[e.name].Link(Document) == w.dirs[e.name].document;
      assert PartOf(v, e.name, Declaration) == Some([]);
      assert IsPrefix([], codec.encode(ManifestFor(codec, e.name, e.job)), 0);
    }
  }

  /** Writing on from a prefix gives the longer prefix. */
  lemma WriteExtends(was: Bytes, payload: Bytes, k: nat, size: nat)
    requires IsPrefix(was, payload, k) && k + size <= |payload|
    ensures IsPrefix(WriteAt(was, k, payload[k..k + size]), payload, k + size)
  {
  }

  lemma WriteHomes(codec: Codec, w: World, p: ProcessId, size: nat)
    requires Homes(w) && Exclusive(w)
    ensures Homes(DoWrite(codec, w, p, size)) && Exclusive(DoWrite(codec, w, p, size))
    ensures p in w.exporters ==> SameElsewhere(w, DoWrite(codec, w, p, size), w.exporters[p].name)
  {
    hide Payload, WriteAt;
    var v := DoWrite(codec, w, p, size);
    if v != w {
      assert HasHome(w, w.exporters[p].phase.file, w.exporters[p].name);
      forall n <- v.dirs, part: Part | v.dirs[n].Link(part).Some?
        ensures HasHome(v, v.dirs[n].Link(part).value, n)
      {
        assert HasHome(w, w.dirs[n].Link(part).value, n);
      }
      forall q <- v.exporters | v.exporters[q].phase.Writing?
        ensures HasHome(v, v.exporters[q].phase.file, v.exporters[q].name)
      {
        assert HasHome(w, w.exporters[q].phase.file, w.exporters[q].name);
      }
    }
  }

  /** Writing the document of a generation that no prune has doomed. */
  lemma WriteDocument(codec: Codec, w: World, p: ProcessId, size: nat)
    requires p in w.exporters && Follows(codec, w, w.exporters[p]) && Whole(codec, w, w.exporters[p].name)
    requires w.exporters[p].phase.Writing? && w.exporters[p].phase.part.Document?
    requires DoWrite(codec, w, p, size) != w
    ensures var v := DoWrite(codec, w, p, size);
      Follows(codec, v, v.exporters[p]) && Whole(codec, v, w.exporters[p].name)
    ensures w.dirs[w.exporters[p].name].declaration.None?
  {
    var e := w.exporters[p];
    WriteExtends(w.files[e.phase.file], e.job.document, e.phase.written, size);
  }

  /** Writing its manifest: a generation that verified goes on verifying. */
  lemma WriteManifest(codec: Codec, w: World, p: ProcessId, size: nat)
    requires Lawful(codec)
    requires p in w.exporters && Follows(codec, w, w.exporters[p])
    requires w.exporters[p].phase.Writing? && w.exporters[p].phase.part.Declaration?
    requires DoWrite(codec, w, p, size) != w
    ensures var v := DoWrite(codec, w, p, size);
      && Follows(codec, v, v.exporters[p]) && Whole(codec, v, w.exporters[p].name)
      && (Verifies(codec, w, w.exporters[p].name) ==> Verifies(codec, v, w.exporters[p].name))
  {
    var v := DoWrite(codec, w, p, size);
    var e := w.exporters[p];
    var m := ManifestFor(codec, e.name, e.job);
    var Writing(part, f, k) := e.phase;
    WriteExtends(w.files[f], codec.encode(m), k, size);
    assert w.files[f] == Prefix(codec, m, k) && v.files[f] == Prefix(codec, m, k + size);
    assert PartOf(w, e.name, Document) == PartOf(v, e.name, Document) == Some(e.job.document);
    assert PartOf(w, e.name, Declaration) == Some(w.files[f]) && PartOf(v, e.name, Declaration) == Some(v.files[f]);
    if Verifies(codec, w, e.name) {
      CompleteStays(codec, e.name, e.job, k, k + size);
    }
  }

  lemma WritePreserves(codec: Codec, w: World, p: ProcessId, size: nat)
    requires Lawful(codec) && Inv(codec, w)
    ensures StepInv(codec, DoWrite(codec, w, p, size))
  {
    hide Homes, Exclusive, SameElsewhere, ExportersFit, Pruning, Follows, Whole, Verifies, Payload, WriteAt, Lawful;
    var v := DoWrite(codec, w, p, size);
    if v != w {
      var e := w.exporters[p];
      WriteHomes(codec, w, p, size);
      if e.name !in w.history.doomed {
        OnlyExporter(codec, w, p);
        if e.phase.part.Document? {
          WriteDocument(codec, w, p, size);
          NotYetVerified(codec, w, e);
        } else {
          WriteManifest(codec, w, p, size);
        }
      }
      OneExporterFits(codec, w, v, p);
      StepInOneDirectory(codec, w, v, e.name);
    }
  }

  /** Steps that change exporters only: closing a file, and stopping for good. */
  lemma ExporterStepPreserves(codec: Codec, w: World, v: World, p: ProcessId, x: string)
    requires Inv(codec, w)
    requires v == w.(exporters := v.exporters, pruners := v.pruners)
    requires forall q <- v.pruners :: q in w.pruners && v.pruners[q] == w.pruners[q]
    requires forall q <- v.exporters :: q in w.exporters && (q != p ==> v.exporters[q] == w.exporters[q])
    requires p in w.exporters ==> x == w.exporters[p].name
    requires p in v.exporters ==>
               && v.exporters[p].name == x
               && (v.exporters[p].phase.Writing? ==> v.exporters[p].phase == w.exporters[p].phase)
               && (x !in w.history.doomed ==> Follows(codec, v, v.exporters[p]))
    ensures StepInv(codec, v)
  {
    SameFilesSameParts(codec, w, v);
    forall q <- v.exporters | v.exporters[q].phase.Writing?
      ensures HasHome(v, v.exporters[q].phase.file, v.exporters[q].name)
    {
      assert HasHome(w, w.exporters[q].phase.file, w.exporters[q].name);
    }
    assert Homes(v) by {
      forall n <- v.dirs, part: Part | v.dirs[n].Link(part).Some?
        ensures HasHome(v, v.dirs[n].Link(part).value, n)
      {
        assert HasHome(w, w.dirs[n].Link(part).value, n);
      }
    }
    PruningKept(w, v);
    forall q <- v.exporters | v.exporters[q].name !in v.history.doomed
      ensures Follows(codec, v, v.exporters[q])
    {
      if q != p {
        assert Follows(codec, w, w.exporters[q]);
      }
    }
  }

  lemma SameFilesSameParts(codec: Codec, w: World, v: World)
    requires v.dirs == w.dirs && v.files == w.files && v.history.jobs == w.history.jobs
    ensures forall n :: Verifies(codec, v, n) <==> Verifies(codec, w, n)
    ensures forall n :: Whole(codec, v, n) <==> Whole(codec, w, n)
  {
  }

  lemma ClosePreserves(codec: Codec, w: World, p: ProcessId)
    requires Inv(codec, w)
    ensures StepInv(codec, DoClose(codec, w, p))
  {
    hide Homes, Exclusive, Pruning, AllWhole, Still, Observed, Topped;
    var v := DoClose(codec, w, p);
    if v != w {
      var e := w.exporters[p];
      if p in v.exporters && e.name !in w.history.doomed {
        assert Follows(codec, w, e);
        assert w.files[e.phase.file] == e.job.document;
      }
      ExporterStepPreserves(codec, w, v, p, e.name);
    }
  }

  lemma CrashPreserves(codec: Codec, w: World, p: ProcessId)
    requires Inv(codec, w)
    ensures StepInv(codec, DoCrash(w, p))
  {
    hide Inv, StepInv;
    ExporterStepPreserves(codec, w, DoCrash(w, p), p, if p in w.exporters then w.exporters[p].name else "");
  }

  // ----- prunes -----

  /** Steps that change prunes only, and may doom further names. */
  lemma PrunerStepPreserves(codec: Codec, w: World, v: World)
    requires Inv(codec, w)
    requires v == w.(pruners := v.pruners, history := w.history.(doomed := v.history.doomed))
    requires w.history.doomed <= v.history.doomed
    requires Topped(v) && Pruning(v)
    ensures StepInv(codec, v)
  {
    SameFilesSameParts(codec, w, v);
    assert Homes(v) by {
      forall n <- v.dirs, part: Part | v.dirs[n].Link(part).Some?
        ensures HasHome(v, v.dirs[n].Link(part).value, n)
      {
        assert HasHome(w, w.dirs[n].Link(part).value, n);
      }
      forall q <- v.exporters | v.exporters[q].phase.Writing?
        ensures HasHome(v, v.exporters[q].phase.file, v.exporters[q].name)
      {
        assert HasHome(w, w.exporters[q].phase.file, w.exporters[q].name);
      }
    }
    forall q <- v.exporters | v.exporters[q].name !in v.history.doomed
      ensures Follows(codec, v, v.exporters[q])
    {
      assert Follows(codec, w, w.exporters[q]);
    }
  }

  /** One prune moves on; the others are untouched. */
  lemma OnePruner(w: World, v: World, p: ProcessId)
    requires Pruning(w)
    requires w.history.doomed <= v.history.doomed && w.history.verified <= v.history.verified
    requires forall q <- v.pruners | q != p :: q in w.pruners && v.pruners[q] == w.pruners[q]
    requires p in v.pruners ==> PrunerFits(v, v.pruners[p])
    ensures Pruning(v)
  {
    forall q <- v.pruners
      ensures PrunerFits(v, v.pruners[q])
    {
      if q != p {
        assert PrunerFits(w, w.pruners[q]);
      }
    }
  }

  lemma StartPrunePreserves(codec: Codec, w: World, p: ProcessId, keep: int, listing: seq<string>)
    requires Inv(codec, w)
    ensures StepInv(codec, DoStartPrune(w, p, keep, listing))
  {
    hide Homes, Exclusive, Disciplined, AllWhole, Still, Observed;
    var v := DoStartPrune(w, p, keep, listing);
    if v != w {
      assert [] + listing == listing;
      OnePruner(w, v, p);
      PrunerStepPreserves(codec, w, v);
    }
  }

  /** A name that comes after a known name in a prune's order is older than one that verified. */
  lemma OlderThanKnown(w: World, c: string, n: string)
    requires Topped(w) && Known(w, c) && Less(n, c)
    ensures exists d <- w.history.verified :: Less(n, d)
  {
    if c !in w.history.verified {
      var d :| d in w.history.verified && Less(c, d);
      LessTransitive(n, c, d);
    }
  }

  lemma SkipFits(w: World, p: ProcessId, pr: Pruner, outdated: bool)
    requires Topped(w) && Pruning(w) && PrunerFits(w, pr) && pr.Scanning? && pr.todo != []
    ensures Topped(SkipName(w, p, pr, outdated)) && Pruning(SkipName(w, p, pr, outdated))
  {
    var v := SkipName(w, p, pr, outdated);
    var n := pr.todo[0];
    ShorterTodo(pr);
    if outdated && pr.complete != [] {
      assert (pr.complete + pr.todo)[0] == pr.complete[0] && (pr.complete + pr.todo)[|pr.complete|] == n;
      OlderThanKnown(w, pr.complete[0], n);
    }
    assert PrunerFits(v, v.pruners[p]);
    OnePruner(w, v, p);
  }

  lemma ShorterTodo(pr: Pruner)
    requires pr.Scanning? && pr.todo != [] && Descending(pr.complete + pr.todo)
    ensures Descending(pr.complete + pr.todo[1..])
    ensures Descending(pr.complete + [pr.todo[0]] + pr.todo[1..])
  {
    var all := pr.complete + pr.todo;
    var less := pr.complete + pr.todo[1..];
    assert pr.complete + [pr.todo[0]] + pr.todo[1..] == all;
    assert forall i | 0 <= i < |pr.complete| :: less[i] == all[i];
    assert forall i | |pr.complete| <= i < |less| :: less[i] == all[i + 1];
  }

  lemma SkipPreserves(codec: Codec, w: World, p: ProcessId, outdated: bool)
    requires Inv(codec, w) && p in w.pruners && w.pruners[p].Scanning? && w.pruners[p].todo != []
    ensures StepInv(codec, SkipName(w, p, w.pruners[p], outdated))
  {
    hide Homes, Exclusive, Disciplined, AllWhole, Still, Observed, Topped, PrunerFits;
    SkipFits(w, p, w.pruners[p], outdated);
    PrunerStepPreserves(codec, w, SkipName(w, p, w.pruners[p], outdated));
  }

  /**
   * A manifest that passes its own checks was written next to its whole document, so the
   * generation verifies at the moment the manifest is read.
   */
  lemma ManifestSeenVerifies(codec: Codec, w: World, n: string)
    requires Lawful(codec) && Inv(codec, w)
    requires VerifyManifest(codec, n, PartOf(w, n, Declaration)).Success?
    ensures Known(w, n)
  {
    if n !in w.history.doomed {
      assert Whole(codec, w, n);
      var job := w.history.jobs[n];
      var m := ManifestFor(codec, n, job);
      var k: nat :| IsPrefix(PartOf(w, n, Declaration).value, codec.encode(m), k);
      assert PartOf(w, n, Declaration).value == Prefix(codec, m, k);
      assert codec.parse(Prefix(codec, m, k)) in {None, Some(m)};
      assert Verifies(codec, w, n);
    }
  }

  lemma ReadManifestPreserves(codec: Codec, w: World, p: ProcessId, outdated: bool)
    requires Lawful(codec) && Inv(codec, w)
    ensures StepInv(codec, DoReadManifest(codec, w, p, outdated))
  {
    hide Homes, Exclusive, Disciplined, AllWhole, Still, Observed, SkipName, VerifyManifest, Lawful, PartOf;
    var v := DoReadManifest(codec, w, p, outdated);
    if p in w.pruners && w.pruners[p].Scanning? && w.pruners[p].todo != [] && w.pruners[p].seen.None? {
      var pr := w.pruners[p];
      if VerifyManifest(codec, pr.todo[0], PartOf(w, pr.todo[0], Declaration)).Failure? {
        SkipPreserves(codec, w, p, outdated);
      } else {
        ManifestSeenVerifies(codec, w, pr.todo[0]);
        assert PrunerFits(w, pr);
        OnePruner(w, v, p);
        PrunerStepPreserves(codec, w, v);
      }
    }
  }

  lemma CheckDocumentPreserves(codec: Codec, w: World, p: ProcessId, outdated: bool)
    requires Inv(codec, w)
    ensures StepInv(codec, DoCheckDocument(codec, w, p, outdated))
  {
    hide Homes, Exclusive, Disciplined, AllWhole, Still, Observed, SkipName, VerifyFile, PartOf;
    var v := DoCheckDocument(codec, w, p, outdated);
    if p in w.pruners && w.pruners[p].Scanning? && w.pruners[p].todo != [] && w.pruners[p].seen.Some? {
      var pr := w.pruners[p];
      var m := pr.seen.value;
      if VerifyFile(codec, PartOf(w, pr.todo[0], Document), m.sizeBytes, m.sha256).Some? {
        SkipPreserves(codec, w, p, outdated);
      } else {
        assert PrunerFits(w, pr);
        ShorterTodo(pr);
        OnePruner(w, v, p);
        PrunerStepPreserves(codec, w, v);
      }
    }
  }

  lemma EndScanPreserves(codec: Codec, w: World, p: ProcessId)
    requires Inv(codec, w)
    ensures StepInv(codec, DoEndScan(w, p))
  {
    hide Homes, Exclusive, Disciplined, AllWhole, Still, Observed;
    var v := DoEndScan(w, p);
    if v != w {
      var pr := w.pruners[p];
      assert PrunerFits(w, pr);
      assert pr.complete + pr.todo == pr.complete;
      forall n <- Beyond(pr)
        ensures exists c <- w.history.verified :: Less(n, c)
      {
        var i :| 0 <= i < |Beyond(pr)| && Beyond(pr)[i] == n;
        assert pr.complete[pr.keep + i] == n;
        OlderThanKnown(w, pr.complete[0], n);
      }
      OnePruner(w, v, p);
      PrunerStepPreserves(codec, w, v);
    }
  }

  /** A doomed directory may lose its files, or go. */
  lemma RemovalPreserves(codec: Codec, w: World, v: World, x: string)
    requires Inv(codec, w) && x in w.history.doomed
    requires v == w.(dirs := v.dirs)
    requires forall n | n != x :: n in v.dirs <==> n in w.dirs
    requires forall n <- v.dirs | n != x :: v.dirs[n] == w.dirs[n]
    requires x in v.dirs ==> x in w.dirs && forall part: Part ::
               v.dirs[x].Link(part) in {None, w.dirs[x].Link(part)}
    ensures StepInv(codec, v)
  {
    assert Homes(v) by {
      forall n <- v.dirs, part: Part | v.dirs[n].Link(part).Some?
        ensures HasHome(v, v.dirs[n].Link(part).value, n)
      {
        assert v.dirs[n].Link(part) == w.dirs[n].Link(part);
        assert HasHome(w, w.dirs[n].Link(part).value, n);
      }
      forall q <- v.exporters | v.exporters[q].phase.Writing?
        ensures HasHome(v, v.exporters[q].phase.file, v.exporters[q].name)
      {
        assert HasHome(w, w.exporters[q].phase.file, w.exporters[q].name);
      }
    }
    hide Homes, Follows, Whole, Verifies, Pruning;
    StepInOneDirectory(codec, w, v, x);
  }

  lemma HeadIsDoomed(codec: Codec, w: World, p: ProcessId)
    requires Inv(codec, w) && IsRemoving(w, p)
    ensures w.pruners[p].doomed[0] in w.history.doomed
  {
    assert PrunerFits(w, w.pruners[p]);
  }

  lemma UnlinkPreserves(codec: Codec, w: World, p: ProcessId, part: Part)
    requires Inv(codec, w)
    ensures StepInv(codec, DoUnlink(w, p, part))
  {
    var v := DoUnlink(w, p, part);
    if v != w {
      HeadIsDoomed(codec, w, p);
      hide Inv, StepInv;
      RemovalPreserves(codec, w, v, w.pruners[p].doomed[0]);
    }
  }

  lemma RemoveDirectoryPreserves(codec: Codec, w: World, p: ProcessId)
    requires Inv(codec, w)
    ensures StepInv(codec, DoRemoveDirectory(w, p))
  {
    var v := DoRemoveDirectory(w, p);
    if v != w {
      HeadIsDoomed(codec, w, p);
      hide Inv, StepInv;
      RemovalPreserves(codec, w, v, w.pruners[p].doomed[0]);
    }
  }

  lemma NextDoomedPreserves(codec: Codec, w: World, p: ProcessId)
    requires Inv(codec, w)
    ensures StepInv(codec, DoNextDoomed(w, p))
  {
    hide Homes, Exclusive, Disciplined, AllWhole, Still, Observed;
    var v := DoNextDoomed(w, p);
    if v != w {
      assert PrunerFits(w, w.pruners[p]);
      OnePruner(w, v, p);
      PrunerStepPreserves(codec, w, v);
    }
  }

  // ----- every step -----

  lemma ActPreserves(codec: Codec, w: World, a: Action)
    requires Lawful(codec) && Inv(codec, w)
    ensures StepInv(codec, Act(codec, w, a))
  {
    hide Inv, StepInv, Lawful, DoReserve, DoOpen, DoWrite, DoClose, DoCrash, DoStartPrune, DoReadManifest,
      DoCheckDocument, DoEndScan, DoUnlink, DoRemoveDirectory, DoNextDoomed;
    match a
    case Reserve(p, name, job) => ReservePreserves(codec, w, p, name, job);
    case Open(p, unused) => OpenPreserves(codec, w, p, unused);
    case WriteChunk(p, size) => WritePreserves(codec, w, p, size);
    case Close(p) => ClosePreserves(codec, w, p);
    case Crash(p) => CrashPreserves(codec, w, p);
    case StartPrune(p, keep, listing) => StartPrunePreserves(codec, w, p, keep, listing);
    case ReadManifest(p, outdated) => ReadManifestPreserves(codec, w, p, outdated);
    case CheckDocument(p, outdated) => CheckDocumentPreserves(codec, w, p, outdated);
    case EndScan(p) => EndScanPreserves(codec, w, p);
    case Unlink(p, part) => UnlinkPreserves(codec, w, p, part);
    case RemoveDirectory(p) => RemoveDirectoryPreserves(codec, w, p);
    case NextDoomed(p) => NextDoomedPreserves(codec, w, p);
  }

  /** Every step keeps the invariant. */
  lemma NextPreserves(codec: Codec, w: World, a: Action)
    requires Lawful(codec) && Inv(codec, w)
    ensures Inv(codec, Next(codec, w, a))
  {
    hide Inv, StepInv, Lawful, Act, Observe;
    ActPreserves(codec, w, a);
    ObserveRestores(codec, Act(codec, w, a));
  }
}
