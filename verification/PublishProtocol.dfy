/**
 * Exports and prunes running at the same time on one catalog directory, as a state machine of
 * small steps. Any number of processes take part, steps interleave freely, and a process can
 * stop for good between any two steps. Files are inodes: a process writes to the file it opened
 * even after the directory was removed or replaced.
 *
 * Two choices are left open that the program makes in a particular way, so the results hold
 * whatever it does: a prune may list any names, and may judge any incomplete generation
 * outdated.
 */
module PublishProtocol {
  import opened Common
  import opened Names
  import opened Manifest
  import CatalogStore

  type FileId = nat
  type ProcessId = nat

  datatype Part = Document | Declaration

  /** A generation directory: the files its two names link to. */
  datatype Directory = Directory(document: Option<FileId>, declaration: Option<FileId>) {
    function Link(part: Part): Option<FileId> {
      if part.Document? then document else declaration
    }

    function WithLink(part: Part, link: Option<FileId>): Directory {
      if part.Document? then this.(document := link) else this.(declaration := link)
    }
  }

  /** `Ready(part)` is about to create the file, `Writing` has it open and has written some of it. */
  datatype Phase = Ready(part: Part) | Writing(part: Part, file: FileId, written: nat)

  datatype Exporter = Exporter(name: string, job: Job, phase: Phase)

  /** `seen` is the manifest read for the first name of `todo`, before its document is checked. */
  datatype Pruner =
    | Scanning(keep: nat, todo: seq<string>, seen: Option<Manifest>, complete: seq<string>, doomed: seq<string>)
    | Removing(doomed: seq<string>)

  /**
   * What has happened: the names that verified at some time, the names some prune decided to
   * remove, the last job for each name, and the directory in which each file was created.
   */
  datatype History = History(
    verified: set<string>, doomed: set<string>, jobs: map<string, Job>, home: map<FileId, string>)

  datatype World = World(
    dirs: map<string, Directory>, files: map<FileId, Bytes>,
    exporters: map<ProcessId, Exporter>, pruners: map<ProcessId, Pruner>, history: History)

  const EMPTY := World(map[], map[], map[], map[], History({}, {}, map[], map[]))

  datatype Action =
    | Reserve(p: ProcessId, name: string, job: Job)
    | Open(p: ProcessId, unused: FileId)
    | WriteChunk(p: ProcessId, size: nat)
    | Close(p: ProcessId)
    | Crash(p: ProcessId)
    | StartPrune(p: ProcessId, keep: int, listing: seq<string>)
    | ReadManifest(p: ProcessId, outdated: bool)
    | CheckDocument(p: ProcessId, outdated: bool)
    | EndScan(p: ProcessId)
    | Unlink(p: ProcessId, part: Part)
    | RemoveDirectory(p: ProcessId)
    | NextDoomed(p: ProcessId)

  // ----- what a state shows -----

  function Content(w: World, link: Option<FileId>): Option<Bytes> {
    if link.Some? && link.value in w.files then Some(w.files[link.value]) else None
  }

  function PartOf(w: World, name: string, part: Part): Option<Bytes> {
    if name in w.dirs then Content(w, w.dirs[name].Link(part)) else None
  }

  predicate Verifies(codec: Codec, w: World, name: string) {
    name in w.dirs && Complete(codec, name, Generation(PartOf(w, name, Document), PartOf(w, name, Declaration)))
  }

  // ----- steps -----

  function Payload(codec: Codec, e: Exporter, part: Part): Bytes {
    if part.Document? then e.job.document else codec.encode(ManifestFor(codec, e.name, e.job))
  }

  /** Overwrites from `at` on; a gap after a truncation reads as zeros. */
  function WriteAt(was: Bytes, at: nat, chunk: Bytes): Bytes {
    (if at <= |was| then was[..at] else was + seq(at - |was|, _ => 0 as Byte)) + chunk +
    (if at + |chunk| <= |was| then was[at + |chunk|..] else [])
  }

  /** `mkdir`: only one process gets a name. */
  function DoReserve(w: World, p: ProcessId, name: string, job: Job): World {
    if p in w.exporters || name in w.dirs then w
    else w.(
      dirs := w.dirs[name := Directory(None, None)],
      exporters := w.exporters[p := Exporter(name, job, Ready(Document))],
      history := w.history.(jobs := w.history.jobs[name := job]))
  }

  /** Creates the file, or truncates one that is there; without the directory the export fails. */
  function DoOpen(w: World, p: ProcessId, unused: FileId): World {
    if p !in w.exporters || !w.exporters[p].phase.Ready? then w
    else
      var e := w.exporters[p];
      var part := e.phase.part;
      if e.name !in w.dirs then w.(exporters := w.exporters - {p})
      else
        var link := w.dirs[e.name].Link(part);
        if link.Some? then w.(
          files := w.files[link.value := []],
          exporters := w.exporters[p := e.(phase := Writing(part, link.value, 0))])
        else if unused in w.files then w
        else w.(
          dirs := w.dirs[e.name := w.dirs[e.name].WithLink(part, Some(unused))],
          files := w.files[unused := []],
          exporters := w.exporters[p := e.(phase := Writing(part, unused, 0))],
          history := w.history.(home := w.history.home[unused := e.name]))
  }

  function DoWrite(codec: Codec, w: World, p: ProcessId, size: nat): World {
    if p !in w.exporters || !w.exporters[p].phase.Writing? then w
    else
      var e := w.exporters[p];
      var Writing(part, file, written) := e.phase;
      var payload := Payload(codec, e, part);
      if written + size > |payload| || file !in w.files then w
      else w.(
        files := w.files[file := WriteAt(w.files[file], written, payload[written..written + size])],
        exporters := w.exporters[p := e.(phase := Writing(part, file, written + size))])
  }

  /** Once a file is whole: after the document the manifest, after the manifest the export is done. */
  function DoClose(codec: Codec, w: World, p: ProcessId): World {
    if p !in w.exporters || !w.exporters[p].phase.Writing? then w
    else
      var e := w.exporters[p];
      if e.phase.written != |Payload(codec, e, e.phase.part)| then w
      else if e.phase.part.Document? then w.(exporters := w.exporters[p := e.(phase := Ready(Declaration))])
      else w.(exporters := w.exporters - {p})
  }

  function DoCrash(w: World, p: ProcessId): World {
    w.(exporters := w.exporters - {p}, pruners := w.pruners - {p})
  }

  ghost function DoStartPrune(w: World, p: ProcessId, keep: int, listing: seq<string>): World {
    if p in w.pruners || !Descending(listing) then w
    else w.(pruners := w.pruners[p := Scanning(CatalogStore.EffectiveKeep(keep), listing, None, [], [])])
  }

  /** The first name is found incomplete. */
  function SkipName(w: World, p: ProcessId, pr: Pruner, outdated: bool): World
    requires pr.Scanning? && pr.todo != []
  {
    if outdated && pr.complete != [] then w.(
      pruners := w.pruners[p := pr.(todo := pr.todo[1..], seen := None, doomed := pr.doomed + [pr.todo[0]])],
      history := w.history.(doomed := w.history.doomed + {pr.todo[0]}))
    else w.(pruners := w.pruners[p := pr.(todo := pr.todo[1..], seen := None)])
  }

  function DoReadManifest(codec: Codec, w: World, p: ProcessId, outdated: bool): World {
    if p !in w.pruners || !w.pruners[p].Scanning? || w.pruners[p].todo == [] || w.pruners[p].seen.Some? then w
    else
      var pr := w.pruners[p];
      var m := VerifyManifest(codec, pr.todo[0], PartOf(w, pr.todo[0], Declaration));
      if m.Failure? then SkipName(w, p, pr, outdated)
      else w.(pruners := w.pruners[p := pr.(seen := Some(m.value))])
  }

  function DoCheckDocument(codec: Codec, w: World, p: ProcessId, outdated: bool): World {
    if p !in w.pruners || !w.pruners[p].Scanning? || w.pruners[p].todo == [] || w.pruners[p].seen.None? then w
    else
      var pr := w.pruners[p];
      var m := pr.seen.value;
      var bad := VerifyFile(codec, PartOf(w, pr.todo[0], Document), m.sizeBytes, m.sha256);
      if bad.Some? then SkipName(w, p, pr, outdated)
      else w.(pruners :=
        w.pruners[p := pr.(todo := pr.todo[1..], seen := None, complete := pr.complete + [pr.todo[0]])])
  }

  /** The complete generations beyond the first `keep`. */
  function Beyond(pr: Pruner): seq<string>
    requires pr.Scanning?
  {
    if |pr.complete| > pr.keep then pr.complete[pr.keep..] else []
  }

  function DoEndScan(w: World, p: ProcessId): World {
    if p !in w.pruners || !w.pruners[p].Scanning? || w.pruners[p].todo != [] then w
    else
      var pr := w.pruners[p];
      w.(pruners := w.pruners[p := Removing(pr.doomed + Beyond(pr))],
         history := w.history.(doomed := w.history.doomed + CatalogStore.Elements(Beyond(pr))))
  }

  predicate IsRemoving(w: World, p: ProcessId) {
    p in w.pruners && w.pruners[p].Removing? && w.pruners[p].doomed != []
  }

  function DoUnlink(w: World, p: ProcessId, part: Part): World {
    if !IsRemoving(w, p) || w.pruners[p].doomed[0] !in w.dirs then w
    else
      var name := w.pruners[p].doomed[0];
      w.(dirs := w.dirs[name := w.dirs[name].WithLink(part, None)])
  }

  function DoRemoveDirectory(w: World, p: ProcessId): World {
    if !IsRemoving(w, p) || w.pruners[p].doomed[0] !in w.dirs then w
    else
      var name := w.pruners[p].doomed[0];
      if w.dirs[name] == Directory(None, None) then w.(dirs := w.dirs - {name}) else w
  }

  function DoNextDoomed(w: World, p: ProcessId): World {
    if !IsRemoving(w, p) then w else w.(pruners := w.pruners[p := Removing(w.pruners[p].doomed[1..])])
  }

  ghost function Act(codec: Codec, w: World, a: Action): World {
    match a
    case Reserve(p, name, job) => DoReserve(w, p, name, job)
    case Open(p, unused) => DoOpen(w, p, unused)
    case WriteChunk(p, size) => DoWrite(codec, w, p, size)
    case Close(p) => DoClose(codec, w, p)
    case Crash(p) => DoCrash(w, p)
    case StartPrune(p, keep, listing) => DoStartPrune(w, p, keep, listing)
    case ReadManifest(p, outdated) => DoReadManifest(codec, w, p, outdated)
    case CheckDocument(p, outdated) => DoCheckDocument(codec, w, p, outdated)
    case EndScan(p) => DoEndScan(w, p)
    case Unlink(p, part) => DoUnlink(w, p, part)
    case RemoveDirectory(p) => DoRemoveDirectory(w, p)
    case NextDoomed(p) => DoNextDoomed(w, p)
  }

  /** Records the names that verify now. */
  function Observe(codec: Codec, w: World): World {
    w.(history := w.history.(verified := w.history.verified + set n | n in w.dirs && Verifies(codec, w, n)))
  }

  ghost function Next(codec: Codec, w: World, a: Action): World {
    Observe(codec, Act(codec, w, a))
  }

  /** The state after a sequence of steps; a step that is not possible changes nothing. */
  ghost function Run(codec: Codec, w: World, actions: seq<Action>): World {
    if actions == [] then w else Next(codec, Run(codec, w, actions[..|actions| - 1]), actions[|actions| - 1])
  }
}
