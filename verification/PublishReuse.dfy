/** A name can be used again: a generation is complete, pruned, and its name is reserved by a later export. */
module PublishReuse {
  import opened Common
  import opened Names
  import opened Manifest
  import opened PublishProtocol
  import opened PublishExample
  import opened PublishGrace
  import opened PublishPrune
  import CatalogStore

  /** Steps one after the other, while the clock stands. */
  function AtOnce(steps: seq<Action>): seq<Event> {
    if steps == [] then [] else AtOnce(steps[..|steps| - 1]) + [Step(steps[|steps| - 1])]
  }

  /** Exports do not look at the clock. */
  lemma {:induction false} ExportsAtOnce(codec: Codec, t: Timed, steps: seq<Action>)
    requires forall a <- steps :: OfExport(a)
    ensures RunTimed(codec, t, AtOnce(steps)).world == Run(codec, t.world, steps)
  {
    hide Next, RunTimed, Run;
    if steps == [] {
      NoEvents(codec, t);
      RunNothing(codec, t.world);
    } else {
      var init, last := steps[..|steps| - 1], steps[|steps| - 1];
      ExportsAtOnce(codec, t, init);
      LastEvent(codec, t, AtOnce(init), Step(last));
      RunStep(codec, t.world, init, last);
      assert steps == init + [last] && last in steps;
    }
  }

  /** Two names, the older one first. */
  lemma TwoNames(low: string, high: string)
    requires Less(low, high)
    ensures Ascending([low, high]) && Descending([high, low]) && low != high
  {
    LessIrreflexive(low);
  }

  /** A prune that keeps one removes a complete generation behind another. */
  lemma OlderIsDoomed(codec: Codec, t: Timed, low: string, high: string)
    requires Dated(t) && Less(low, high) && IsCatalogName(low) && IsCatalogName(high)
    requires Verifies(codec, t.world, low) && Verifies(codec, t.world, high)
    ensures CatalogStore.Doomed(codec, EntriesOf(t), 1, t.now, low)
  {
    hide Complete, PartOf;
    var newer := CatalogStore.Newer(CatalogStore.CompleteNames(codec, EntriesOf(t)), low);
    assert high in newer;
    SubsetSize({high}, newer);
  }

  /** Two exports, a prune that keeps one, and a third export under the name of the first. */
  lemma NameComesBack(
    codec: Codec, now: int, low: string, high: string, first: Job, second: Job, third: Job, p: ProcessId)
    returns (before: seq<Event>, prune: seq<Event>)
    requires Lawful(codec) && Readable(first) && Readable(second)
    requires Less(low, high) && IsCatalogName(low) && IsCatalogName(high)
    ensures Verifies(codec, RunTimed(codec, StartAt(now), before).world, low)
    ensures low !in RunTimed(codec, StartAt(now), before + prune).world.dirs
    ensures
      var w := RunTimed(codec, StartAt(now), before + prune + [Step(Reserve(p, low, third))]).world;
      && low in w.dirs && w.dirs[low] == Directory(None, None)
      && p in w.exporters && w.exporters[p] == Exporter(low, third, Ready(Document))
  {
    hide Lawful, Readable, Run, RunTimed, Verifies, Published, Less, WholePrune, EntriesOf, IsCatalogName,
      CatalogStore.Doomed;
    var names, jobs := [low, high], [first, second];
    TwoNames(low, high);
    NothingPublished(codec, [], []);
    assert names[..0] == [] && jobs[..0] == [];
    var steps := PublishRest(codec, EMPTY, names, jobs, 0);
    before := AtOnce(steps);
    ExportsAtOnce(codec, StartAt(now), steps);
    var t := RunTimed(codec, StartAt(now), before);
    BothVerify(codec, t.world, low, high, first, second);
    prune := WholePrune(p, 1, [high, low]);
    ListedBoth(t, low, high);
    RunsAreDated(codec, now, before);
    PruneAlone(codec, t, p, 1, [high, low]);
    RunSplits(codec, StartAt(now), before, prune);
    OlderIsDoomed(codec, t, low, high);
    var u := RunTimed(codec, t, prune);
    GoneFrom(codec, t, u, low);
    LastEvent(codec, StartAt(now), before + prune, Step(Reserve(p, low, third)));
    ReservedAgain(codec, u, p, low, third);
  }

  lemma BothVerify(codec: Codec, w: World, low: string, high: string, first: Job, second: Job)
    requires Lawful(codec) && Readable(first) && Readable(second)
    requires Published(codec, w, [low, high], [first, second])
    ensures Verifies(codec, w, low) && Verifies(codec, w, high)
    ensures w.pruners == map[] && w.exporters == map[] && forall n :: n in w.dirs <==> n == low || n == high
  {
    hide Lawful, Verifies, IsExport, Readable;
    assert IsExport(codec, w, [low, high][0], [first, second][0], 2 * 0, 2 * 0 + 1);
    assert IsExport(codec, w, [low, high][1], [first, second][1], 2 * 1, 2 * 1 + 1);
    ExportVerifies(codec, w, low, first, 0, 1);
    ExportVerifies(codec, w, high, second, 2, 3);
  }

  lemma ListedBoth(t: Timed, low: string, high: string)
    requires Less(low, high) && IsCatalogName(low) && IsCatalogName(high)
    requires forall n :: n in t.world.dirs <==> n == low || n == high
    ensures IsCatalogListing(t, [high, low])
  {
    hide Less, IsCatalogName;
    TwoNames(low, high);
  }

  lemma GoneFrom(codec: Codec, t: Timed, u: Timed, n: string)
    requires Dated(t) && Dated(u) && EntriesOf(u) == CatalogStore.PruneOf(codec, EntriesOf(t), 1, t.now)
    requires CatalogStore.Doomed(codec, EntriesOf(t), 1, t.now, n)
    ensures n !in u.world.dirs
  {
    hide CatalogStore.Doomed;
    assert n !in EntriesOf(u);
  }

  lemma ReservedAgain(codec: Codec, u: Timed, p: ProcessId, n: string, job: Job)
    requires n !in u.world.dirs && p !in u.world.exporters
    ensures
      var w := Advance(codec, u, Step(Reserve(p, n, job))).world;
      && n in w.dirs && w.dirs[n] == Directory(None, None)
      && p in w.exporters && w.exporters[p] == Exporter(n, job, Ready(Document))
  {
  }
}
