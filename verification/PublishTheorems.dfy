/**
 * Safety of the publish protocol over every run: the newest generation that ever verified still
 * verifies, so selection never moves back, and what is selected is one export, whole.
 */
module PublishTheorems {
  import opened Common
  import opened Manifest
  import opened PublishProtocol
  import opened PublishInvariant
  import CatalogTheorems

  lemma EmptyInv(codec: Codec)
    ensures Inv(codec, EMPTY)
  {
  }

  /** The invariant holds after any steps whatever. */
  lemma {:induction false} RunInv(codec: Codec, actions: seq<Action>)
    requires Lawful(codec)
    ensures Inv(codec, Run(codec, EMPTY, actions))
  {
    hide Inv, Lawful, Next;
    EmptyInv(codec);
    if actions != [] {
      RunInv(codec, actions[..|actions| - 1]);
      NextPreserves(codec, Run(codec, EMPTY, actions[..|actions| - 1]), actions[|actions| - 1]);
    }
  }

  // ----- the history variables mean what they say -----

  lemma ActKeepsVerified(codec: Codec, w: World, a: Action)
    ensures Act(codec, w, a).history.verified == w.history.verified
  {
  }

  /** One step adds to `verified` the names that verify after it. */
  lemma NextVerified(codec: Codec, w: World, a: Action)
    ensures forall n :: n in Next(codec, w, a).history.verified <==>
      n in w.history.verified || Verifies(codec, Next(codec, w, a), n)
  {
    ActKeepsVerified(codec, w, a);
    var v := Act(codec, w, a);
    hide Act;
    forall n
      ensures Verifies(codec, Observe(codec, v), n) <==> Verifies(codec, v, n)
    {
    }
  }

  /** The names recorded as verified are those that verified in some state of the run. */
  lemma {:induction false} VerifiedIsHistory(codec: Codec, actions: seq<Action>, n: string)
    ensures n in Run(codec, EMPTY, actions).history.verified
       <==> exists k :: 0 <= k <= |actions| && Verifies(codec, Run(codec, EMPTY, actions[..k]), n)
  {
    hide Next, Verifies;
    if actions == [] {
      NothingVerifiesAtFirst(codec, n);
      assert actions[..0] == [];
    } else {
      var init, last := actions[..|actions| - 1], actions[|actions| - 1];
      VerifiedIsHistory(codec, init, n);
      NextVerified(codec, Run(codec, EMPTY, init), last);
      assert actions[..|actions|] == actions;
      if k :| 0 <= k <= |actions| && Verifies(codec, Run(codec, EMPTY, actions[..k]), n) {
        assert k < |actions| ==> init[..k] == actions[..k];
      }
      if k :| 0 <= k <= |init| && Verifies(codec, Run(codec, EMPTY, init[..k]), n) {
        assert init[..k] == actions[..k];
      }
    }
  }

  lemma NothingVerifiesAtFirst(codec: Codec, n: string)
    ensures !Verifies(codec, EMPTY, n)
  {
  }

  lemma ActJobs(codec: Codec, w: World, a: Action, n: string)
    requires n in Act(codec, w, a).history.jobs
    ensures (n in w.history.jobs && w.history.jobs[n] == Act(codec, w, a).history.jobs[n])
         || (a.Reserve? && a.name == n && a.job == Act(codec, w, a).history.jobs[n])
  {
  }

  /** A recorded job is one that some process set out to export under that name. */
  lemma {:induction false} JobsWereReserved(codec: Codec, actions: seq<Action>, n: string)
    requires n in Run(codec, EMPTY, actions).history.jobs
    ensures exists a <- actions :: a.Reserve? && a.name == n && a.job == Run(codec, EMPTY, actions).history.jobs[n]
  {
    hide Act;
    if actions != [] {
      var init, last := actions[..|actions| - 1], actions[|actions| - 1];
      assert actions == init + [last];
      ActJobs(codec, Run(codec, EMPTY, init), last, n);
      var was, now := Run(codec, EMPTY, init).history.jobs, Run(codec, EMPTY, actions).history.jobs;
      if n in was && was[n] == now[n] {
        JobsWereReserved(codec, init, n);
      } else {
        assert last in actions;
      }
    }
  }

  // ----- what is removed -----

  /** The directory `n` is there and links to `f`. */
  ghost predicate Linked(w: World, n: string, part: Part, f: FileId) {
    n in w.dirs && w.dirs[n].Link(part) == Some(f)
  }

  lemma ScanChangesNothing(codec: Codec, w: World, a: Action)
    requires a.ReadManifest? || a.CheckDocument? || a.EndScan?
    ensures
      var v := Next(codec, w, a);
      v.dirs == w.dirs && v.files == w.files && v.history.jobs == w.history.jobs
  {
    hide VerifyManifest, VerifyFile, PartOf, Verifies, SkipName, DoReserve, DoOpen, DoWrite, DoClose, DoCrash,
      DoStartPrune, DoUnlink, DoRemoveDirectory, DoNextDoomed;
    if a.ReadManifest? || a.CheckDocument? {
      if a.p in w.pruners && w.pruners[a.p].Scanning? && w.pruners[a.p].todo != [] {
        SkipChangesNothing(w, a.p, w.pruners[a.p], a.outdated);
      }
    }
  }

  lemma SkipChangesNothing(w: World, p: ProcessId, pr: Pruner, outdated: bool)
    requires pr.Scanning? && pr.todo != []
    ensures
      var v := SkipName(w, p, pr, outdated);
      v.dirs == w.dirs && v.files == w.files && v.history.jobs == w.history.jobs
  {
  }

  /** No other step takes a directory or a link away. */
  lemma StepKeepsLinks(codec: Codec, w: World, a: Action, n: string)
    requires !a.Unlink? && !a.RemoveDirectory? && n in w.dirs
    ensures n in Next(codec, w, a).dirs
    ensures forall part: Part, f | Linked(w, n, part, f) :: Linked(Next(codec, w, a), n, part, f)
  {
    if a.ReadManifest? || a.CheckDocument? || a.EndScan? {
      ScanChangesNothing(codec, w, a);
    } else {
      hide DoReadManifest, DoCheckDocument, DoEndScan, Verifies, Payload, WriteAt;
    }
  }

  /** A step takes away directories and links of names only that a prune has chosen. */
  lemma LostWasDoomed(codec: Codec, w: World, a: Action, n: string)
    requires Inv(codec, w) && n in w.dirs
    ensures n !in Next(codec, w, a).dirs ==> n in w.history.doomed
    ensures forall part: Part, f | Linked(w, n, part, f) && !Linked(Next(codec, w, a), n, part, f) ::
      n in w.history.doomed
  {
    if a.Unlink? || a.RemoveDirectory? {
      RemovalWasDoomed(codec, w, a, n);
    } else {
      StepKeepsLinks(codec, w, a, n);
    }
  }

  lemma RemovalWasDoomed(codec: Codec, w: World, a: Action, n: string)
    requires Inv(codec, w) && n in w.dirs && (a.Unlink? || a.RemoveDirectory?)
    ensures n !in Next(codec, w, a).dirs ==> n in w.history.doomed
    ensures forall part: Part, f | Linked(w, n, part, f) && !Linked(Next(codec, w, a), n, part, f) ::
      n in w.history.doomed
  {
    hide Inv, Verifies;
    if IsRemoving(w, a.p) {
      HeadIsDoomed(codec, w, a.p);
    }
  }

  lemma DoomedGrows(codec: Codec, w: World, a: Action)
    ensures w.history.doomed <= Next(codec, w, a).history.doomed
  {
    hide VerifyManifest, VerifyFile, PartOf, Verifies, Payload, WriteAt;
    if a.ReadManifest? || a.CheckDocument? {
      ScanGrowsDoomed(codec, w, a);
    } else {
      hide DoReadManifest, DoCheckDocument;
    }
  }

  lemma ScanGrowsDoomed(codec: Codec, w: World, a: Action)
    requires a.ReadManifest? || a.CheckDocument?
    ensures w.history.doomed <= Act(codec, w, a).history.doomed
  {
    hide VerifyManifest, VerifyFile, PartOf;
  }

  /**
   * Over a whole run: a directory, or a file of one, that was there once and is there no longer
   * belonged to a name that a prune had chosen; so it is older than the newest that verified.
   */
  lemma {:induction false} RemovedWasDoomed(codec: Codec, before: seq<Action>, after: seq<Action>, n: string)
    requires Lawful(codec) && n in Run(codec, EMPTY, before).dirs
    ensures
      var w, v := Run(codec, EMPTY, before), Run(codec, EMPTY, before + after);
      && (n !in v.dirs ==> n in v.history.doomed)
      && forall part: Part, f | Linked(w, n, part, f) && !Linked(v, n, part, f) :: n in v.history.doomed
    decreases |after|
  {
    hide Inv, Next, Lawful;
    if after == [] {
      assert before + after == before;
    } else {
      var all, init := before + after, after[..|after| - 1];
      assert all[..|all| - 1] == before + init;
      var u := Run(codec, EMPTY, before + init);
      RemovedWasDoomed(codec, before, init, n);
      RunInv(codec, before + init);
      DoomedGrows(codec, u, all[|all| - 1]);
      if n in u.dirs {
        LostWasDoomed(codec, u, all[|all| - 1], n);
      }
    }
  }

  // ----- safety -----

  /** The newest generation that verifies: what selection finds in this state. */
  ghost predicate IsSelected(codec: Codec, w: World, n: string) {
    Verifies(codec, w, n) && forall m | Verifies(codec, w, m) :: AtMost(m, n)
  }

  lemma BestInState(codec: Codec, w: World) returns (top: string)
    requires Inv(codec, w) && w.history.verified != {}
    ensures top in w.history.verified && forall n <- w.history.verified :: AtMost(n, top)
    ensures IsSelected(codec, w, top) && top !in w.history.doomed
    ensures forall n <- w.history.doomed :: Less(n, top)
  {
    hide Homes, Exclusive, Disciplined, AllWhole, Pruning, Verifies;
    top := CatalogTheorems.GreatestName(w.history.verified);
    forall n <- w.history.doomed
      ensures Less(n, top)
    {
      var c :| c in w.history.verified && Less(n, c);
      if c != top {
        LessTransitive(n, c, top);
      }
    }
    LessIrreflexive(top);
    forall m | Verifies(codec, w, m)
      ensures AtMost(m, top)
    {
      VerifyingIsThere(codec, w, m);
    }
  }

  /**
   * After any steps whatever, the greatest name that ever verified still verifies, was never
   * chosen for removal, and is what selection finds; every name a prune ever chose is older.
   */
  lemma BestStillVerifies(codec: Codec, actions: seq<Action>) returns (top: string)
    requires Lawful(codec) && Run(codec, EMPTY, actions).history.verified != {}
    ensures
      var w := Run(codec, EMPTY, actions);
      && top in w.history.verified && (forall n <- w.history.verified :: AtMost(n, top))
      && IsSelected(codec, w, top) && top !in w.history.doomed
      && forall n <- w.history.doomed :: Less(n, top)
  {
    hide Inv, Run, Lawful, Verifies;
    RunInv(codec, actions);
    top := BestInState(codec, Run(codec, EMPTY, actions));
  }

  lemma VerifyingIsThere(codec: Codec, w: World, m: string)
    requires Verifies(codec, w, m)
    ensures m in w.dirs
  {
  }

  lemma {:induction false} VerifiedGrows(codec: Codec, before: seq<Action>, after: seq<Action>)
    ensures Run(codec, EMPTY, before).history.verified <= Run(codec, EMPTY, before + after).history.verified
  {
    hide Next, Verifies;
    if after == [] {
      assert before + after == before;
    } else {
      var all := before + after;
      VerifiedGrows(codec, before, after[..|after| - 1]);
      assert all[..|all| - 1] == before + after[..|after| - 1];
      NextVerified(codec, Run(codec, EMPTY, all[..|all| - 1]), all[|all| - 1]);
    }
  }

  /**
   * For any number of exports and prunes, interleaved and stopped anywhere: once a generation is
   * selected, every later state selects it or a newer one.
   */
  lemma SelectionNeverMovesBack(codec: Codec, before: seq<Action>, after: seq<Action>, n: string) returns (m: string)
    requires Lawful(codec)
    requires IsSelected(codec, Run(codec, EMPTY, before), n)
    ensures IsSelected(codec, Run(codec, EMPTY, before + after), m) && AtMost(n, m)
  {
    hide Inv, Run, Lawful, Verifies;
    var w, v := Run(codec, EMPTY, before), Run(codec, EMPTY, before + after);
    RunInv(codec, before);
    RunInv(codec, before + after);
    SelectedWasObserved(codec, w, n);
    VerifiedGrows(codec, before, after);
    m := BestInState(codec, v);
  }

  lemma SelectedWasObserved(codec: Codec, w: World, n: string)
    requires Inv(codec, w) && Verifies(codec, w, n)
    ensures n in w.history.verified
  {
  }

  /**
   * The selected generation is whole: its document is byte for byte the document of the export
   * that reserved the name, and its manifest is that export's, however many others ran or died.
   */
  lemma SelectedIsWhole(codec: Codec, actions: seq<Action>, n: string)
    requires Lawful(codec)
    requires IsSelected(codec, Run(codec, EMPTY, actions), n)
    ensures
      var w := Run(codec, EMPTY, actions);
      && n in w.history.jobs
      && PartOf(w, n, Document) == Some(w.history.jobs[n].document)
      && VerifyGeneration(codec, n, Generation(PartOf(w, n, Document), PartOf(w, n, Declaration)))
         == Success(ManifestFor(codec, n, w.history.jobs[n]))
      && exists a <- actions :: a.Reserve? && a.name == n && a.job == w.history.jobs[n]
  {
    hide Run;
    var w := Run(codec, EMPTY, actions);
    RunInv(codec, actions);
    SelectedWasObserved(codec, w, n);
    var top := BestInState(codec, w);
    LessTotal(n, top);
    assert n == top;
    WholeVerified(codec, w, n);
    JobsWereReserved(codec, actions, n);
  }

  lemma WholeVerified(codec: Codec, w: World, n: string)
    requires Lawful(codec) && Inv(codec, w) && Verifies(codec, w, n) && n !in w.history.doomed
    ensures n in w.history.jobs
    ensures PartOf(w, n, Document) == Some(w.history.jobs[n].document)
    ensures VerifyGeneration(codec, n, Generation(PartOf(w, n, Document), PartOf(w, n, Declaration)))
         == Success(ManifestFor(codec, n, w.history.jobs[n]))
  {
    hide Homes, Exclusive, Disciplined, Topped, Still, Observed, Pruning;
    assert Whole(codec, w, n);
    assert PartOf(w, n, Declaration).Some?;
    var m := ManifestFor(codec, n, w.history.jobs[n]);
    var k: nat :| IsPrefix(PartOf(w, n, Declaration).value, codec.encode(m), k);
    assert PartOf(w, n, Declaration).value == Prefix(codec, m, k);
    assert codec.parse(Prefix(codec, m, k)) in {None, Some(m)};
  }

  /** A readable export that has written its whole manifest. */
  predicate IsFinished(codec: Codec, w: World, p: ProcessId) {
    && p in w.exporters
    && var e := w.exporters[p];
      Readable(e.job) && e.phase.Writing? && e.phase.part.Declaration? &&
          e.phase.written == |Payload(codec, e, Declaration)|
  }

  /** Such an export is complete, unless a prune has doomed its name. */
  lemma FinishedExportVerifies(codec: Codec, w: World, p: ProcessId)
    requires Lawful(codec) && Inv(codec, w) && IsFinished(codec, w, p)
    requires w.exporters[p].name !in w.history.doomed
    ensures Verifies(codec, w, w.exporters[p].name)
  {
    var e := w.exporters[p];
    var m := ManifestFor(codec, e.name, e.job);
    assert Follows(codec, w, e);
    assert PartOf(w, e.name, Document) == Some(e.job.document);
    assert w.dirs[e.name].Link(Declaration) == Some(e.phase.file);
    assert w.files[e.phase.file] == codec.encode(m);
    PublishedIsComplete(codec, e.name, e.job);
  }
}
