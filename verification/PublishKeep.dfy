/**
 * What keeping several generations buys while exports and prunes interleave. A generation that has
 * verified is chosen by a prune only as surplus, and then a prune that keeps `k` has found `k` newer
 * ones. So as long as nothing is chosen that never verified, the `k` newest that ever verified all
 * still verify.
 */
module PublishKeep {
  import opened Common
  import opened Manifest
  import opened PublishProtocol
  import opened PublishInvariant
  import opened PublishTheorems
  import CatalogStore

  // ----- generations that no prune dooms -----

  /** The manifest is that of the export, and the generation is whole, as long as no prune dooms it. */
  ghost predicate StillGood(codec: Codec, w: World, n: string, m: Manifest) {
    n in w.history.doomed ||
    (n in w.dirs && n in w.history.jobs && Verifies(codec, w, n) && m == ManifestFor(codec, n, w.history.jobs[n]))
  }

  /** A name that no prune dooms keeps its directory, its job and its completeness. */
  lemma UndoomedStays(codec: Codec, w: World, a: Action, n: string)
    requires Lawful(codec) && Inv(codec, w) && n in w.dirs && n in w.history.jobs && Verifies(codec, w, n)
    requires n !in Next(codec, w, a).history.doomed
    ensures
      var v := Next(codec, w, a);
      n in v.dirs && n in v.history.jobs && v.history.jobs[n] == w.history.jobs[n] && Verifies(codec, v, n)
  {
    hide Inv, Verifies, Lawful;
    DoomedGrows(codec, w, a);
    LostWasDoomed(codec, w, a, n);
    JobStays(codec, w, a, n);
    NextPreserves(codec, w, a);
    SelectedWasObserved(codec, w, n);
    NextVerified(codec, w, a);
    VerifiedStill(codec, Next(codec, w, a), n);
  }

  lemma JobStays(codec: Codec, w: World, a: Action, n: string)
    requires n in w.dirs && n in w.history.jobs
    ensures n in Next(codec, w, a).history.jobs && Next(codec, w, a).history.jobs[n] == w.history.jobs[n]
  {
    hide Verifies;
  }

  lemma VerifiedStill(codec: Codec, w: World, n: string)
    requires Inv(codec, w) && n in w.history.verified && n !in w.history.doomed
    ensures Verifies(codec, w, n)
  {
  }

  /** Whatever verifies and is not doomed has the manifest of its export next to the whole document. */
  lemma GoodNow(codec: Codec, w: World, n: string)
    requires Lawful(codec) && Inv(codec, w) && n in w.history.verified && n !in w.history.doomed
    ensures n in w.dirs && n in w.history.jobs && Verifies(codec, w, n)
    ensures var m := ManifestFor(codec, n, w.history.jobs[n]);
      && VerifyManifest(codec, n, PartOf(w, n, Declaration)) == Success(m)
      && VerifyFile(codec, PartOf(w, n, Document), m.sizeBytes, m.sha256) == None
  {
    hide Inv, Lawful, VerifyManifest, VerifyFile, PartOf;
    VerifiedStill(codec, w, n);
    WholeVerified(codec, w, n);
  }

  lemma StillGoodStays(codec: Codec, w: World, a: Action, n: string, m: Manifest)
    requires Lawful(codec) && Inv(codec, w) && StillGood(codec, w, n, m)
    ensures StillGood(codec, Next(codec, w, a), n, m)
  {
    hide Inv, Lawful, Next, Verifies;
    DoomedGrows(codec, w, a);
    if n !in Next(codec, w, a).history.doomed {
      UndoomedStays(codec, w, a, n);
    }
  }

  // ----- prunes that keep at least `k` -----

  ghost predicate KeepAtLeast(actions: seq<Action>, k: nat) {
    forall a <- actions :: KeepsAtLeast(a, k)
  }

  predicate KeepsAtLeast(a: Action, k: nat) {
    a.StartPrune? ==> CatalogStore.EffectiveKeep(a.keep) >= k
  }

  /** A scan keeps at least `k`, and the manifest it has read is still that of the first name. */
  ghost predicate ScanFits(codec: Codec, w: World, pr: Pruner, k: nat) {
    pr.Scanning? ==> pr.keep >= k && (pr.seen.Some? ==> pr.todo != [] && StillGood(codec, w, pr.todo[0], pr.seen.value))
  }

  ghost predicate Keeping(codec: Codec, w: World, k: nat) {
    forall p <- w.pruners :: ScanFits(codec, w, w.pruners[p], k)
  }

  /** What a step makes of a prune: nothing, a start, a removal, a manifest read, or a name done with. */
  ghost predicate PrunerMoves(codec: Codec, w: World, a: Action, p: ProcessId, pr: Pruner) {
    || (p in w.pruners && w.pruners[p] == pr)
    || pr.Removing?
    || (a.StartPrune? && pr.seen.None? && pr.keep == CatalogStore.EffectiveKeep(a.keep))
    || (p in w.pruners && w.pruners[p].Scanning? && pr.seen.None? && pr.keep == w.pruners[p].keep)
    || (p in w.pruners && w.pruners[p].Scanning? && w.pruners[p].todo != [] &&
        ReadsManifest(codec, w, w.pruners[p], pr))
  }

  ghost predicate ReadsManifest(codec: Codec, w: World, was: Pruner, pr: Pruner)
    requires was.Scanning? && was.todo != []
  {
    && pr.Scanning? && pr.keep == was.keep && pr.todo == was.todo && pr.seen.Some?
    && VerifyManifest(codec, was.todo[0], PartOf(w, was.todo[0], Declaration)) == Success(pr.seen.value)
  }

  lemma ReadManifestMoves(codec: Codec, w: World, a: Action, p: ProcessId)
    requires a.ReadManifest? && p in Act(codec, w, a).pruners
    ensures PrunerMoves(codec, w, a, p, Act(codec, w, a).pruners[p])
  {
    hide VerifyManifest, PartOf;
  }

  lemma CheckDocumentMoves(codec: Codec, w: World, a: Action, p: ProcessId)
    requires a.CheckDocument? && p in Act(codec, w, a).pruners
    ensures PrunerMoves(codec, w, a, p, Act(codec, w, a).pruners[p])
  {
    hide VerifyFile, PartOf, ReadsManifest;
  }

  lemma PrunerAfter(codec: Codec, w: World, a: Action, p: ProcessId)
    requires p in Act(codec, w, a).pruners
    ensures PrunerMoves(codec, w, a, p, Act(codec, w, a).pruners[p])
  {
    if a.ReadManifest? {
      ReadManifestMoves(codec, w, a, p);
    } else if a.CheckDocument? {
      CheckDocumentMoves(codec, w, a, p);
    } else {
      hide DoReadManifest, DoCheckDocument, ReadsManifest, Payload, WriteAt;
    }
  }

  lemma ManifestIsGood(codec: Codec, w: World, n: string, m: Manifest)
    requires Lawful(codec) && Inv(codec, w)
    requires VerifyManifest(codec, n, PartOf(w, n, Declaration)) == Success(m)
    ensures StillGood(codec, w, n, m)
  {
    hide Inv, Lawful, VerifyManifest, VerifyFile, PartOf, Verifies;
    ManifestSeenVerifies(codec, w, n);
    if n !in w.history.doomed {
      GoodNow(codec, w, n);
    }
  }

  lemma KeepingStays(codec: Codec, w: World, a: Action, k: nat)
    requires Lawful(codec) && Inv(codec, w) && Keeping(codec, w, k) && KeepsAtLeast(a, k)
    ensures Keeping(codec, Next(codec, w, a), k)
  {
    hide Inv, Lawful, Act, VerifyManifest, PartOf, StillGood, Verifies;
    var v := Next(codec, w, a);
    forall p <- v.pruners
      ensures ScanFits(codec, v, v.pruners[p], k)
    {
      PrunerAfter(codec, w, a, p);
      var pr := v.pruners[p];
      if pr.Scanning? && pr.seen.Some? {
        assert ScanFits(codec, w, w.pruners[p], k);
        var n := pr.todo[0];
        if w.pruners[p] != pr {
          ManifestIsGood(codec, w, n, pr.seen.value);
        }
        StillGoodStays(codec, w, a, n, pr.seen.value);
      } else if pr.Scanning? && p in w.pruners {
        assert ScanFits(codec, w, w.pruners[p], k);
      }
    }
  }

  lemma NoPruners(codec: Codec, k: nat)
    ensures Keeping(codec, EMPTY, k)
  {
  }

  lemma {:induction false} RunKeeping(codec: Codec, actions: seq<Action>, k: nat)
    requires Lawful(codec) && KeepAtLeast(actions, k)
    ensures Keeping(codec, Run(codec, EMPTY, actions), k)
  {
    hide Lawful, Keeping, Next, Inv;
    if actions == [] {
      NoPruners(codec, k);
    } else {
      var init, last := actions[..|actions| - 1], actions[|actions| - 1];
      RunKeeping(codec, init, k);
      RunInv(codec, init);
      KeepingStays(codec, Run(codec, EMPTY, init), last, k);
    }
  }

  // ----- why a prune dooms a name -----

  /** The first name of a scan is doomed if it is judged outdated. */
  ghost predicate DoomsHead(w: World, a: Action, n: string) {
    && (a.ReadManifest? || a.CheckDocument?) && a.outdated
    && a.p in w.pruners && w.pruners[a.p].Scanning? && w.pruners[a.p].todo != [] && w.pruners[a.p].todo[0] == n
  }

  lemma SurplusWasKnown(w: World, pr: Pruner, n: string)
    requires pr.Scanning? && PrunerFits(w, pr) && n in Beyond(pr)
    ensures Known(w, n)
  {
    var i :| 0 <= i < |Beyond(pr)| && Beyond(pr)[i] == n;
    assert pr.complete[pr.keep + i] == n;
  }

  /** A name is doomed as outdated, or because there are newer complete ones and it was complete. */
  lemma WhyDoomed(codec: Codec, w: World, a: Action, n: string)
    requires Inv(codec, w) && n in Next(codec, w, a).history.doomed && n !in w.history.doomed
    ensures DoomsHead(w, a, n) || n in w.history.verified
  {
    hide Homes, Exclusive, Disciplined, AllWhole, Topped, Still, Observed, Verifies, VerifyManifest, VerifyFile, PartOf;
    if a.EndScan? && a.p in w.pruners {
      var pr := w.pruners[a.p];
      assert PrunerFits(w, pr);
      if pr.Scanning? && n in Beyond(pr) {
        SurplusWasKnown(w, pr, n);
      }
    }
  }

  /** The names that verified or were doomed and come after `n`. */
  function Greater(w: World, n: string): set<string> {
    CatalogStore.Newer(w.history.verified + w.history.doomed, n)
  }

  lemma SurplusHasNewer(w: World, pr: Pruner, n: string)
    requires pr.Scanning? && pr.todo == [] && PrunerFits(w, pr) && n in Beyond(pr)
    ensures |Greater(w, n)| >= pr.keep
  {
    var i :| 0 <= i < |Beyond(pr)| && Beyond(pr)[i] == n;
    assert pr.complete + pr.todo == pr.complete;
    var newest := pr.complete[..pr.keep];
    hide Less;
    forall m <- newest
      ensures m in Greater(w, n)
    {
      var j :| 0 <= j < |newest| && newest[j] == m;
      assert m == pr.complete[j] && Less(pr.complete[pr.keep + i], pr.complete[j]);
      assert Known(w, m);
    }
    CatalogStore.DescendingCount(newest);
    SubsetSize(CatalogStore.Elements(newest), Greater(w, n));
  }

  /** The next check of the first name fails. */
  predicate IncompleteNow(codec: Codec, w: World, pr: Pruner)
    requires pr.Scanning? && pr.todo != []
  {
    if pr.seen.None? then VerifyManifest(codec, pr.todo[0], PartOf(w, pr.todo[0], Declaration)).Failure?
    else VerifyFile(codec, PartOf(w, pr.todo[0], Document), pr.seen.value.sizeBytes, pr.seen.value.sha256).Some?
  }

  /** A name that a scan finds incomplete has not verified, unless it is doomed already. */
  lemma FoundIncomplete(codec: Codec, w: World, pr: Pruner, k: nat)
    requires Lawful(codec) && Inv(codec, w) && pr.Scanning? && pr.todo != [] && ScanFits(codec, w, pr, k)
    requires IncompleteNow(codec, w, pr)
    ensures pr.todo[0] !in w.history.verified || pr.todo[0] in w.history.doomed
  {
    hide Inv, Lawful, VerifyManifest, VerifyFile, PartOf, Verifies;
    var n := pr.todo[0];
    if n in w.history.verified && n !in w.history.doomed {
      GoodNow(codec, w, n);
    }
  }

  /** The step that dooms `n`: a scan finds it incomplete, or a scan ends with it as surplus. */
  ghost predicate DoomedBy(codec: Codec, w: World, a: Action, n: string) {
    && (a.ReadManifest? || a.CheckDocument? || a.EndScan?) && a.p in w.pruners && w.pruners[a.p].Scanning?
    && var pr := w.pruners[a.p];
      if a.EndScan? then pr.todo == [] && n in Beyond(pr)
      else
        && pr.todo != [] && n == pr.todo[0]
        && a.ReadManifest? == pr.seen.None?
        && IncompleteNow(codec, w, pr)
  }

  lemma HowDoomed(codec: Codec, w: World, a: Action, n: string)
    requires n in Act(codec, w, a).history.doomed && n !in w.history.doomed
    ensures DoomedBy(codec, w, a, n)
  {
    hide VerifyManifest, VerifyFile, PartOf, Payload, WriteAt;
  }

  /** A generation that verified is doomed only when `k` names are newer. */
  lemma DoomingNeedsKeep(codec: Codec, w: World, a: Action, n: string, k: nat)
    requires Lawful(codec) && Inv(codec, w) && Keeping(codec, w, k)
    requires n in w.history.verified && n !in w.history.doomed && n in Next(codec, w, a).history.doomed
    ensures |Greater(w, n)| >= k
  {
    hide Inv, Lawful, Act, VerifyManifest, VerifyFile, PartOf, Greater, Verifies, StillGood;
    HowDoomed(codec, w, a, n);
    var pr := w.pruners[a.p];
    assert ScanFits(codec, w, pr, k);
    if a.EndScan? {
      PrunerIsFit(codec, w, a.p);
      SurplusHasNewer(w, pr, n);
    } else {
      FoundIncomplete(codec, w, pr, k);
    }
  }

  lemma PrunerIsFit(codec: Codec, w: World, p: ProcessId)
    requires Inv(codec, w) && p in w.pruners
    ensures PrunerFits(w, w.pruners[p])
  {
  }

  lemma GreaterGrows(codec: Codec, w: World, a: Action, n: string)
    ensures Greater(w, n) <= Greater(Next(codec, w, a), n)
    ensures |Greater(w, n)| <= |Greater(Next(codec, w, a), n)|
  {
    hide Next, Less;
    DoomedGrows(codec, w, a);
    NextVerified(codec, w, a);
    SubsetSize(Greater(w, n), Greater(Next(codec, w, a), n));
  }

  /**
   * Over any run in which every prune keeps at least `k`: a name that had verified and was not
   * chosen is chosen later only after `k` greater names have verified or been chosen.
   */
  lemma {:induction false} ChosenNeedsKeep(codec: Codec, before: seq<Action>, after: seq<Action>, n: string, k: nat)
    requires Lawful(codec) && KeepAtLeast(before + after, k)
    requires
      var w := Run(codec, EMPTY, before);
      n in w.history.verified && n !in w.history.doomed
    requires n in Run(codec, EMPTY, before + after).history.doomed
    ensures |Greater(Run(codec, EMPTY, before + after), n)| >= k
    decreases |after|
  {
    hide Inv, Lawful, Keeping, Next, Greater, KeepsAtLeast;
    assert after == [] ==> before + after == before;
    if after != [] {
      var all, init := before + after, after[..|after| - 1];
      assert all[..|all| - 1] == before + init;
      assert forall a <- before + init :: a in all;
      var u, last := Run(codec, EMPTY, before + init), all[|all| - 1];
      GreaterGrows(codec, u, last, n);
      if n in u.history.doomed {
        ChosenNeedsKeep(codec, before, init, n, k);
      } else {
        RunInv(codec, before + init);
        RunKeeping(codec, before + init, k);
        VerifiedGrows(codec, before, init);
        DoomingNeedsKeep(codec, u, last, n, k);
      }
    }
  }

  // ----- the newest that ever verified -----

  /** No prune has chosen a name before it verified. */
  ghost predicate OnlyVerifiedChosen(codec: Codec, actions: seq<Action>) {
    forall i | 0 <= i <= |actions| :: ChoosesVerified(Run(codec, EMPTY, actions[..i]))
  }

  predicate ChoosesVerified(w: World) {
    w.history.doomed <= w.history.verified
  }

  /** A step that dooms a name changes no file, so the name verifies after it iff it did before. */
  lemma DoomingShowsNothing(codec: Codec, w: World, a: Action, n: string)
    requires Inv(codec, w) && n in Next(codec, w, a).history.doomed && n !in w.history.doomed
    requires n in Next(codec, w, a).history.verified
    ensures n in w.history.verified
  {
    hide Inv, Act, Verifies;
    HowDoomed(codec, w, a, n);
    ScanChangesNothing(codec, w, a);
    NextVerified(codec, w, a);
    SameFilesSameParts(codec, w, Next(codec, w, a));
    if Verifies(codec, w, n) {
      SelectedWasObserved(codec, w, n);
    }
  }

  lemma {:induction false} ChosenHadKeep(codec: Codec, actions: seq<Action>, n: string, k: nat)
    requires Lawful(codec) && KeepAtLeast(actions, k) && OnlyVerifiedChosen(codec, actions)
    requires n in Run(codec, EMPTY, actions).history.doomed
    ensures |CatalogStore.Newer(Run(codec, EMPTY, actions).history.verified, n)| >= k
  {
    hide Inv, Lawful, Keeping, Next, KeepsAtLeast, Greater, Less;
    if actions == [] {
      NothingDoomed();
    } else {
      var init, last := actions[..|actions| - 1], actions[|actions| - 1];
      assert actions == init + [last] && actions[..|actions|] == actions;
      assert forall a <- init :: a in actions;
      var u, w := Run(codec, EMPTY, init), Run(codec, EMPTY, actions);
      forall i | 0 <= i <= |init|
        ensures ChoosesVerified(Run(codec, EMPTY, init[..i]))
      {
        assert init[..i] == actions[..i];
      }
      NextVerified(codec, u, last);
      if n in u.history.doomed {
        ChosenHadKeep(codec, init, n, k);
      } else {
        assert ChoosesVerified(Run(codec, EMPTY, actions[..|actions|]));
        assert ChoosesVerified(Run(codec, EMPTY, init[..|init|])) && init[..|init|] == init;
        RunInv(codec, init);
        RunKeeping(codec, init, k);
        DoomingShowsNothing(codec, u, last, n);
        DoomingNeedsKeep(codec, u, last, n, k);
        GreaterOfVerified(u, n);
      }
      SubsetSize(CatalogStore.Newer(u.history.verified, n), CatalogStore.Newer(w.history.verified, n));
    }
  }

  lemma NothingDoomed()
    ensures EMPTY.history.doomed == {}
  {
  }

  lemma GreaterOfVerified(w: World, n: string)
    requires ChoosesVerified(w)
    ensures Greater(w, n) == CatalogStore.Newer(w.history.verified, n)
  {
  }

  /**
   * After any run in which every prune keeps at least `k` and none has chosen a name that had not
   * verified, the `k` greatest names that ever verified all still verify.
   */
  lemma NewestStillVerify(codec: Codec, actions: seq<Action>, k: nat)
    requires Lawful(codec) && KeepAtLeast(actions, k) && OnlyVerifiedChosen(codec, actions)
    ensures
      var w := Run(codec, EMPTY, actions);
      forall n <- w.history.verified | |CatalogStore.Newer(w.history.verified, n)| < k ::
        Verifies(codec, w, n) && n !in w.history.doomed
  {
    hide Inv, Lawful, Run, Verifies, OnlyVerifiedChosen, KeepAtLeast;
    var w := Run(codec, EMPTY, actions);
    RunInv(codec, actions);
    forall n <- w.history.verified | |CatalogStore.Newer(w.history.verified, n)| < k
      ensures Verifies(codec, w, n) && n !in w.history.doomed
    {
      if n in w.history.doomed {
        ChosenHadKeep(codec, actions, n, k);
      } else {
        VerifiedStill(codec, w, n);
      }
    }
  }
}
