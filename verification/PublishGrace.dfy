/**
 * The grace period. The protocol of `PublishProtocol` lets a prune judge any incomplete generation
 * outdated; here a clock runs and a directory knows when its entries last changed, and a prune
 * judges by them. An export that is done within the grace period is never removed unfinished.
 */
module PublishGrace {
  import opened Manifest
  import opened PublishProtocol
  import opened PublishInvariant
  import opened PublishTheorems
  import opened PublishKeep
  import CatalogStore

  /** `modified` is when a file was last created in the directory or removed from it. */
  datatype Timed = Timed(world: World, now: int, modified: map<string, int>)

  datatype Event = Tick(d: nat) | Step(action: Action)

  /** What `Stat` and the clock say about a name that was found incomplete. */
  predicate IsOutdated(t: Timed, name: string) {
    name in t.modified && t.now - t.modified[name] >= CatalogStore.GRACE
  }

  predicate HeadIsOutdated(t: Timed, p: ProcessId) {
    && p in t.world.pruners && t.world.pruners[p].Scanning? && t.world.pruners[p].todo != []
    && IsOutdated(t, t.world.pruners[p].todo[0])
  }

  /** The same step with the judgement that the clock gives. */
  function Judged(t: Timed, a: Action): Action {
    match a
    case ReadManifest(p, _) => ReadManifest(p, HeadIsOutdated(t, p))
    case CheckDocument(p, _) => CheckDocument(p, HeadIsOutdated(t, p))
    case _ => a
  }

  function Touched(w: World, v: World, modified: map<string, int>, now: int): map<string, int> {
    map n | n in v.dirs :: if n in w.dirs && n in modified && v.dirs[n] == w.dirs[n] then modified[n] else now
  }

  ghost function Advance(codec: Codec, t: Timed, e: Event): Timed {
    match e
    case Tick(d) => t.(now := t.now + d)
    case Step(a) =>
      var v := Next(codec, t.world, Judged(t, a));
      Timed(v, t.now, Touched(t.world, v, t.modified, t.now))
  }

  ghost function RunTimed(codec: Codec, start: Timed, events: seq<Event>): Timed {
    if events == [] then start
    else Advance(codec, RunTimed(codec, start, events[..|events| - 1]), events[|events| - 1])
  }

  /** An empty catalog at some time. */
  function StartAt(now: int): Timed {
    Timed(EMPTY, now, map[])
  }

  /** The steps of a timed run, as they were judged. */
  ghost function Steps(codec: Codec, start: Timed, events: seq<Event>): seq<Action> {
    if events == [] then []
    else
      var init, last := events[..|events| - 1], events[|events| - 1];
      Steps(codec, start, init) + if last.Step? then [Judged(RunTimed(codec, start, init), last.action)] else []
  }

  /** A timed run is a run, so everything proved of runs holds of it. */
  lemma {:induction false} TimedIsRun(codec: Codec, now: int, events: seq<Event>)
    ensures RunTimed(codec, StartAt(now), events).world == Run(codec, EMPTY, Steps(codec, StartAt(now), events))
  {
    hide Next;
    if events != [] {
      var init, last := events[..|events| - 1], events[|events| - 1];
      TimedIsRun(codec, now, init);
      var steps := Steps(codec, StartAt(now), events);
      if last.Step? {
        assert steps[..|steps| - 1] == Steps(codec, StartAt(now), init);
      } else {
        assert steps == Steps(codec, StartAt(now), init);
      }
    }
  }

  lemma TimedInv(codec: Codec, now: int, events: seq<Event>)
    requires Lawful(codec)
    ensures Inv(codec, RunTimed(codec, StartAt(now), events).world)
  {
    hide Inv, Run, Lawful, RunTimed;
    TimedIsRun(codec, now, events);
    RunInv(codec, Steps(codec, StartAt(now), events));
  }

  /** What is known of the name `n` reserved at `since`, as long as the grace period lasts. */
  ghost predicate Spared(t: Timed, n: string, since: int) {
    && since <= t.now
    && (n in t.modified ==> since <= t.modified[n])
    && (n in t.world.history.doomed ==> n in t.world.history.verified)
    && (n in t.world.dirs || n in t.world.history.doomed)
  }

  lemma SparedOneStep(codec: Codec, t: Timed, e: Event, n: string, since: int)
    requires Inv(codec, t.world) && Spared(t, n, since)
    requires Advance(codec, t, e).now - since < CatalogStore.GRACE
    ensures Spared(Advance(codec, t, e), n, since)
  {
    hide Inv, Act, Verifies;
    if e.Step? {
      var a := Judged(t, e.action);
      var v := Next(codec, t.world, a);
      NextVerified(codec, t.world, a);
      DoomedGrows(codec, t.world, a);
      if n in t.world.dirs {
        LostWasDoomed(codec, t.world, a, n);
      }
      if n in v.history.doomed && n !in t.world.history.doomed {
        WhyDoomed(codec, t.world, a, n);
        if DoomsHead(t.world, a, n) {
          JudgedByClock(t, e.action, n);
        }
      }
    }
  }

  lemma JudgedByClock(t: Timed, a: Action, n: string)
    requires DoomsHead(t.world, Judged(t, a), n)
    ensures IsOutdated(t, n)
  {
  }

  lemma {:induction false} RunSplits(codec: Codec, start: Timed, before: seq<Event>, after: seq<Event>)
    ensures RunTimed(codec, start, before + after) == RunTimed(codec, RunTimed(codec, start, before), after)
  {
    hide Advance;
    if after == [] {
      assert before + after == before;
    } else {
      var all := before + after;
      assert all[..|all| - 1] == before + after[..|after| - 1];
      RunSplits(codec, start, before, after[..|after| - 1]);
    }
  }

  lemma {:induction false} ClockRuns(codec: Codec, t: Timed, after: seq<Event>)
    ensures t.now <= RunTimed(codec, t, after).now
  {
    hide Next;
    if after != [] {
      ClockRuns(codec, t, after[..|after| - 1]);
    }
  }

  lemma {:induction false} SparedThroughout(codec: Codec, now: int, before: seq<Event>, after: seq<Event>, n: string,
      since: int)
    requires Lawful(codec) && Spared(RunTimed(codec, StartAt(now), before), n, since)
    requires RunTimed(codec, StartAt(now), before + after).now - since < CatalogStore.GRACE
    ensures Spared(RunTimed(codec, StartAt(now), before + after), n, since)
    decreases |after|
  {
    hide Spared, Lawful, Inv, Advance;
    if after == [] {
      assert before + after == before;
    } else {
      var all, init := before + after, after[..|after| - 1];
      assert all[..|all| - 1] == before + init;
      var t := RunTimed(codec, StartAt(now), before + init);
      TimedInv(codec, now, before + init);
      OneMoreEvent(codec, t, all[|all| - 1]);
      SparedThroughout(codec, now, before, init, n, since);
      SparedOneStep(codec, t, all[|all| - 1], n, since);
    }
  }

  lemma OneMoreEvent(codec: Codec, t: Timed, e: Event)
    ensures t.now <= Advance(codec, t, e).now
  {
  }

  /** Reserving a name that is free and that no prune has chosen starts its grace period. */
  lemma ReservedIsSpared(codec: Codec, t: Timed, p: ProcessId, n: string, job: Job)
    requires p !in t.world.exporters && n !in t.world.dirs && n !in t.world.history.doomed
    ensures Spared(Advance(codec, t, Step(Reserve(p, n, job))), n, t.now)
  {
  }

  /**
   * A name is reserved that no prune has chosen. As long as the clock stays within the grace period
   * from then on, whatever exports and prunes do, the name is chosen by a prune only after it has
   * verified, as surplus; until then its directory stays; and an export that has written its
   * whole readable manifest by then has verified.
   */
  lemma FinishedInGraceHasVerified(
    codec: Codec, now: int, before: seq<Event>, p: ProcessId, n: string, job: Job, after: seq<Event>, q: ProcessId)
    requires Lawful(codec)
    requires
      var w := RunTimed(codec, StartAt(now), before).world;
      p !in w.exporters && n !in w.dirs && n !in w.history.doomed
    requires
      var start, end := RunTimed(codec, StartAt(now), before),
        RunTimed(codec, StartAt(now), before + [Step(Reserve(p, n, job))] + after);
      end.now - start.now < CatalogStore.GRACE
    ensures
      var v := RunTimed(codec, StartAt(now), before + [Step(Reserve(p, n, job))] + after).world;
      && (n in v.history.doomed ==> n in v.history.verified)
      && (n !in v.dirs ==> n in v.history.verified)
      && (IsFinished(codec, v, q) && v.exporters[q].name == n ==> n in v.history.verified)
  {
    hide Inv, Lawful, Spared, RunTimed, Advance;
    var start := RunTimed(codec, StartAt(now), before);
    var reserve := Step(Reserve(p, n, job));
    var all := before + [reserve] + after;
    LastEvent(codec, StartAt(now), before, reserve);
    ReservedIsSpared(codec, start, p, n, job);
    SparedThroughout(codec, now, before + [reserve], after, n, start.now);
    var end := RunTimed(codec, StartAt(now), all);
    SparedMeans(end, n, start.now);
    TimedInv(codec, now, all);
    if IsFinished(codec, end.world, q) && end.world.exporters[q].name == n && n !in end.world.history.doomed {
      FinishedExportVerifies(codec, end.world, q);
      SelectedWasObserved(codec, end.world, n);
    }
  }

  lemma LastEvent(codec: Codec, start: Timed, before: seq<Event>, e: Event)
    ensures RunTimed(codec, start, before + [e]) == Advance(codec, RunTimed(codec, start, before), e)
  {
    assert (before + [e])[..|before|] == before;
  }

  lemma SparedMeans(t: Timed, n: string, since: int)
    requires Spared(t, n, since)
    ensures n in t.world.history.doomed ==> n in t.world.history.verified
    ensures n !in t.world.dirs ==> n in t.world.history.verified
  {
  }

  // ----- several generations within the grace period -----

  /** Every generation that has not verified is younger than the grace period. */
  predicate UnfinishedIsYoung(t: Timed) {
    forall n <- t.modified | n !in t.world.history.verified :: t.now - t.modified[n] < CatalogStore.GRACE
  }

  /** At no time does an export take longer. */
  ghost predicate Punctual(codec: Codec, start: Timed, events: seq<Event>) {
    forall i | 0 <= i <= |events| :: UnfinishedIsYoung(RunTimed(codec, start, events[..i]))
  }

  lemma PunctualInit(codec: Codec, start: Timed, events: seq<Event>)
    requires Punctual(codec, start, events) && events != []
    ensures Punctual(codec, start, events[..|events| - 1])
    ensures UnfinishedIsYoung(RunTimed(codec, start, events[..|events| - 1]))
  {
    hide UnfinishedIsYoung, RunTimed;
    var init := events[..|events| - 1];
    forall i | 0 <= i <= |init|
      ensures UnfinishedIsYoung(RunTimed(codec, start, init[..i]))
    {
      assert init[..i] == events[..i];
    }
  }

  lemma OneStepChoosesVerified(codec: Codec, t: Timed, a: Action)
    requires Inv(codec, t.world) && UnfinishedIsYoung(t) && ChoosesVerified(t.world)
    ensures ChoosesVerified(Next(codec, t.world, Judged(t, a)))
  {
    hide Inv, Next, Judged, Verifies;
    var v := Next(codec, t.world, Judged(t, a));
    NextVerified(codec, t.world, Judged(t, a));
    forall n <- v.history.doomed
      ensures n in v.history.verified
    {
      if n !in t.world.history.doomed {
        WhyDoomed(codec, t.world, Judged(t, a), n);
        if DoomsHead(t.world, Judged(t, a), n) {
          JudgedByClock(t, a, n);
        }
      }
    }
  }

  lemma {:induction false} PunctualChoosesVerified(codec: Codec, now: int, events: seq<Event>)
    requires Lawful(codec) && Punctual(codec, StartAt(now), events)
    ensures OnlyVerifiedChosen(codec, Steps(codec, StartAt(now), events))
  {
    hide Lawful, Punctual, Next, ChoosesVerified, UnfinishedIsYoung, Inv;
    var start, steps := StartAt(now), Steps(codec, StartAt(now), events);
    if events == [] {
      NothingChosen();
    } else {
      var init, last := events[..|events| - 1], events[|events| - 1];
      PunctualInit(codec, start, events);
      PunctualChoosesVerified(codec, now, init);
      TimedIsRun(codec, now, init);
      var earlier, t := Steps(codec, start, init), RunTimed(codec, start, init);
      assert earlier[..|earlier|] == earlier;
      assert ChoosesVerified(Run(codec, EMPTY, earlier[..|earlier|]));
      if last.Step? {
        TimedInv(codec, now, init);
        OneStepChoosesVerified(codec, t, last.action);
        assert steps == earlier + [Judged(t, last.action)] && steps[..|steps| - 1] == earlier;
        forall i | 0 <= i <= |steps|
          ensures ChoosesVerified(Run(codec, EMPTY, steps[..i]))
        {
          if i < |steps| {
            assert steps[..i] == earlier[..i];
          } else {
            assert steps[..i] == steps;
          }
        }
      } else {
        assert steps == earlier;
      }
    }
  }

  lemma NothingChosen()
    ensures ChoosesVerified(EMPTY)
  {
  }

  /**
   * As long as no export takes longer than the grace period and every prune keeps at least `k`, the
   * `k` greatest names that ever verified all still verify, whatever exports and prunes do.
   */
  lemma NewestStillVerifyInTime(codec: Codec, now: int, events: seq<Event>, k: nat)
    requires Lawful(codec) && Punctual(codec, StartAt(now), events)
    requires KeepAtLeast(Steps(codec, StartAt(now), events), k)
    ensures
      var w := RunTimed(codec, StartAt(now), events).world;
      forall n <- w.history.verified | |CatalogStore.Newer(w.history.verified, n)| < k ::
        Verifies(codec, w, n) && n !in w.history.doomed
  {
    hide Lawful, Punctual, RunTimed, Steps, KeepAtLeast, OnlyVerifiedChosen, Run, Verifies;
    PunctualChoosesVerified(codec, now, events);
    TimedIsRun(codec, now, events);
    NewestStillVerify(codec, Steps(codec, StartAt(now), events), k);
  }
}
