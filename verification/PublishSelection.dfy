/**
 * Selecting the newest complete generation while exports and prunes run: the names are listed
 * first and then verified one after the other, newest first, each in two steps. Meanwhile the
 * catalog goes on changing, so what is found need not be what one look at it would find.
 */
module PublishSelection {
  import opened Common
  import opened Names
  import opened Manifest
  import opened PublishProtocol
  import opened PublishInvariant
  import opened PublishTheorems
  import opened PublishKeep

  /** `seen` is the manifest read for the first name of `todo`, before its document is checked. */
  datatype Selector =
    | Looking(todo: seq<string>, seen: Option<Manifest>)
    | Found(name: string, manifest: Manifest)
    | NothingFound

  datatype View = View(world: World, selector: Selector)

  /** A step of some export or prune, or a step of the selection. */
  datatype Move = Other(action: Action) | SeeManifest | SeeDocument

  /** All generation names, newest first. */
  ghost predicate IsListing(w: World, names: seq<string>) {
    Descending(names) && forall n :: n in names <==> n in w.dirs
  }

  function DoSeeManifest(codec: Codec, w: World, s: Selector): Selector {
    if !s.Looking? || s.seen.Some? then s
    else if s.todo == [] then NothingFound
    else
      var m := VerifyManifest(codec, s.todo[0], PartOf(w, s.todo[0], Declaration));
      if m.Failure? then Looking(s.todo[1..], None) else Looking(s.todo, Some(m.value))
  }

  function DoSeeDocument(codec: Codec, w: World, s: Selector): Selector {
    if !s.Looking? || s.seen.None? || s.todo == [] then s
    else
      var m := s.seen.value;
      if VerifyFile(codec, PartOf(w, s.todo[0], Document), m.sizeBytes, m.sha256).Some? then Looking(s.todo[1..], None)
      else Found(s.todo[0], m)
  }

  ghost function MoveOn(codec: Codec, v: View, m: Move): View {
    match m
    case Other(a) => v.(world := Next(codec, v.world, a))
    case SeeManifest => v.(selector := DoSeeManifest(codec, v.world, v.selector))
    case SeeDocument => v.(selector := DoSeeDocument(codec, v.world, v.selector))
  }

  ghost function Moves(codec: Codec, v: View, moves: seq<Move>): View {
    if moves == [] then v else MoveOn(codec, Moves(codec, v, moves[..|moves| - 1]), moves[|moves| - 1])
  }

  // ----- what selection knows -----

  /** `top` verified when the names were listed. */
  ghost predicate SelectorFits(codec: Codec, w: World, s: Selector, top: string) {
    && top in w.history.verified
    && match s
       case Looking(todo, seen) =>
         && Descending(todo)
         && (top in w.history.doomed || top in todo)
         && (seen.Some? ==> todo != [] && Known(w, todo[0]) && StillGood(codec, w, todo[0], seen.value))
       case Found(n, m) =>
         && Known(w, n) && StillGood(codec, w, n, m)
         && (top in w.history.doomed || AtMost(top, n))
       case NothingFound =>
         top in w.history.doomed
  }

  lemma OtherFits(codec: Codec, w: World, s: Selector, top: string, a: Action)
    requires Lawful(codec) && Inv(codec, w) && SelectorFits(codec, w, s, top)
    ensures SelectorFits(codec, Next(codec, w, a), s, top)
  {
    hide Inv, Verifies, Lawful, Next;
    var v := Next(codec, w, a);
    DoomedGrows(codec, w, a);
    NextVerified(codec, w, a);
    var checked := if s.Looking? && s.seen.Some? then s.todo[0] else if s.Found? then s.name else top;
    if (s.Found? || (s.Looking? && s.seen.Some?)) && checked !in v.history.doomed {
      UndoomedStays(codec, w, a, checked);
    }
  }

  lemma DescendingTail(names: seq<string>)
    requires Descending(names) && names != []
    ensures Descending(names[1..])
    ensures forall n <- names :: AtMost(n, names[0])
    ensures forall n <- names | n != names[0] :: n in names[1..]
  {
    forall n <- names
      ensures AtMost(n, names[0]) && (n != names[0] ==> n in names[1..])
    {
      var i :| 0 <= i < |names| && names[i] == n;
      if i > 0 {
        assert names[1..][i - 1] == n;
      }
    }
  }

  lemma SeeManifestFits(codec: Codec, w: World, s: Selector, top: string)
    requires Lawful(codec) && Inv(codec, w) && SelectorFits(codec, w, s, top)
    ensures SelectorFits(codec, w, DoSeeManifest(codec, w, s), top)
  {
    hide Inv, Lawful, Verifies, VerifyManifest, VerifyFile, PartOf;
    if s.Looking? && s.seen.None? && s.todo != [] {
      var n := s.todo[0];
      DescendingTail(s.todo);
      if VerifyManifest(codec, n, PartOf(w, n, Declaration)).Success? {
        ManifestSeenVerifies(codec, w, n);
      }
      if n in w.history.verified && n !in w.history.doomed {
        GoodNow(codec, w, n);
      }
    }
  }

  lemma SeeDocumentFits(codec: Codec, w: World, s: Selector, top: string)
    requires Lawful(codec) && Inv(codec, w) && SelectorFits(codec, w, s, top)
    ensures SelectorFits(codec, w, DoSeeDocument(codec, w, s), top)
  {
    hide Inv, Lawful, Verifies, VerifyManifest, VerifyFile, PartOf;
    if s.Looking? && s.seen.Some? && s.todo != [] {
      var n := s.todo[0];
      DescendingTail(s.todo);
      if n in w.history.verified && n !in w.history.doomed {
        GoodNow(codec, w, n);
      }
    }
  }

  lemma {:induction false} MovesFit(codec: Codec, v: View, top: string, moves: seq<Move>)
    requires Lawful(codec) && Inv(codec, v.world) && SelectorFits(codec, v.world, v.selector, top)
    ensures Inv(codec, Moves(codec, v, moves).world)
    ensures SelectorFits(codec, Moves(codec, v, moves).world, Moves(codec, v, moves).selector, top)
    decreases |moves|
  {
    hide Inv, Lawful, SelectorFits, Next, DoSeeManifest, DoSeeDocument;
    if moves != [] {
      var init, last := moves[..|moves| - 1], moves[|moves| - 1];
      MovesFit(codec, v, top, init);
      var u := Moves(codec, v, init);
      match last
      case Other(a) =>
        NextPreserves(codec, u.world, a);
        OtherFits(codec, u.world, u.selector, top, a);
      case SeeManifest => SeeManifestFits(codec, u.world, u.selector, top);
      case SeeDocument => SeeDocumentFits(codec, u.world, u.selector, top);
    }
  }

  // ----- what selection finds -----

  lemma ListedFits(codec: Codec, w: World, names: seq<string>, top: string)
    requires Inv(codec, w) && IsListing(w, names) && IsSelected(codec, w, top)
    ensures SelectorFits(codec, w, Looking(names, None), top)
  {
    SelectedWasObserved(codec, w, top);
    VerifyingIsThere(codec, w, top);
  }

  /** Nothing that verified in this state is newer than what a look at it finds. */
  lemma SelectedIsGreatest(codec: Codec, w: World, top: string)
    requires Inv(codec, w) && IsSelected(codec, w, top)
    ensures forall n <- w.history.verified :: AtMost(n, top)
    ensures top in w.history.verified && top !in w.history.doomed
  {
    hide Inv, Verifies;
    SelectedWasObserved(codec, w, top);
    var best := BestInState(codec, w);
    assert AtMost(top, best) && AtMost(best, top);
    LessTotal(top, best);
  }

  /** The steps of exports and prunes among the moves. */
  function ActionsOf(moves: seq<Move>): seq<Action> {
    if moves == [] then []
    else
      var last := moves[|moves| - 1];
      ActionsOf(moves[..|moves| - 1]) + if last.Other? then [last.action] else []
  }

  /** The catalog under a selection is that of a run without it. */
  lemma {:induction false} MovesRun(codec: Codec, before: seq<Action>, s: Selector, moves: seq<Move>)
    ensures Moves(codec, View(Run(codec, EMPTY, before), s), moves).world ==
      Run(codec, EMPTY, before + ActionsOf(moves))
  {
    hide Next, DoSeeManifest, DoSeeDocument;
    if moves == [] {
      assert before + ActionsOf(moves) == before;
    } else {
      var init := moves[..|moves| - 1];
      MovesRun(codec, before, s, init);
      var all := before + ActionsOf(moves);
      if moves[|moves| - 1].Other? {
        assert all[..|all| - 1] == before + ActionsOf(init);
      } else {
        assert all == before + ActionsOf(init);
      }
    }
  }

  /**
   * Selection in steps, listing when `top` was the newest complete generation. It finds only what
   * verified at some time, whole unless a prune has chosen it meanwhile. It finds nothing, or
   * something older than `top`, only if a prune has chosen `top` meanwhile; then, if every prune
   * keeps at least `k`, `k` newer names have been completed or chosen since the listing, one of
   * them completed. If nothing has been completed since, it finds exactly `top`.
   */
  lemma SelectionInSteps(
    codec: Codec, before: seq<Action>, top: string, names: seq<string>, moves: seq<Move>, k: nat)
    requires Lawful(codec) && KeepAtLeast(before + ActionsOf(moves), k)
    requires IsSelected(codec, Run(codec, EMPTY, before), top) && IsListing(Run(codec, EMPTY, before), names)
    ensures
      var start := Run(codec, EMPTY, before);
      var View(w, s) := Moves(codec, View(start, Looking(names, None)), moves);
      && (s.Found? ==> Known(w, s.name) && StillGood(codec, w, s.name, s.manifest))
      && (s.NothingFound? || (s.Found? && Less(s.name, top)) ==> top in w.history.doomed)
      && (top in w.history.doomed ==>
            && |Greater(w, top)| >= k && Greater(start, top) == {}
            && exists n <- w.history.verified :: n !in start.history.verified && Less(top, n))
      && (w.history.verified == start.history.verified ==> !s.NothingFound? && (s.Found? ==> s.name == top))
  {
    hide Inv, Lawful, Run, Moves, Verifies, StillGood, IsSelected, Greater, KeepAtLeast;
    var start := Run(codec, EMPTY, before);
    var v := View(start, Looking(names, None));
    var View(w, s) := Moves(codec, v, moves);
    RunInv(codec, before);
    ListedFits(codec, start, names, top);
    SelectedIsGreatest(codec, start, top);
    MovesFit(codec, v, top, moves);
    DoomedIsOlder(codec, w);
    NamesAreOrdered();
    if top in w.history.doomed {
      var n :| n in w.history.verified && Less(top, n);
      assert n !in start.history.verified;
      MovesRun(codec, before, v.selector, moves);
      ChosenNeedsKeep(codec, before, ActionsOf(moves), top, k);
      NothingGreater(codec, start, top);
    }
  }

  lemma NothingGreater(codec: Codec, w: World, top: string)
    requires Inv(codec, w) && IsSelected(codec, w, top)
    ensures Greater(w, top) == {}
  {
    hide Inv, IsSelected;
    SelectedIsGreatest(codec, w, top);
    DoomedIsOlder(codec, w);
    NamesAreOrdered();
  }

  lemma DoomedIsOlder(codec: Codec, w: World)
    requires Inv(codec, w)
    ensures forall n <- w.history.doomed :: exists c <- w.history.verified :: Less(n, c)
  {
  }
}
