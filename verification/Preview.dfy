/**
 * What a rule change would make worse: the intervals of `after` minus the intervals of `before`
 * with at least the same shortfall, and its composition with the capacity computation.
 */
module Preview {
  import opened Common
  import opened HallCheck
  import opened Sorting
  import opened Demands
  import opened Overages
  import opened Capacity

  /** Some interval of the list shows this shortfall and these types on `site` at `t`. */
  ghost predicate Shows(list: seq<Overage>, site: string, t: int, shortfall: int, jammed: seq<string>) {
    exists o <- list :: Holds(o, site, t) && o.shortfall == shortfall && o.jammedTypes == jammed
  }

  /** Some interval of `before` is at least as short at `t`. */
  ghost predicate Covered(before: seq<Overage>, site: string, t: int, shortfall: int) {
    exists o <- before :: Holds(o, site, t) && o.shortfall >= shortfall
  }

  predicate NonEmpty(list: seq<Overage>) {
    forall o <- list :: o.startAt < o.endAt
  }

  /** `list` shows what `was` showed and, in addition, the verdict of `source` during [start, end). */
  ghost predicate Adds(was: seq<Overage>, list: seq<Overage>, source: Overage, start: int, end: int) {
    forall site, t, shortfall, jammed ::
      Shows(list, site, t, shortfall, jammed) <==>
        || Shows(was, site, t, shortfall, jammed)
        || (Holds(source.(startAt := start, endAt := end), site, t) && shortfall == source.shortfall &&
            jammed == source.jammedTypes)
  }

  /** Appends [start, end) with the verdict of `source`, or extends the last interval when it continues it. */
  method AppendSegment(was: seq<Overage>, source: Overage, start: int, end: int) returns (out: seq<Overage>)
    requires NonEmpty(was)
    ensures NonEmpty(out)
    ensures Adds(was, out, source, start, end)
    ensures forall o <- out :: o in was || (o.site == source.site && o.endAt == end)
    ensures Canonical(was) && source.shortfall >= 1 && (forall o <- was :: Precedes(o, source.(startAt := start))) ==>
      Canonical(out)
  {
    if !(end > start) {
      return was;
    }
    var segment := source.(startAt := start, endAt := end);
    if |was| > 0 {
      var last := was[|was| - 1];
      if last.site == segment.site && last.endAt == segment.startAt && SameVerdict(last, segment) {
        out := was[..|was| - 1] + [last.(endAt := end)];
        ExtendingAdds(was, out, source, start, end);
        if Canonical(was) {
          ExtendingKeepsCanonical(was, end);
        }
        return;
      }
    }
    out := was + [segment];
    AppendingAdds(was, source, start, end);
    if Canonical(was) && source.shortfall >= 1 && forall o <- was :: Precedes(o, source.(startAt := start)) {
      AppendingKeepsCanonical(was, segment);
    }
  }

  lemma AppendingAdds(was: seq<Overage>, source: Overage, start: int, end: int)
    ensures Adds(was, was + [source.(startAt := start, endAt := end)], source, start, end)
  {
  }

  lemma ExtendingAdds(was: seq<Overage>, out: seq<Overage>, source: Overage, start: int, end: int)
    requires NonEmpty(was) && was != [] && start < end
    requires var last := was[|was| - 1];
      && last.site == source.site && last.endAt == start && SameVerdict(last, source)
      && out == was[..|was| - 1] + [last.(endAt := end)]
    ensures Adds(was, out, source, start, end)
  {
    var init, last := was[..|was| - 1], was[|was| - 1];
    assert was == init + [last];
    AppendShows(init, last);
    AppendShows(init, last.(endAt := end));
    assert last in was;
  }

  lemma AppendShows(init: seq<Overage>, last: Overage)
    ensures forall site, t, shortfall, jammed ::
      Shows(init + [last], site, t, shortfall, jammed) <==>
        || Shows(init, site, t, shortfall, jammed)
        || (Holds(last, site, t) && last.shortfall == shortfall && last.jammedTypes == jammed)
  {
  }

  lemma ExtendingKeepsCanonical(was: seq<Overage>, end: int)
    requires Canonical(was) && was != [] && was[|was| - 1].endAt <= end
    ensures Canonical(was[..|was| - 1] + [was[|was| - 1].(endAt := end)])
  {
    var n := |was| - 1;
    var out := was[..n] + [was[n].(endAt := end)];
    assert was[n] in was;
    assert forall i | 0 <= i < n :: out[i] == was[i] && out[i] in was;
    forall i, j | 0 <= i < j < |out|
      ensures Precedes(out[i], out[j])
    {
      assert Precedes(was[i], was[j]);
    }
    forall i, j | 0 <= i && j == i + 1 < |out| && Touching(out[i], out[j])
      ensures !SameVerdict(out[i], out[j])
    {
      assert Touching(was[i], was[j]);
    }
  }

  lemma AppendingKeepsCanonical(was: seq<Overage>, segment: Overage)
    requires Canonical(was) && segment.startAt < segment.endAt && segment.shortfall >= 1
    requires forall o <- was :: Precedes(o, segment)
    requires was != [] && Touching(was[|was| - 1], segment) ==> !SameVerdict(was[|was| - 1], segment)
    ensures Canonical(was + [segment])
  {
    var out := was + [segment];
    assert forall i | 0 <= i < |was| :: out[i] == was[i] && out[i] in was;
  }

  // ----- subtraction -----

  /** The intervals of `before` that matter for `post`. */
  predicate Relevant(pre: Overage, post: Overage) {
    pre.site == post.site && pre.shortfall >= post.shortfall && pre.startAt < post.endAt && pre.endAt > post.startAt
  }

  ghost predicate InSome(covering: seq<Overage>, t: int) {
    exists c <- covering :: c.startAt <= t < c.endAt
  }

  /** The relevant intervals by start; ties in any order. */
  method CoveringOf(before: seq<Overage>, post: Overage) returns (covering: seq<Overage>)
    ensures forall c <- covering :: Relevant(c, post) && c in before
    ensures forall t | post.startAt <= t < post.endAt ::
              InSome(covering, t) <==> Covered(before, post.site, t, post.shortfall)
    ensures forall i, j | 0 <= i < j < |covering| :: covering[i].startAt <= covering[j].startAt
  {
    covering := [];
    for k := 0 to |before|
      invariant covering == Filter(before[..k], (pre: Overage) => Relevant(pre, post))
    {
      assert before[..k + 1][..k] == before[..k];
      if !Relevant(before[k], post) {
        continue;
      }
      covering := covering + [before[k]];
    }
    assert before[..|before|] == before;
    ghost var relevant := covering;
    var byStart := (a: Overage, b: Overage) => a.startAt <= b.startAt;
    covering := Sort(covering, byStart);
    assert forall i, j | 0 <= i < j < |covering| :: byStart(covering[i], covering[j]);
    SameElements(relevant, covering);
    CoveringIsCovered(before, post, covering);
  }

  lemma CoveringIsCovered(before: seq<Overage>, post: Overage, covering: seq<Overage>)
    requires forall c :: c in covering <==> c in Filter(before, (pre: Overage) => Relevant(pre, post))
    ensures forall c <- covering :: Relevant(c, post) && c in before
    ensures forall t | post.startAt <= t < post.endAt ::
              InSome(covering, t) <==> Covered(before, post.site, t, post.shortfall)
  {
    forall c: Overage
      ensures c in covering <==> c in before && Relevant(c, post)
    {
      FilterMember(before, (pre: Overage) => Relevant(pre, post), c);
    }
    forall t | post.startAt <= t < post.endAt && Covered(before, post.site, t, post.shortfall)
      ensures InSome(covering, t)
    {
      var o :| o in before && Holds(o, post.site, t) && o.shortfall >= post.shortfall;
      assert o in covering;
    }
  }

  /** `list` shows what `was` showed and the verdict of `post` at the instants of `emitted`. */
  ghost predicate AddsAt(was: seq<Overage>, list: seq<Overage>, post: Overage, emitted: iset<int>) {
    forall site, t, shortfall, jammed ::
      Shows(list, site, t, shortfall, jammed) <==>
        || Shows(was, site, t, shortfall, jammed)
        || (site == post.site && t in emitted && shortfall == post.shortfall && jammed == post.jammedTypes)
  }

  predicate During(t: int, start: int, end: int) {
    start <= t < end
  }

  lemma AddsMore(was: seq<Overage>, mid: seq<Overage>, list: seq<Overage>, post: Overage, emitted: iset<int>,
      start: int, end: int)
    requires AddsAt(was, mid, post, emitted) && Adds(mid, list, post, start, end)
    ensures AddsAt(was, list, post, emitted + iset t | During(t, start, end))
  {
  }

  ghost predicate Within(list: seq<Overage>, post: Overage, cursor: int) {
    Canonical(list) && forall o <- list :: Precedes(o, post.(startAt := cursor))
  }

  lemma WithinMore(mid: seq<Overage>, out: seq<Overage>, post: Overage, cursor: int, end: int)
    requires Within(mid, post, cursor) && cursor <= end
    requires forall o <- out :: o in mid || (o.site == post.site && o.endAt == end)
    requires Canonical(mid) && (forall o <- mid :: Precedes(o, post.(startAt := cursor))) ==> Canonical(out)
    ensures Within(out, post, end)
  {
    hide Canonical;
  }

  lemma WithinLater(list: seq<Overage>, post: Overage, cursor: int, end: int)
    requires Within(list, post, cursor) && cursor <= end
    ensures Within(list, post, end)
  {
    hide Canonical;
  }

  lemma StartsNothing(was: seq<Overage>, post: Overage)
    ensures AddsAt(was, was, post, iset{})
  {
  }

  /** The pieces of `post` that no covering interval contains. */
  method Subtract(was: seq<Overage>, post: Overage, covering: seq<Overage>) returns (out: seq<Overage>)
    requires NonEmpty(was)
    requires forall c <- covering :: Relevant(c, post)
    requires forall i, j | 0 <= i < j < |covering| :: covering[i].startAt <= covering[j].startAt
    ensures NonEmpty(out)
    ensures AddsAt(was, out, post, iset t | During(t, post.startAt, post.endAt) && !InSome(covering, t))
    ensures Within(was, post, post.startAt) && post.startAt < post.endAt && post.shortfall >= 1 && NonEmpty(covering)
        ==> Within(out, post, post.endAt)
  {
    hide Within, Canonical, Adds, AddsAt, InSome;
    StartsNothing(was, post);
    ghost var tidy := Within(was, post, post.startAt) && post.startAt < post.endAt && post.shortfall >= 1 &&
      NonEmpty(covering);
    ghost var emitted: iset<int> := iset{};
    out := was;
    var cursor := post.startAt;
    var c := 0;
    while c < |covering|
      invariant 0 <= c <= |covering| && NonEmpty(out)
      invariant AddsAt(was, out, post, emitted)
      invariant post.startAt <= cursor
      invariant forall i | 0 <= i < c :: Min(covering[i].endAt, post.endAt) <= cursor
      invariant forall t <- emitted :: post.startAt <= t < post.endAt && !InSome(covering, t)
      invariant forall t | post.startAt <= t < cursor && t < post.endAt && !InSome(covering, t) :: t in emitted
      invariant tidy ==> Within(out, post, cursor) && cursor <= post.endAt
    {
      var cover := covering[c];
      assert cover in covering;
      CoverHolds(covering, c);
      var coverStart := Max(cover.startAt, post.startAt);
      var coverEnd := Min(cover.endAt, post.endAt);
      ghost var reached := Max(cursor, coverStart);
      if cursor < coverStart {
        ghost var mid := out;
        out := AppendSegment(out, post, cursor, coverStart);
        AddsMore(was, mid, out, post, emitted, cursor, coverStart);
        if tidy {
          WithinMore(mid, out, post, cursor, coverStart);
        }
        NotYetCovered(post, covering, c, cursor);
        emitted := emitted + iset t | During(t, cursor, coverStart);
      }
      if coverEnd > cursor {
        if tidy {
          WithinLater(out, post, reached, coverEnd);
        }
        cursor := coverEnd;
      }
      c := c + 1;
      if !(cursor < post.endAt) {
        break;
      }
    }
    if cursor < post.endAt {
      ghost var mid := out;
      out := AppendSegment(out, post, cursor, post.endAt);
      AddsMore(was, mid, out, post, emitted, cursor, post.endAt);
      if tidy {
        WithinMore(mid, out, post, cursor, post.endAt);
      }
      PastEveryCover(post, covering, cursor);
      emitted := emitted + iset t | During(t, cursor, post.endAt);
    }
    assert emitted == iset t | During(t, post.startAt, post.endAt) && !InSome(covering, t);
  }

  lemma CoverHolds(covering: seq<Overage>, c: nat)
    requires c < |covering|
    ensures forall t | covering[c].startAt <= t < covering[c].endAt :: InSome(covering, t)
  {
    assert covering[c] in covering;
  }

  /** Between the cursor and the start of the next cover no cover holds. */
  lemma NotYetCovered(post: Overage, covering: seq<Overage>, c: nat, cursor: int)
    requires c < |covering| && post.startAt <= cursor
    requires covering[c].startAt < post.endAt
    requires forall i, j | 0 <= i < j < |covering| :: covering[i].startAt <= covering[j].startAt
    requires forall i | 0 <= i < c :: Min(covering[i].endAt, post.endAt) <= cursor
    ensures forall t | cursor <= t < covering[c].startAt :: !InSome(covering, t)
  {
    forall t | cursor <= t < covering[c].startAt
      ensures !InSome(covering, t)
    {
      forall o <- covering
        ensures !(o.startAt <= t < o.endAt)
      {
        var i :| 0 <= i < |covering| && covering[i] == o;
        assert i < c || covering[c].startAt <= covering[i].startAt;
      }
    }
  }

  lemma PastEveryCover(post: Overage, covering: seq<Overage>, cursor: int)
    requires forall i | 0 <= i < |covering| :: Min(covering[i].endAt, post.endAt) <= cursor
    ensures forall t | cursor <= t < post.endAt :: !InSome(covering, t)
  {
  }

  // ----- the whole difference -----

  predicate InOrder(a: Overage, b: Overage) {
    Less(a.site, b.site) || (a.site == b.site && a.startAt <= b.startAt)
  }

  /** What `posts` show where `before` is not already as short. */
  ghost predicate ShowsNew(posts: seq<Overage>, before: seq<Overage>, site: string, t: int, shortfall: int,
      jammed: seq<string>) {
    Shows(posts, site, t, shortfall, jammed) && !Covered(before, site, t, shortfall)
  }

  ghost predicate IsDifference(list: seq<Overage>, before: seq<Overage>, after: seq<Overage>) {
    forall site, t, shortfall, jammed ::
      Shows(list, site, t, shortfall, jammed) <==> ShowsNew(after, before, site, t, shortfall, jammed)
  }

  /**
   * The part of `after` that no interval of `before` with at least its shortfall contains. This
   * holds of any two lists, overlapping or empty intervals included; canonical input gives
   * canonical output.
   */
  method NewlyAdded(before: seq<Overage>, after: seq<Overage>) returns (out: seq<Overage>)
    ensures NonEmpty(out)
    ensures IsDifference(out, before, after)
    ensures NonEmpty(before) && Canonical(after) ==> Canonical(out)
  {
    var ordered := SortOverages(after);
    ghost var tidy := NonEmpty(before) && Canonical(after);
    out := [];
    for k := 0 to |ordered|
      invariant NonEmpty(out)
      invariant IsDifference(out, before, ordered[..k])
      invariant tidy ==> Canonical(out) && forall o <- out, j | k <= j < |ordered| :: Precedes(o, ordered[j])
    {
      var post := ordered[k];
      var covering := CoveringOf(before, post);
      ghost var was := out;
      out := Subtract(out, post, covering);
      DifferenceStep(was, out, before, ordered, k, covering);
      if tidy {
        LaterPrecede(ordered, k, out);
      }
    }
    assert ordered[..|ordered|] == ordered;
    SameElements(after, ordered);
    assert forall site, t, shortfall, jammed ::
      Shows(ordered, site, t, shortfall, jammed) <==> Shows(after, site, t, shortfall, jammed);
  }

  method SortOverages(list: seq<Overage>) returns (ordered: seq<Overage>)
    ensures multiset(ordered) == multiset(list)
    ensures Canonical(list) ==> ordered == list
  {
    NamesAreOrdered();
    var inOrder := (a: Overage, b: Overage) => InOrder(a, b);
    ordered := Sort(list, inOrder);
    assert forall i, j | 0 <= i < j < |ordered| :: inOrder(ordered[i], ordered[j]);
    if Canonical(list) {
      assert forall o <- list :: o.startAt < o.endAt;
      assert forall i, j | 0 <= i < j < |list| :: Precedes(list[i], list[j]) && list[i] in list && list[j] in list;
      StrictOrderIsUnique(list, ordered, inOrder);
    }
  }

  lemma DifferenceStep(
    was: seq<Overage>, out: seq<Overage>, before: seq<Overage>, ordered: seq<Overage>, k: nat, covering: seq<Overage>)
    requires k < |ordered|
    requires IsDifference(was, before, ordered[..k])
    requires var post := ordered[k];
      && AddsAt(was, out, post, iset t | During(t, post.startAt, post.endAt) && !InSome(covering, t))
      && forall t | post.startAt <= t < post.endAt ::
           InSome(covering, t) <==> Covered(before, post.site, t, post.shortfall)
    ensures IsDifference(out, before, ordered[..k + 1])
  {
    assert ordered[..k + 1] == ordered[..k] + [ordered[k]];
    AppendShows(ordered[..k], ordered[k]);
  }

  lemma LaterPrecede(ordered: seq<Overage>, k: nat, out: seq<Overage>)
    requires Canonical(ordered) && k < |ordered|
    requires Within(out, ordered[k], ordered[k].endAt)
    ensures forall o <- out, j | k < j < |ordered| :: Precedes(o, ordered[j])
  {
    NamesAreOrdered();
    forall o <- out, j | k < j < |ordered|
      ensures Precedes(o, ordered[j])
    {
      assert Precedes(ordered[k], ordered[j]);
    }
  }

  // ----- composition with the capacity computation -----

  /** At this instant the result shows the verdict after the change if the shortfall grew, else nothing. */
  ghost predicate ShowsGrowth(
    list: seq<Overage>, current: seq<Demand>, after: seq<Demand>, tuners: seq<Tuner>, site: string, t: int)
  {
    var was, v := SiteVerdict(current, tuners, site, t), SiteVerdict(after, tuners, site, t);
    Reports(list, site, t, if v.shortfall > was.shortfall then v else Verdict(0, 0))
  }

  ghost predicate IsPreview(list: seq<Overage>, current: seq<Demand>, after: seq<Demand>, tuners: seq<Tuner>) {
    && Canonical(list)
    && forall site, t :: ShowsGrowth(list, current, after, tuners, site, t)
  }

  /**
   * `current` are the demands before the change; `withoutRule` drops those of the edited rule and
   * `candidates` are the programmes the edited rule would reserve.
   */
  method Preview(current: seq<Demand>, withoutRule: seq<Demand>, candidates: seq<Demand>, tuners: seq<Tuner>)
    returns (out: seq<Overage>)
    ensures IsPreview(out, current, withoutRule + candidates, tuners)
  {
    var currentOverages := Compute(current, tuners);
    var after := withoutRule + candidates;
    var newOverages := Compute(after, tuners);
    out := NewlyAdded(currentOverages, newOverages);
    forall site, t
      ensures ShowsGrowth(out, current, after, tuners, site, t)
    {
      DifferenceReports(currentOverages, newOverages, out, site, t,
        SiteVerdict(current, tuners, site, t), SiteVerdict(after, tuners, site, t));
    }
  }

  lemma DifferenceReports(
    before: seq<Overage>, after: seq<Overage>, out: seq<Overage>, site: string, t: int, b: Verdict, a: Verdict)
    requires IsDifference(out, before, after)
    requires Reports(before, site, t, b) && Reports(after, site, t, a)
    ensures Reports(out, site, t, if a.shortfall > b.shortfall then a else Verdict(0, 0))
  {
    forall o <- out | Holds(o, site, t)
      ensures a.shortfall > b.shortfall && Matches(o, a)
    {
      assert Shows(out, site, t, o.shortfall, o.jammedTypes);
      assert ShowsNew(after, before, site, t, o.shortfall, o.jammedTypes);
    }
    if a.shortfall > b.shortfall {
      var o :| o in after && Holds(o, site, t);
      assert Matches(o, a) && Shows(after, site, t, o.shortfall, o.jammedTypes);
      assert ShowsNew(after, before, site, t, o.shortfall, o.jammedTypes);
    }
  }

  /** Subtracting a list of itself, or of anything at least as short everywhere, leaves nothing. */
  lemma NothingNew(before: seq<Overage>, after: seq<Overage>, out: seq<Overage>)
    requires NonEmpty(out) && IsDifference(out, before, after)
    requires forall o <- after, t | Holds(o, o.site, t) :: Covered(before, o.site, t, o.shortfall)
    ensures out == []
  {
    forall site, t, shortfall, jammed
      ensures !Shows(out, site, t, shortfall, jammed)
    {
    }
    ShowsNothingIsEmpty(out);
  }

  lemma ShowsNothingIsEmpty(list: seq<Overage>)
    requires NonEmpty(list)
    requires forall site, t, shortfall, jammed :: !Shows(list, site, t, shortfall, jammed)
    ensures list == []
  {
    if list != [] {
      var o := list[0];
      assert !Holds(o, o.site, o.startAt) by {
        assert !Shows(list, o.site, o.startAt, o.shortfall, o.jammedTypes);
      }
    }
  }

  lemma NothingNewThanItself(list: seq<Overage>, out: seq<Overage>)
    requires NonEmpty(out) && IsDifference(out, list, list)
    ensures out == []
  {
    NothingNew(list, list, out);
  }

  /** Candidates on channels that are busy anyway while they run change nothing. */
  lemma BusyCandidatesAddNothing(current: seq<Demand>, candidates: seq<Demand>, tuners: seq<Tuner>, out: seq<Overage>)
    requires IsPreview(out, current, current + candidates, tuners)
    requires forall d <- candidates, t | Occupies(d, t) :: ChannelOf(d) in LiveOn(current, d.site, t)
    ensures out == []
  {
    forall site, t
      ensures Reports(out, site, t, Verdict(0, 0))
    {
      assert LiveOn(current + candidates, site, t) == LiveOn(current, site, t);
      assert ShowsGrowth(out, current, current + candidates, tuners, site, t);
    }
    SilentIsEmpty(out);
  }

  lemma SilentIsEmpty(list: seq<Overage>)
    requires Canonical(list)
    requires forall site, t :: Reports(list, site, t, Verdict(0, 0))
    ensures list == []
  {
    if list != [] {
      var o := list[0];
      assert !Holds(o, o.site, o.startAt) by {
        assert Reports(list, o.site, o.startAt, Verdict(0, 0));
      }
    }
  }
}
