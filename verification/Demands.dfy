/**
 * Broadcast demands, the channels they keep busy at an instant, and the events of the sweep.
 * Time is an integer; a demand occupies the half-open interval [startAt, endAt).
 */
module Demands {
  import opened Hall
  import opened HallCheck
  import opened Sorting

  datatype Demand = Demand(site: string, channelType: string, channel: string, startAt: int, endAt: int)

  datatype Event = Event(at: int, channel: Channel, delta: int)

  predicate HasKnownType(d: Demand) {
    TypeIndex(d.channelType) >= 0
  }

  function ChannelOf(d: Demand): Channel
    requires HasKnownType(d)
  {
    Channel(TypeIndex(d.channelType), d.channel)
  }

  predicate Occupies(d: Demand, t: int) {
    HasKnownType(d) && d.startAt <= t < d.endAt
  }

  /** The distinct physical channels of known type in use at `t`. */
  function Live(demands: seq<Demand>, t: int): set<Channel> {
    set d | d in demands && Occupies(d, t) :: ChannelOf(d)
  }

  ghost predicate Proper(demands: seq<Demand>) {
    forall d <- demands :: d.startAt < d.endAt
  }

  /** The start and end events of every demand of known type. */
  function EventsOf(demands: seq<Demand>): seq<Event> {
    if demands == [] then []
    else EventsOf(demands[..|demands| - 1]) + EventPair(demands[|demands| - 1])
  }

  function EventPair(d: Demand): seq<Event> {
    if HasKnownType(d) then [Event(d.startAt, ChannelOf(d), 1), Event(d.endAt, ChannelOf(d), -1)] else []
  }

  // ----- sums over events -----

  ghost function Sum(events: seq<Event>, weight: Event -> int): int {
    if events == [] then 0
    else Sum(events[..|events| - 1], weight) + weight(events[|events| - 1])
  }

  lemma {:induction false} SumConcat(a: seq<Event>, b: seq<Event>, weight: Event -> int)
    ensures Sum(a + b, weight) == Sum(a, weight) + Sum(b, weight)
  {
    if b == [] {
      assert a + b == a;
    } else {
      SumConcat(a, b[..|b| - 1], weight);
      assert (a + b)[..|a + b| - 1] == a + b[..|b| - 1];
    }
  }

  lemma NoChange(weight: Event -> int)
    ensures Sum([], weight) == 0
  {
  }

  lemma SumOne(e: Event, weight: Event -> int)
    ensures Sum([e], weight) == weight(e)
  {
    assert [e][..0] == [];
  }

  lemma SumAround(before: seq<Event>, e: Event, after: seq<Event>, weight: Event -> int)
    ensures Sum(before + [e] + after, weight) == Sum(before + after, weight) + weight(e)
  {
    hide Sum;
    SumConcat(before, after, weight);
    SumConcat(before, [e], weight);
    SumConcat(before + [e], after, weight);
    SumOne(e, weight);
  }

  lemma SumWithout(b: seq<Event>, j: nat, weight: Event -> int)
    requires j < |b|
    ensures Sum(b, weight) == Sum(Without(b, j), weight) + weight(b[j])
  {
    hide Sum;
    SumAround(b[..j], b[j], b[j + 1..], weight);
    assert b == b[..j] + [b[j]] + b[j + 1..];
  }

  /** Sums do not depend on the order in which equal-time events were sorted. */
  lemma {:induction false} SumOfPermutation(a: seq<Event>, b: seq<Event>, weight: Event -> int)
    requires multiset(a) == multiset(b)
    ensures Sum(a, weight) == Sum(b, weight)
    decreases |a|
  {
    if a == [] {
      SameElements(a, b);
    } else {
      var j := FindLast(a, b);
      SumWithout(b, j, weight);
      SumOfPermutation(a[..|a| - 1], Without(b, j), weight);
    }
  }

  lemma {:induction false} SumBounds(events: seq<Event>, low: Event -> int, high: Event -> int)
    requires forall e <- events :: low(e) <= high(e)
    ensures Sum(events, low) <= Sum(events, high)
  {
    if events != [] {
      SumBounds(events[..|events| - 1], low, high);
    }
  }

  lemma {:induction false} SumZero(events: seq<Event>, weight: Event -> int)
    requires forall e <- events :: weight(e) == 0
    ensures Sum(events, weight) == 0
  {
    if events != [] {
      SumZero(events[..|events| - 1], weight);
    }
  }

  // ----- counters -----

  /** The change to the counter of `c`. */
  ghost function Change(c: Channel): Event -> int {
    (e: Event) => if e.channel == c then e.delta else 0
  }

  /** The change to the counter of `c` up to and including time `t`. */
  ghost function ChangeUpTo(c: Channel, t: int): Event -> int {
    (e: Event) => if e.channel == c && e.at <= t then e.delta else 0
  }

  /** Starts strictly before `t` and ends up to `t`: the least a counter can be while `t` is processed. */
  ghost function LeastAt(c: Channel, t: int): Event -> int {
    (e: Event) => if e.channel == c && (if e.delta > 0 then e.at < t else e.at <= t) then e.delta else 0
  }

  lemma {:induction false} DemandsBalance(demands: seq<Demand>, c: Channel, t: int)
    requires Proper(demands)
    ensures Sum(EventsOf(demands), LeastAt(c, t)) >= 0
    ensures Sum(EventsOf(demands), ChangeUpTo(c, t)) >= 0
    ensures Sum(EventsOf(demands), ChangeUpTo(c, t)) > 0 <==> c in Live(demands, t)
  {
    if demands != [] {
      var init, d := demands[..|demands| - 1], demands[|demands| - 1];
      assert demands == init + [d];
      DemandsBalance(init, c, t);
      PairBalance(d, c, t);
      SumConcat(EventsOf(init), EventPair(d), LeastAt(c, t));
      SumConcat(EventsOf(init), EventPair(d), ChangeUpTo(c, t));
      assert c in Live(demands, t) <==> c in Live(init, t) || (Occupies(d, t) && ChannelOf(d) == c);
    }
  }

  lemma PairBalance(d: Demand, c: Channel, t: int)
    requires d.startAt < d.endAt
    ensures Sum(EventPair(d), LeastAt(c, t)) >= 0
    ensures Sum(EventPair(d), ChangeUpTo(c, t)) == if Occupies(d, t) && ChannelOf(d) == c then 1 else 0
  {
    if HasKnownType(d) {
      var first, second := Event(d.startAt, ChannelOf(d), 1), Event(d.endAt, ChannelOf(d), -1);
      assert EventPair(d) == [first] + [second];
      forall weight: Event -> int
        ensures Sum(EventPair(d), weight) == weight(first) + weight(second)
      {
        SumConcat([first], [second], weight);
        SumOne(first, weight);
        SumOne(second, weight);
      }
    }
  }

  ghost predicate ByTime(events: seq<Event>) {
    forall i, j | 0 <= i < j < |events| :: events[i].at <= events[j].at
  }

  ghost predicate IsTimeline(demands: seq<Demand>, events: seq<Event>) {
    && Proper(demands)
    && ByTime(events)
    && multiset(events) == multiset(EventsOf(demands))
  }

  /** The events still to come take nothing from the least a counter can be. */
  lemma PrefixAtLeast(events: seq<Event>, i: nat, c: Channel, t: int)
    requires i <= |events| && UnitDeltas(events)
    requires forall j | 0 <= j < i :: events[j].at <= t
    requires forall j | i <= j < |events| :: events[j].at >= t
    ensures Sum(events[..i], Change(c)) >= Sum(events, LeastAt(c, t))
  {
    var done, todo := events[..i], events[i..];
    assert events == done + todo;
    SumConcat(done, todo, LeastAt(c, t));
    SumBounds(done, LeastAt(c, t), Change(c));
    var zero := (e: Event) => 0;
    SumBounds(todo, LeastAt(c, t), zero);
    SumZero(todo, zero);
  }

  /** No counter is ever negative, whatever the order of events at one instant. */
  lemma CounterNeverNegative(demands: seq<Demand>, events: seq<Event>, i: nat, c: Channel)
    requires IsTimeline(demands, events) && i <= |events|
    ensures Sum(events[..i], Change(c)) >= 0
  {
    hide Sum, Change, LeastAt, EventsOf, UnitDeltas, Proper;
    NoChange(Change(c));
    if i > 0 {
      var t := events[i - 1].at;
      DeltasAreUnits(demands, events);
      PrefixAtLeast(events, i, c, t);
      SumOfPermutation(events, EventsOf(demands), LeastAt(c, t));
      DemandsBalance(demands, c, t);
    }
  }

  /** Once every event up to `t` is applied and none after it, the counters show the live channels. */
  lemma CounterShowsLive(demands: seq<Demand>, events: seq<Event>, i: nat, t: int, c: Channel)
    requires IsTimeline(demands, events) && i <= |events|
    requires forall j | 0 <= j < i :: events[j].at <= t
    requires forall j | i <= j < |events| :: events[j].at > t
    ensures Sum(events[..i], Change(c)) > 0 <==> c in Live(demands, t)
  {
    hide Sum, EventsOf, Live, Proper;
    var done, todo := events[..i], events[i..];
    assert events == done + todo;
    SumBounds(done, Change(c), ChangeUpTo(c, t));
    SumBounds(done, ChangeUpTo(c, t), Change(c));
    SumZero(todo, ChangeUpTo(c, t));
    SumConcat(done, todo, ChangeUpTo(c, t));
    SumOfPermutation(events, EventsOf(demands), ChangeUpTo(c, t));
    DemandsBalance(demands, c, t);
  }

  ghost predicate UnitDeltas(events: seq<Event>) {
    forall e <- events :: (e.delta == 1 || e.delta == -1) && e.channel.kind < TYPE_COUNT
  }

  lemma DeltasAreUnits(demands: seq<Demand>, events: seq<Event>)
    requires multiset(events) == multiset(EventsOf(demands))
    ensures UnitDeltas(events)
  {
    SameElements(events, EventsOf(demands));
    OwnDeltasAreUnits(demands);
  }

  lemma {:induction false} OwnDeltasAreUnits(demands: seq<Demand>)
    ensures UnitDeltas(EventsOf(demands))
  {
    if demands != [] {
      OwnDeltasAreUnits(demands[..|demands| - 1]);
    }
  }
}
