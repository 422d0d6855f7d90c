/**
 * Tuner matching. A channel can be recorded by a tuner that supports its type, and a tuner
 * records one channel. The capacity check never builds an assignment: it only compares, for
 * every set of types, the channels that need one of them with the tuners that offer one.
 * This module proves that the comparison is exact (Hall's theorem with deficiency, Ore 1955).
 */
module Hall {
  import opened Common

  /** The position of a channel's type among the broadcast types. */
  type Kind = nat

  /** A physical channel, with the kind of broadcast it belongs to. */
  datatype Channel = Channel(kind: Kind, name: string)

  /** The tuners, each given by the kinds it supports. */
  type Tuners = seq<set<Kind>>

  /** The channels whose kind lies in `kinds`. */
  function Needing(channels: set<Channel>, kinds: set<Kind>): set<Channel> {
    set c | c in channels && c.kind in kinds
  }

  /** The number of tuners that support at least one of `kinds`. */
  function Offering(tuners: Tuners, kinds: set<Kind>): nat {
    if tuners == [] then 0
    else Offering(tuners[..|tuners| - 1], kinds) + Hit(tuners[|tuners| - 1], kinds)
  }

  function Hit(tuner: set<Kind>, kinds: set<Kind>): nat {
    if tuner * kinds != {} then 1 else 0
  }

  /**
   * `assignment` gives distinct tuners to some of the channels, each tuner supporting the kind
   * of the channel it records.
   */
  ghost predicate IsAssignment(channels: set<Channel>, tuners: Tuners, assignment: map<Channel, nat>) {
    && assignment.Keys <= channels
    && (forall c <- assignment :: assignment[c] < |tuners| && c.kind in tuners[assignment[c]])
    && (forall c, e | c in assignment && e in assignment && c != e :: assignment[c] != assignment[e])
  }

  /** For every set of kinds, at most `k` channels in it exceed the tuners offering it. */
  ghost predicate DeficiencyAtMost(channels: set<Channel>, tuners: Tuners, k: nat) {
    forall kinds: set<Kind> :: |Needing(channels, kinds)| <= Offering(tuners, kinds) + k
  }

  // ----- no assignment does better -----

  lemma NeedingWithout(channels: set<Channel>, c: Channel, kinds: set<Kind>)
    requires c in channels
    ensures |Needing(channels, kinds)| == |Needing(channels - {c}, kinds)| + if c.kind in kinds then 1 else 0
  {
    if c.kind in kinds {
      assert Needing(channels, kinds) == Needing(channels - {c}, kinds) + {c};
    } else {
      assert Needing(channels, kinds) == Needing(channels - {c}, kinds);
    }
  }

  /** Freeing the last tuner takes at most one channel off the assignment. */
  lemma WithoutLast(channels: set<Channel>, tuners: Tuners, assignment: map<Channel, nat>, kinds: set<Kind>)
    returns (rest: map<Channel, nat>)
    requires tuners != [] && IsAssignment(channels, tuners, assignment)
    ensures IsAssignment(channels, tuners[..|tuners| - 1], rest)
    ensures |Needing(assignment.Keys, kinds)| <= |Needing(rest.Keys, kinds)| + Hit(tuners[|tuners| - 1], kinds)
  {
    var n := |tuners| - 1;
    if c :| c in assignment && assignment[c] == n {
      rest := assignment - {c};
      NeedingWithout(assignment.Keys, c, kinds);
      assert rest.Keys == assignment.Keys - {c};
      if c.kind in kinds {
        assert c.kind in tuners[n] * kinds;
      }
    } else {
      rest := assignment;
    }
  }

  /** At most as many channels of `kinds` are assigned as there are tuners offering `kinds`. */
  lemma {:induction false} AssignedAtMostOffering(
    channels: set<Channel>, tuners: Tuners, assignment: map<Channel, nat>, kinds: set<Kind>)
    requires IsAssignment(channels, tuners, assignment)
    ensures |Needing(assignment.Keys, kinds)| <= Offering(tuners, kinds)
    decreases |tuners|
  {
    if tuners == [] {
      assert Needing(assignment.Keys, kinds) == {};
    } else {
      var rest := WithoutLast(channels, tuners, assignment, kinds);
      AssignedAtMostOffering(channels, tuners[..|tuners| - 1], rest, kinds);
    }
  }

  /** Whatever the assignment, the excess demand of every set of kinds stays without a tuner. */
  lemma NoAssignmentDoesBetter(
    channels: set<Channel>, tuners: Tuners, assignment: map<Channel, nat>, kinds: set<Kind>)
    requires IsAssignment(channels, tuners, assignment)
    ensures |Needing(channels, kinds)| - Offering(tuners, kinds) <= |channels - assignment.Keys|
  {
    hide Offering;
    AssignedAtMostOffering(channels, tuners, assignment, kinds);
    var unserved := channels - assignment.Keys;
    assert Needing(channels, kinds) == Needing(assignment.Keys, kinds) + Needing(unserved, kinds);
    SubsetSize(Needing(unserved, kinds), unserved);
  }

  // ----- some assignment is that good -----

  lemma {:induction false} OfferingSubmodular(tuners: Tuners, a: set<Kind>, b: set<Kind>)
    ensures Offering(tuners, a + b) + Offering(tuners, a * b) <= Offering(tuners, a) + Offering(tuners, b)
  {
    if tuners != [] {
      OfferingSubmodular(tuners[..|tuners| - 1], a, b);
      var last := tuners[|tuners| - 1];
      assert last * (a + b) == (last * a) + (last * b);
      assert last * (a * b) <= last * a && last * (a * b) <= last * b;
    }
  }

  lemma NeedingModular(channels: set<Channel>, a: set<Kind>, b: set<Kind>)
    ensures |Needing(channels, a + b)| + |Needing(channels, a * b)| == |Needing(channels, a)| + |Needing(channels, b)|
  {
    assert Needing(channels, a + b) == Needing(channels, a) + Needing(channels, b);
    assert Needing(channels, a * b) == Needing(channels, a) * Needing(channels, b);
  }

  /** `kinds` loses its last spare when the last tuner is taken away. */
  ghost predicate Tight(channels: set<Channel>, tuners: Tuners, k: nat, kinds: set<Kind>)
    requires tuners != []
  {
    var n := |tuners| - 1;
    && tuners[n] * kinds != {}
    && |Needing(channels, kinds)| == Offering(tuners[..n], kinds) + k + 1
  }

  lemma TightIntersection(channels: set<Channel>, tuners: Tuners, k: nat, a: set<Kind>, b: set<Kind>)
    requires tuners != [] && DeficiencyAtMost(channels, tuners, k)
    requires Tight(channels, tuners, k, a) && Tight(channels, tuners, k, b)
    ensures Tight(channels, tuners, k, a * b)
  {
    var n := |tuners| - 1;
    NeedingModular(channels, a, b);
    OfferingSubmodular(tuners[..n], a, b);
    assert tuners[n] * (a + b) == tuners[n] * a + tuners[n] * b;
    assert |Needing(channels, a + b)| <= Offering(tuners, a + b) + k;
    assert |Needing(channels, a * b)| <= Offering(tuners, a * b) + k;
  }

  /** A smallest tight set, which every other tight set then contains. */
  lemma {:induction false} LeastTight(channels: set<Channel>, tuners: Tuners, k: nat, start: set<Kind>)
    returns (least: set<Kind>)
    requires tuners != [] && DeficiencyAtMost(channels, tuners, k)
    requires Tight(channels, tuners, k, start)
    ensures Tight(channels, tuners, k, least)
    ensures forall b | Tight(channels, tuners, k, b) :: least <= b
    decreases |start|
  {
    if b :| Tight(channels, tuners, k, b) && !(start <= b) {
      TightIntersection(channels, tuners, k, start, b);
      assert start == (start * b) + (start - b);
      assert |start| == |start * b| + |start - b|;
      assert start - b != {};
      least := LeastTight(channels, tuners, k, start * b);
    } else {
      least := start;
    }
  }

  lemma {:induction false} OfferingMonotone(tuners: Tuners, a: set<Kind>, b: set<Kind>)
    requires a <= b
    ensures Offering(tuners, a) <= Offering(tuners, b)
  {
    if tuners != [] {
      OfferingMonotone(tuners[..|tuners| - 1], a, b);
      var last := tuners[|tuners| - 1];
      assert last * a <= last * b;
    }
  }

  /** A tight set holds a channel that the last tuner could record. */
  lemma TightHasCandidate(channels: set<Channel>, tuners: Tuners, k: nat, kinds: set<Kind>) returns (c: Channel)
    requires tuners != [] && DeficiencyAtMost(channels, tuners, k)
    requires Tight(channels, tuners, k, kinds)
    ensures c in channels && c.kind in kinds && c.kind in tuners[|tuners| - 1]
  {
    var n := |tuners| - 1;
    if forall e <- channels :: !(e.kind in kinds && e.kind in tuners[n]) {
      var rest := kinds - tuners[n];
      assert Needing(channels, kinds) == Needing(channels, rest);
      assert tuners[n] * rest == {};
      OfferingMonotone(tuners[..n], rest, kinds);
      assert false;
    }
    c :| c in channels && c.kind in kinds && c.kind in tuners[n];
  }

  /** Giving the last tuner to a channel found in every tight set keeps the deficiency. */
  lemma DeficiencyAfterAssigning(channels: set<Channel>, tuners: Tuners, k: nat, c: Channel)
    requires tuners != [] && DeficiencyAtMost(channels, tuners, k)
    requires c in channels
    requires forall b | Tight(channels, tuners, k, b) :: c.kind in b
    ensures DeficiencyAtMost(channels - {c}, tuners[..|tuners| - 1], k)
  {
    var n := |tuners| - 1;
    forall b: set<Kind>
      ensures |Needing(channels - {c}, b)| <= Offering(tuners[..n], b) + k
    {
      assert |Needing(channels, b)| <= Offering(tuners, b) + k;
      assert Needing(channels - {c}, b) == Needing(channels, b) - {c};
      if Tight(channels, tuners, k, b) {
        assert c in Needing(channels, b);
      }
    }
  }

  /** The last tuner is given to one channel; the others keep what they had. */
  lemma AssigningLast(channels: set<Channel>, tuners: Tuners, c: Channel, rest: map<Channel, nat>)
    requires tuners != [] && c in channels && c.kind in tuners[|tuners| - 1]
    requires IsAssignment(channels - {c}, tuners[..|tuners| - 1], rest)
    ensures IsAssignment(channels, tuners, rest[c := |tuners| - 1])
    ensures channels - rest[c := |tuners| - 1].Keys == (channels - {c}) - rest.Keys
  {
  }

  lemma IgnoringLast(channels: set<Channel>, tuners: Tuners, assignment: map<Channel, nat>)
    requires tuners != [] && IsAssignment(channels, tuners[..|tuners| - 1], assignment)
    ensures IsAssignment(channels, tuners, assignment)
  {
  }

  /** When dropping the last tuner would exceed `k`, some channel can take it. */
  lemma LastTunerTaker(channels: set<Channel>, tuners: Tuners, k: nat) returns (c: Channel)
    requires tuners != [] && DeficiencyAtMost(channels, tuners, k)
    requires !DeficiencyAtMost(channels, tuners[..|tuners| - 1], k)
    ensures c in channels && c.kind in tuners[|tuners| - 1]
    ensures DeficiencyAtMost(channels - {c}, tuners[..|tuners| - 1], k)
  {
    var n := |tuners| - 1;
    var start: set<Kind> :| |Needing(channels, start)| > Offering(tuners[..n], start) + k;
    assert |Needing(channels, start)| <= Offering(tuners, start) + k;
    var least := LeastTight(channels, tuners, k, start);
    c := TightHasCandidate(channels, tuners, k, least);
    DeficiencyAfterAssigning(channels, tuners, k, c);
  }

  /** An assignment that leaves at most `k` channels without a tuner. */
  lemma {:induction false} AssignmentExists(channels: set<Channel>, tuners: Tuners, k: nat)
    returns (assignment: map<Channel, nat>)
    requires DeficiencyAtMost(channels, tuners, k)
    ensures IsAssignment(channels, tuners, assignment)
    ensures |channels - assignment.Keys| <= k
    decreases |tuners|
  {
    if tuners == [] {
      assignment := map[];
      var all := set c <- channels :: c.kind;
      assert Needing(channels, all) == channels;
      assert channels - assignment.Keys == channels;
      assert |Needing(channels, all)| <= Offering(tuners, all) + k;
    } else {
      var n := |tuners| - 1;
      if DeficiencyAtMost(channels, tuners[..n], k) {
        assignment := AssignmentExists(channels, tuners[..n], k);
        IgnoringLast(channels, tuners, assignment);
      } else {
        var c := LastTunerTaker(channels, tuners, k);
        var rest := AssignmentExists(channels - {c}, tuners[..n], k);
        AssigningLast(channels, tuners, c, rest);
        assignment := rest[c := n];
      }
    }
  }
}
