/** The admission protocol of one intersection as a transition system.

    Vehicles enqueue (`addVehicleToQueue`), the intersection's loop
    arbitrates (`processVehicleQueue`), and a vehicle that has crossed
    departs (`vehicleHasLeft`). Each call is one atomic event. Beside the
    intersection the state records the history the properties speak about:
    every entry ever enqueued, every grant ever made, and the vehicles that
    were granted entry and have not departed yet.
 */
module Arbitration {
  import opened Network
  import opened Queueing
  import opened Crossing

  datatype Event = Enqueue(vehicle: VehicleId) | Arbitrate | Depart(vehicle: VehicleId)

  datatype System = System(
    intersection: Intersection,
    enqueued: seq<Grant>,
    granted: seq<Grant>,
    inside: seq<VehicleId>)
  {
    predicate WellFormed() {
      intersection.waitingVehicles.Valid()
    }
  }

  function Init(id: IntersectionId, streets: seq<Street>): System
  {
    System(NewIntersection(id, streets), [], [], [])
  }

  /** The assumption of the protocol: only a vehicle that holds a grant
      departs. Enqueueing and arbitrating are always possible. */
  predicate Enabled(s: System, e: Event) {
    e.Depart? ==> e.vehicle in s.inside
  }

  /** `xs` without any occurrence of `v`. */
  function Without(xs: seq<VehicleId>, v: VehicleId): (r: seq<VehicleId>)
    ensures forall w :: w in r <==> w in xs && w != v
    ensures |r| <= |xs|
  {
    if |xs| == 0 then []
    else
      assert forall w :: w in xs <==> w == xs[0] || w in xs[1..];
      (if xs[0] == v then [] else [xs[0]]) + Without(xs[1..], v)
  }

  /** One event. An enqueued request gets a fresh promise, numbered by how
      many requests came before it. */
  function Next(s: System, e: Event): (r: System)
    requires s.WellFormed()
    ensures r.WellFormed()
    ensures e.Enqueue? ==>
      && r.enqueued == s.enqueued + [Grant(e.vehicle, |s.enqueued|)]
      && Entries(r.intersection.waitingVehicles)
         == Entries(s.intersection.waitingVehicles) + [Grant(e.vehicle, |s.enqueued|)]
      && r.intersection.isBlocked == s.intersection.isBlocked
      && r.granted == s.granted && r.inside == s.inside
    ensures e.Arbitrate? ==>
      if GetSize(s.intersection.waitingVehicles) > 0 && !s.intersection.isBlocked then
        && r.intersection.isBlocked
        && |r.granted| == |s.granted| + 1
        && r.granted[..|s.granted|] == s.granted
        && Entries(s.intersection.waitingVehicles)
           == [r.granted[|s.granted|]] + Entries(r.intersection.waitingVehicles)
        && r.inside == s.inside + [r.granted[|s.granted|].vehicle]
        && r.enqueued == s.enqueued
      else r == s
    ensures e.Depart? ==>
      && !r.intersection.isBlocked
      && r.intersection.waitingVehicles == s.intersection.waitingVehicles
      && (forall w :: w in r.inside <==> w in s.inside && w != e.vehicle)
      && r.enqueued == s.enqueued && r.granted == s.granted
  {
    match e
    case Enqueue(v) =>
      var promise := |s.enqueued|;
      s.(intersection := AddVehicleToQueue(s.intersection, v, promise),
         enqueued := s.enqueued + [Grant(v, promise)])
    case Arbitrate =>
      var step := ProcessVehicleQueueStep(s.intersection);
      if step.granted.None? then s
      else
        var g := step.granted.value;
        s.(intersection := step.next, granted := s.granted + [g], inside := s.inside + [g.vehicle])
    case Depart(v) =>
      s.(intersection := VehicleHasLeft(s.intersection, v), inside := Without(s.inside, v))
  }

  /** Every event of `events` is enabled in the state it is applied to. */
  predicate Legal(s: System, events: seq<Event>)
    requires s.WellFormed()
    decreases |events|
  {
    |events| == 0 || (Enabled(s, events[0]) && Legal(Next(s, events[0]), events[1..]))
  }

  function Run(s: System, events: seq<Event>): (r: System)
    requires s.WellFormed()
    ensures r.WellFormed()
    decreases |events|
  {
    if |events| == 0 then s else Run(Next(s, events[0]), events[1..])
  }

  /** The protocol invariant.
      - at most one vehicle is granted and not yet departed, and the
        intersection is blocked exactly when there is one;
      - what was enqueued is what was granted followed by what is waiting,
        in order (FIFO);
      - the n-th request carries promise n, so promises are never reused;
      - the vehicle inside is the one granted last. */
  predicate Inv(s: System) {
    && s.WellFormed()
    && |s.inside| <= 1
    && (s.intersection.isBlocked <==> |s.inside| == 1)
    && s.enqueued == s.granted + Entries(s.intersection.waitingVehicles)
    && (forall i :: 0 <= i < |s.enqueued| ==> s.enqueued[i].promise == i)
    && (|s.inside| == 1 ==> |s.granted| > 0 && s.inside[0] == s.granted[|s.granted| - 1].vehicle)
  }

  lemma InitSatisfiesInv(id: IntersectionId, streets: seq<Street>)
    ensures Inv(Init(id, streets))
  {
  }

  lemma NextPreservesInv(s: System, e: Event)
    requires Inv(s) && Enabled(s, e)
    ensures Inv(Next(s, e))
  {
  }

  lemma {:induction false} RunPreservesInv(s: System, events: seq<Event>)
    requires Inv(s) && Legal(s, events)
    ensures Inv(Run(s, events))
    decreases |events|
  {
    if |events| > 0 {
      NextPreservesInv(s, events[0]);
      RunPreservesInv(Next(s, events[0]), events[1..]);
    }
  }

  lemma ReachableSatisfiesInv(id: IntersectionId, streets: seq<Street>, events: seq<Event>)
    requires Legal(Init(id, streets), events)
    ensures Inv(Run(Init(id, streets), events))
  {
    InitSatisfiesInv(id, streets);
    RunPreservesInv(Init(id, streets), events);
  }

  /** Mutual exclusion: in every legal run at most one vehicle is granted
      and not departed, and then the intersection is blocked. */
  lemma MutualExclusion(id: IntersectionId, streets: seq<Street>, events: seq<Event>)
    requires Legal(Init(id, streets), events)
    ensures |Run(Init(id, streets), events).inside| <= 1
    ensures |Run(Init(id, streets), events).inside| == 1 ==> Run(Init(id, streets), events).intersection.isBlocked
  {
    ReachableSatisfiesInv(id, streets, events);
  }

  /** FIFO: the grants are the oldest requests, in the order they were
      enqueued; and the queue size is requests minus grants. */
  lemma GrantsFollowEnqueueOrder(id: IntersectionId, streets: seq<Street>, events: seq<Event>)
    requires Legal(Init(id, streets), events)
    ensures
      var s := Run(Init(id, streets), events);
      && |s.granted| <= |s.enqueued|
      && s.granted == s.enqueued[..|s.granted|]
      && GetSize(s.intersection.waitingVehicles) == |s.enqueued| - |s.granted|
  {
    ReachableSatisfiesInv(id, streets, events);
    var s := Run(Init(id, streets), events);
    assert s.enqueued[..|s.granted|] == s.granted;
  }

  /** Each promise is fulfilled at most once: no two grants carry the same
      promise. */
  lemma PromisesFulfilledOnce(id: IntersectionId, streets: seq<Street>, events: seq<Event>)
    requires Legal(Init(id, streets), events)
    ensures
      var s := Run(Init(id, streets), events);
      forall i, j :: 0 <= i < j < |s.granted| ==> s.granted[i].promise != s.granted[j].promise
  {
    ReachableSatisfiesInv(id, streets, events);
    var s := Run(Init(id, streets), events);
    forall i, j | 0 <= i < j < |s.granted|
      ensures s.granted[i].promise != s.granted[j].promise
    {
      assert s.granted[i] == s.enqueued[i] && s.granted[j] == s.enqueued[j];
    }
  }

  /** Without the departure assumption exclusion fails: a vehicle that was
      never granted reports that it has left, the intersection unblocks, and
      a second vehicle is let in while the first is still inside. */
  lemma UngrantedDepartureBreaksExclusion()
    ensures
      var events := [Enqueue(1), Enqueue(2), Arbitrate, Depart(2), Arbitrate];
      && !Legal(Init(0, []), events)
      && Run(Init(0, []), events).inside == [1, 2]
  {
  }

  /** One round of service: whoever is inside departs, then the loop
      arbitrates. */
  function Serve(s: System): (r: System)
    requires Inv(s)
    ensures Inv(r)
  {
    if |s.inside| == 1 then
      NextPreservesInv(s, Depart(s.inside[0]));
      var left := Next(s, Depart(s.inside[0]));
      NextPreservesInv(left, Arbitrate);
      Next(left, Arbitrate)
    else
      NextPreservesInv(s, Arbitrate);
      Next(s, Arbitrate)
  }

  function ServeTimes(s: System, n: nat): (r: System)
    requires Inv(s)
    ensures Inv(r)
    decreases n
  {
    if n == 0 then s else ServeTimes(Serve(s), n - 1)
  }

  /** A round of service on a non-empty queue grants its front entry. */
  lemma ServeGrantsFront(s: System)
    requires Inv(s) && GetSize(s.intersection.waitingVehicles) > 0
    ensures
      var q := Entries(s.intersection.waitingVehicles);
      && Serve(s).granted == s.granted + [q[0]]
      && Entries(Serve(s).intersection.waitingVehicles) == q[1..]
  {
  }

  /** Bounded liveness: the entry waiting at position k is granted within
      k + 1 rounds of service, and all entries ahead of it before it. */
  lemma {:induction false} WaitingEntryIsServed(s: System, k: nat)
    requires Inv(s) && k < GetSize(s.intersection.waitingVehicles)
    ensures ServeTimes(s, k + 1).granted == s.granted + Entries(s.intersection.waitingVehicles)[..k + 1]
    decreases k
  {
    var q := Entries(s.intersection.waitingVehicles);
    ServeGrantsFront(s);
    var s' := Serve(s);
    if k > 0 {
      WaitingEntryIsServed(s', k - 1);
      GrantsConcatenate(s.granted, q, k);
    } else {
      assert q[..1] == [q[0]];
    }
  }

  lemma GrantsConcatenate(earlier: seq<Grant>, q: seq<Grant>, k: nat)
    requires 0 < k < |q|
    ensures (earlier + [q[0]]) + q[1..][..k] == earlier + q[..k + 1]
  {
  }

  /** Scenario: three vehicles enqueued in the order 1, 2, 3 are granted in
      that order when each departs before the next arbitration. */
  lemma ThreeVehiclesInArrivalOrder()
    ensures
      var events := [Enqueue(1), Enqueue(2), Enqueue(3),
                     Arbitrate, Depart(1), Arbitrate, Depart(2), Arbitrate];
      var s := Run(Init(0, []), events);
      && |s.granted| == 3
      && s.granted[0].vehicle == 1 && s.granted[1].vehicle == 2 && s.granted[2].vehicle == 3
  {
  }
}
