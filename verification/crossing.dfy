/** One intersection: its streets, its queue of waiting vehicles and the
    `isBlocked` flag that lets at most one granted vehicle through at a time.

    Each operation is one atomic transition on an immutable `Intersection`
    value; the arbitration thread's endless loop is modelled by its body,
    `ProcessVehicleQueueStep`.
 */
module Crossing {
  import opened Network
  import opened Queueing

  datatype Option<T> = None | Some(value: T)

  datatype Intersection = Intersection(
    id: IntersectionId,
    streets: seq<Street>,
    waitingVehicles: WaitingVehicles,
    isBlocked: bool)

  /** The constructor: nothing waiting and not blocked. */
  function NewIntersection(id: IntersectionId, streets: seq<Street>): (r: Intersection)
    ensures r.id == id && r.streets == streets
    ensures r.waitingVehicles.Valid() && GetSize(r.waitingVehicles) == 0
    ensures !r.isBlocked
  {
    Intersection(id, streets, NoneWaiting, false)
  }

  /** The streets of `streets` other than `incoming`, compared by id, in
      their original order. */
  function OtherStreets(streets: seq<Street>, incoming: Street): (r: seq<Street>)
    ensures |r| <= |streets|
    ensures forall s :: s in r <==> s in streets && s.id != incoming.id
  {
    if |streets| == 0 then []
    else
      var rest := OtherStreets(streets[1..], incoming);
      assert forall s :: s in streets <==> s == streets[0] || s in streets[1..];
      if streets[0].id != incoming.id then [streets[0]] + rest else rest
  }

  /** Filtering a concatenation filters each part: the relative order of the
      kept streets is the order of the street list. */
  lemma {:induction false} OtherStreetsAppend(a: seq<Street>, b: seq<Street>, incoming: Street)
    ensures OtherStreets(a + b, incoming) == OtherStreets(a, incoming) + OtherStreets(b, incoming)
    decreases |a|
  {
    if |a| == 0 {
      assert a + b == b;
    } else {
      assert (a + b)[1..] == a[1..] + b;
      OtherStreetsAppend(a[1..], b, incoming);
    }
  }

  /** When no street shares the incoming street's id, every street is kept. */
  lemma {:induction false} OtherStreetsKeepsAll(streets: seq<Street>, incoming: Street)
    requires forall i :: 0 <= i < |streets| ==> streets[i].id != incoming.id
    ensures OtherStreets(streets, incoming) == streets
    decreases |streets|
  {
    if |streets| > 0 {
      OtherStreetsKeepsAll(streets[1..], incoming);
    }
  }

  /** `queryStreets`: walks the street list once, keeping every street whose
      id differs from the incoming street's. */
  method QueryStreets(ix: Intersection, incoming: Street) returns (outgoings: seq<Street>)
    ensures outgoings == OtherStreets(ix.streets, incoming)
    ensures |outgoings| <= |ix.streets|
    ensures forall s :: s in outgoings <==> s in ix.streets && s.id != incoming.id
  {
    outgoings := [];
    var i := 0;
    while i < |ix.streets|
      invariant 0 <= i <= |ix.streets|
      invariant outgoings == OtherStreets(ix.streets[..i], incoming)
    {
      var it := ix.streets[i];
      OtherStreetsAppend(ix.streets[..i], [it], incoming);
      assert ix.streets[..i + 1] == ix.streets[..i] + [it];
      if incoming.id != it.id {
        outgoings := outgoings + [it];
      }
      i := i + 1;
    }
    assert ix.streets[..i] == ix.streets;
  }

  /** The enqueue half of `addVehicleToQueue`: a fresh promise is created and
      pushed together with the vehicle. The wait on its future is not part of
      this transition. */
  function AddVehicleToQueue(ix: Intersection, vehicle: VehicleId, promise: PromiseId): (r: Intersection)
    requires ix.waitingVehicles.Valid()
    ensures r.waitingVehicles.Valid()
    ensures Entries(r.waitingVehicles) == Entries(ix.waitingVehicles) + [Grant(vehicle, promise)]
    ensures r.id == ix.id && r.streets == ix.streets && r.isBlocked == ix.isBlocked
  {
    ix.(waitingVehicles := PushBack(ix.waitingVehicles, vehicle, promise))
  }

  /** `setIsBlocked`. */
  function SetIsBlocked(ix: Intersection, isBlocked: bool): (r: Intersection)
    ensures r.isBlocked == isBlocked
    ensures r.id == ix.id && r.streets == ix.streets && r.waitingVehicles == ix.waitingVehicles
  {
    ix.(isBlocked := isBlocked)
  }

  /** `vehicleHasLeft`: unblocks the intersection, whoever the vehicle is. */
  function VehicleHasLeft(ix: Intersection, vehicle: VehicleId): (r: Intersection)
    ensures !r.isBlocked
    ensures r.id == ix.id && r.streets == ix.streets && r.waitingVehicles == ix.waitingVehicles
  {
    SetIsBlocked(ix, false)
  }

  /** A departure on an unblocked intersection changes nothing, and two
      departures have the effect of one. */
  lemma VehicleHasLeftIdempotent(ix: Intersection, vehicle: VehicleId, other: VehicleId)
    ensures !ix.isBlocked ==> VehicleHasLeft(ix, vehicle) == ix
    ensures VehicleHasLeft(VehicleHasLeft(ix, vehicle), other) == VehicleHasLeft(ix, vehicle)
  {
  }

  /** The outcome of one arbitration step: the new intersection and the
      promise fulfilled in it, if any. */
  datatype StepOutcome = StepOutcome(next: Intersection, granted: Option<Grant>)

  /** One iteration of `processVehicleQueue`'s loop (without its sleep): when
      a vehicle is waiting and the intersection is not blocked, block it and
      then grant the front of the queue. The permission is computed on the
      already-blocked intersection, which is the set-before-grant order. */
  function ProcessVehicleQueueStep(ix: Intersection): (r: StepOutcome)
    requires ix.waitingVehicles.Valid()
    ensures r.next.waitingVehicles.Valid()
    ensures r.granted.Some? <==> GetSize(ix.waitingVehicles) > 0 && !ix.isBlocked
    ensures r.granted.Some? ==>
      && r.next.isBlocked
      && Entries(ix.waitingVehicles) == [r.granted.value] + Entries(r.next.waitingVehicles)
      && r.next.id == ix.id && r.next.streets == ix.streets
    ensures r.granted.None? ==> r.next == ix
  {
    if GetSize(ix.waitingVehicles) > 0 && !ix.isBlocked then
      var blocked := SetIsBlocked(ix, true);
      match PermitEntryToFirstInQueue(blocked.waitingVehicles)
      case Ok(p) => StepOutcome(blocked.(waitingVehicles := p.rest), Some(p.granted))
      case Err(_) => assert false; StepOutcome(ix, None)
    else
      StepOutcome(ix, None)
  }

  /** The step grants the entry that has waited longest: the vehicle and
      promise at the front of both vectors. */
  lemma ArbitrationGrantsFront(ix: Intersection)
    requires ix.waitingVehicles.Valid()
    requires GetSize(ix.waitingVehicles) > 0 && !ix.isBlocked
    ensures ProcessVehicleQueueStep(ix).granted
         == Some(Grant(ix.waitingVehicles.vehicles[0], ix.waitingVehicles.promises[0]))
  {
  }
}
