/** The queue of vehicles waiting to enter one intersection (`WaitingVehicles`).

    The source keeps two parallel vectors, one of vehicles and one of
    promises. A promise is the one-shot signal the waiting vehicle blocks on;
    here it is named by a number, and fulfilling it is the `Grant` event that
    `PermitEntryToFirstInQueue` returns.
 */
module Queueing {
  import opened Network

  /** The name of a one-shot promise handed over together with a vehicle. */
  type PromiseId = nat

  /** The fulfilment of one promise: `vehicle` may enter. */
  datatype Grant = Grant(vehicle: VehicleId, promise: PromiseId)

  datatype QueueError = EmptyQueue

  datatype Result<T> = Ok(value: T) | Err(error: QueueError)

  /** Waiting vehicles and their promises, oldest first. */
  datatype WaitingVehicles = WaitingVehicles(vehicles: seq<VehicleId>, promises: seq<PromiseId>)
  {
    /** The two vectors stay parallel: entry `i` of each belongs together. */
    predicate Valid() {
      |vehicles| == |promises|
    }
  }

  const NoneWaiting := WaitingVehicles([], [])

  /** The queue read as one sequence of (vehicle, promise) entries, front first. */
  function Entries(q: WaitingVehicles): (es: seq<Grant>)
    requires q.Valid()
    ensures |es| == |q.vehicles|
  {
    seq(|q.vehicles|, i requires 0 <= i < |q.vehicles| => Grant(q.vehicles[i], q.promises[i]))
  }

  /** `getSize`: the number of waiting vehicles. */
  function GetSize(q: WaitingVehicles): (n: int)
    ensures n >= 0
    ensures q.Valid() ==> n == |Entries(q)|
  {
    |q.vehicles|
  }

  /** `pushBack`: the vehicle and its promise join the tail of both vectors. */
  function PushBack(q: WaitingVehicles, vehicle: VehicleId, promise: PromiseId): (r: WaitingVehicles)
    ensures q.Valid() ==> r.Valid()
    ensures q.Valid() ==> Entries(r) == Entries(q) + [Grant(vehicle, promise)]
    ensures GetSize(r) == GetSize(q) + 1
  {
    WaitingVehicles(q.vehicles + [vehicle], q.promises + [promise])
  }

  /** What a successful `permitEntryToFirstInQueue` produces: the fulfilled
      promise and the queue without its front. */
  datatype Permission = Permission(granted: Grant, rest: WaitingVehicles)

  /** `permitEntryToFirstInQueue`: fulfil the promise at the front and erase
      the front of both vectors. On an empty queue the source's behaviour is
      undefined; the model reports `EmptyQueue`. */
  function PermitEntryToFirstInQueue(q: WaitingVehicles): (r: Result<Permission>)
    requires q.Valid()
    ensures r.Err? <==> GetSize(q) == 0
    ensures r.Ok? ==> r.value.rest.Valid()
    ensures r.Ok? ==> Entries(q) == [r.value.granted] + Entries(r.value.rest)
    ensures r.Ok? ==> GetSize(r.value.rest) == GetSize(q) - 1
  {
    if |q.vehicles| == 0 then
      Err(EmptyQueue)
    else
      var rest := WaitingVehicles(q.vehicles[1..], q.promises[1..]);
      assert Entries(q) == [Grant(q.vehicles[0], q.promises[0])] + Entries(rest);
      Ok(Permission(Grant(q.vehicles[0], q.promises[0]), rest))
  }

  /** Pushing onto a non-empty queue does not change who is admitted next:
      the same front entry is granted, and the new entry stays at the tail. */
  lemma PushBackKeepsFront(q: WaitingVehicles, vehicle: VehicleId, promise: PromiseId)
    requires q.Valid() && GetSize(q) > 0
    ensures
      var before := PermitEntryToFirstInQueue(q);
      var after := PermitEntryToFirstInQueue(PushBack(q, vehicle, promise));
      && before.Ok? && after.Ok?
      && after.value.granted == before.value.granted
      && after.value.rest == PushBack(before.value.rest, vehicle, promise)
  {
  }

  /** A vehicle pushed onto the empty queue is the one granted, and the queue
      is empty again afterwards. */
  lemma PushBackThenPermit(vehicle: VehicleId, promise: PromiseId)
    ensures PermitEntryToFirstInQueue(PushBack(NoneWaiting, vehicle, promise))
         == Ok(Permission(Grant(vehicle, promise), NoneWaiting))
  {
  }

  /** One operation on the queue, as the intersection's users issue them. */
  datatype QueueOp = Push(vehicle: VehicleId, promise: PromiseId) | Permit

  /** The entries `ops` pushes, in order. */
  function Pushed(ops: seq<QueueOp>): seq<Grant>
  {
    if |ops| == 0 then []
    else (if ops[0].Push? then [Grant(ops[0].vehicle, ops[0].promise)] else []) + Pushed(ops[1..])
  }

  /** The final queue and the grants made, front first. */
  datatype Replayed = Replayed(queue: WaitingVehicles, grants: seq<Grant>)

  /** Applies `ops` to `q` from left to right; fails as soon as a `Permit`
      meets an empty queue. */
  function Replay(q: WaitingVehicles, ops: seq<QueueOp>): Result<Replayed>
    requires q.Valid()
    decreases |ops|
  {
    if |ops| == 0 then Ok(Replayed(q, []))
    else match ops[0]
      case Push(v, p) => Replay(PushBack(q, v, p), ops[1..])
      case Permit =>
        match PermitEntryToFirstInQueue(q)
        case Err(e) => Err(e)
        case Ok(perm) =>
          match Replay(perm.rest, ops[1..])
          case Err(e) => Err(e)
          case Ok(done) => Ok(Replayed(done.queue, [perm.granted] + done.grants))
  }

  /** Conservation of entries for one replay: what was waiting plus what was
      pushed is what was granted, in order, followed by what is still
      waiting; hence the size grows by the pushes and shrinks by the grants. */
  predicate Conserves(q: WaitingVehicles, ops: seq<QueueOp>)
    requires q.Valid()
  {
    Replay(q, ops).Ok? ==>
      var done := Replay(q, ops).value;
      && done.queue.Valid()
      && Entries(q) + Pushed(ops) == done.grants + Entries(done.queue)
      && GetSize(done.queue) == GetSize(q) + |Pushed(ops)| - |done.grants|
  }

  lemma {:induction false} ReplayConservesEntries(q: WaitingVehicles, ops: seq<QueueOp>)
    requires q.Valid()
    ensures Conserves(q, ops)
    decreases |ops|
  {
    if |ops| == 0 {
      assert Entries(q) + Pushed(ops) == Entries(q);
    } else if ops[0].Push? {
      ReplayConservesEntries(PushBack(q, ops[0].vehicle, ops[0].promise), ops[1..]);
      ConservesAfterPush(q, ops);
    } else if GetSize(q) > 0 {
      ReplayConservesEntries(PermitEntryToFirstInQueue(q).value.rest, ops[1..]);
      ConservesAfterPermit(q, ops);
    }
  }

  lemma ConservesAfterPush(q: WaitingVehicles, ops: seq<QueueOp>)
    requires q.Valid() && |ops| > 0 && ops[0].Push?
    requires Conserves(PushBack(q, ops[0].vehicle, ops[0].promise), ops[1..])
    ensures Conserves(q, ops)
  {
    var q' := PushBack(q, ops[0].vehicle, ops[0].promise);
    assert Replay(q, ops) == Replay(q', ops[1..]);
    assert Pushed(ops) == [Grant(ops[0].vehicle, ops[0].promise)] + Pushed(ops[1..]);
    assert Entries(q) + Pushed(ops) == Entries(q') + Pushed(ops[1..]);
  }

  lemma ConservesAfterPermit(q: WaitingVehicles, ops: seq<QueueOp>)
    requires q.Valid() && |ops| > 0 && ops[0].Permit? && GetSize(q) > 0
    requires Conserves(PermitEntryToFirstInQueue(q).value.rest, ops[1..])
    ensures Conserves(q, ops)
  {
    var perm := PermitEntryToFirstInQueue(q).value;
    assert Pushed(ops) == Pushed(ops[1..]);
    var tail := Replay(perm.rest, ops[1..]);
    if tail.Ok? {
      var done := tail.value;
      assert Replay(q, ops) == Ok(Replayed(done.queue, [perm.granted] + done.grants));
      calc {
        Entries(q) + Pushed(ops);
        ([perm.granted] + Entries(perm.rest)) + Pushed(ops[1..]);
        [perm.granted] + (Entries(perm.rest) + Pushed(ops[1..]));
        [perm.granted] + (done.grants + Entries(done.queue));
        ([perm.granted] + done.grants) + Entries(done.queue);
      }
    }
  }

  /** FIFO and the size count, from the empty queue: after K pushes and J
      grants, J <= K, the grants are the first J pushed entries in push
      order, and the size is K - J. */
  lemma ReplayFromEmpty(ops: seq<QueueOp>)
    ensures Replay(NoneWaiting, ops).Ok? ==>
      var done := Replay(NoneWaiting, ops).value;
      && |done.grants| <= |Pushed(ops)|
      && done.grants == Pushed(ops)[..|done.grants|]
      && GetSize(done.queue) == |Pushed(ops)| - |done.grants|
  {
    ReplayConservesEntries(NoneWaiting, ops);
    if Replay(NoneWaiting, ops).Ok? {
      var done := Replay(NoneWaiting, ops).value;
      assert Entries(NoneWaiting) == [];
      assert Pushed(ops) == done.grants + Entries(done.queue);
    }
  }
}
