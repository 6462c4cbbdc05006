# Intersection admission in the concurrent traffic simulation, in Dafny

The traffic simulation runs every vehicle and every intersection in its own
thread. Underneath the threads is a small sequential protocol:

- a vehicle close to the end of its street asks the intersection ahead for
  entry (`addVehicleToQueue`);
- the intersection keeps the waiting vehicles and their promises in the
  `WaitingVehicles` queue;
- the intersection's loop (`processVehicleQueue`) blocks itself and fulfils
  the promise at the front of the queue whenever something is waiting and it
  is not blocked;
- the vehicle crosses, picks its next street and tells the intersection that
  it has left (`vehicleHasLeft`), which unblocks it.

This project models that protocol with each call as one atomic transition on
immutable values, and proves its properties.

- `network.dfy`, module `Network`: vehicle, intersection and street ids, and
  the street record (its id and its two end intersections).
- `queueing.dfy`, module `Queueing`: `WaitingVehicles` with `getSize`,
  `pushBack` and `permitEntryToFirstInQueue`. A promise is named by a number.
  Fulfilling it is a `Grant` event. Also a replay of any sequence of pushes
  and permits, with conservation and FIFO lemmas.
- `crossing.dfy`, module `Crossing`: the intersection with its street list,
  queue and `isBlocked` flag. It holds `queryStreets` (as a loop and as a
  recursive filter), the enqueue half of `addVehicleToQueue`, `setIsBlocked`,
  `vehicleHasLeft`, and one iteration of `processVehicleQueue`'s loop.
- `arbitration.dfy`, module `Arbitration`: one intersection as a transition
  system with three events: enqueue, arbitrate and depart. The state also
  records every request, every grant, and who is granted and not yet
  departed. It proves mutual exclusion, FIFO grants, the size count, that
  promises are fulfilled once, and bounded liveness. A counterexample shows
  why the protocol must assume that only the granted vehicle departs.
- `driving.dfy`, module `Driving`: the vehicle record of `Vehicle.h`, its
  setters, and the decision logic of one iteration of `drive()`. That logic
  covers the approach check at 0.9, the crossing check at 1.0, choosing the
  next street and the next intersection, the departure signal and the reset.
  Runs of many iterations are proved to keep the vehicle's requests and
  departures alternating and its speed at one of two levels.

Points where the model has to decide how to read the code:

- On an empty queue the code's behaviour is undefined: `permitEntryToFirstInQueue`
  calls `set_value` through `begin()` of an empty vector. The model returns
  `Err(EmptyQueue)` and proves that the arbitration step never reaches it.
- The code takes no lock on the queue or the blocked flag. Nothing is
  claimed about interleavings inside a call.
- `vehicleHasLeft` ignores which vehicle calls it and always unblocks. The
  model does the same. Mutual exclusion is therefore proved only for runs
  where the departing vehicle is the granted one.
  `Arbitration.UngrantedDepartureBreaksExclusion` shows that without this
  assumption two vehicles end up inside at once.

## Model

| member | source | states |
|---|---|---|
| Queueing.GetSize | Lesson2/src/Intersection.cpp:13 | the size is never negative and equals the number of waiting (vehicle, promise) entries |
| Queueing.PushBack | Lesson2/src/Intersection.cpp:15-19 | the vehicle and its promise join the tails of both vectors as one new last entry; the vectors stay parallel, earlier entries are unchanged and the size grows by one |
| Queueing.PermitEntryToFirstInQueue | Lesson2/src/Intersection.cpp:21-39 | fails exactly on an empty queue; otherwise the granted entry is the front (oldest) vehicle with its promise, and the remaining queue is the rest in the same order, one shorter |
| Queueing.PushBackKeepsFront | Lesson2/src/Intersection.cpp:15-39 | pushing onto a non-empty queue does not change who is granted next, and the pushed entry ends up at the tail of what remains |
| Queueing.PushBackThenPermit | Lesson2/src/Intersection.cpp:15-39 | a vehicle pushed onto the empty queue is the one granted, with its own promise, and the queue is empty again |
| Queueing.ReplayConservesEntries | Lesson2/src/Intersection.cpp:13-39 | for any sequence of pushes and permits, the waiting entries plus the pushed ones equal the granted ones followed by the still-waiting ones, in order; the size changes by pushes minus grants |
| Queueing.ReplayFromEmpty | Lesson2/src/Intersection.cpp:13-39 | from an empty queue, after K pushes and J grants: J <= K, the grants are the first J pushed entries in push order, and the size is K - J |
| Crossing.NewIntersection | Lesson2/src/Intersection.cpp:43-46 | a new intersection is not blocked and has nothing waiting |
| Crossing.OtherStreets | Lesson2/src/Intersection.cpp:52-65 | a street is in the result exactly when it is connected and its id differs from the incoming street's; the result is no longer than the street list |
| Crossing.OtherStreetsAppend | Lesson2/src/Intersection.cpp:56-62 | filtering a concatenation is the concatenation of the filtered parts, so the result keeps the street list's order |
| Crossing.OtherStreetsKeepsAll | Lesson2/src/Intersection.cpp:56-62 | when no connected street has the incoming street's id, the whole list is returned |
| Crossing.QueryStreets | Lesson2/src/Intersection.cpp:52-65 | the loop over the street list returns the order-preserving filter: exactly the streets whose id differs from the incoming street's |
| Crossing.AddVehicleToQueue | Lesson2/src/Intersection.cpp:79-81 | the vehicle with its fresh promise becomes the last waiting entry; the blocked flag and the street list are unchanged |
| Crossing.SetIsBlocked | Lesson2/src/Intersection.cpp:115-119 | the flag takes the given value and nothing else changes |
| Crossing.VehicleHasLeft | Lesson2/src/Intersection.cpp:107-113 | the intersection is unblocked whoever the vehicle is; the queue and streets are unchanged |
| Crossing.VehicleHasLeftIdempotent | Lesson2/src/Intersection.cpp:107-119 | a departure on an unblocked intersection changes nothing, and a second departure has no further effect |
| Crossing.ProcessVehicleQueueStep | Lesson2/src/Intersection.cpp:139-145 | a grant happens exactly when a vehicle waits and the intersection is not blocked; the intersection is then blocked, the granted entry is the queue's front and the rest stays in order; otherwise the intersection is unchanged, and the permit is never reached with an empty queue |
| Crossing.ArbitrationGrantsFront | Lesson2/src/Intersection.cpp:139-145 | the step grants the vehicle and promise at the front of both vectors |
| Arbitration.InitSatisfiesInv | Lesson2/src/Intersection.cpp:43-46 | a fresh intersection satisfies the protocol invariant |
| Arbitration.Next | Lesson2/src/Intersection.cpp:79-145 | enqueue appends the vehicle with a fresh promise (numbered by the requests before it) to the queue and the request history; arbitrate grants exactly when a vehicle waits and the intersection is free, blocking it, granting the queue front and recording that vehicle as inside, and otherwise changes nothing; depart unblocks, keeps the queue and removes the vehicle from those inside |
| Arbitration.NextPreservesInv | Lesson2/src/Intersection.cpp:79-145 | enqueue, arbitrate and a departure of the granted vehicle each keep the invariant: at most one vehicle inside, blocked exactly when one is inside, requests = grants followed by the waiting entries, request n holds promise n, and the vehicle inside is the last one granted |
| Arbitration.RunPreservesInv | Lesson2/src/Intersection.cpp:128-146 | every legal run from a state satisfying the invariant ends in one |
| Arbitration.ReachableSatisfiesInv | Lesson2/src/Intersection.cpp:128-146 | every legal run from a fresh intersection ends in a state satisfying the invariant |
| Arbitration.MutualExclusion | Lesson2/src/Intersection.cpp:139-145 | in every legal run at most one vehicle is granted and not yet departed, and while there is one the intersection is blocked |
| Arbitration.GrantsFollowEnqueueOrder | Lesson2/src/Intersection.cpp:139-144 | the grants are the oldest requests in enqueue order, and the queue size is requests minus grants |
| Arbitration.PromisesFulfilledOnce | Lesson2/src/Intersection.cpp:79-81 | no promise is fulfilled twice: all grants carry different promises |
| Arbitration.UngrantedDepartureBreaksExclusion | Lesson2/src/Intersection.cpp:107-113 | if a vehicle that was never granted reports leaving, the run is not legal, and a second vehicle gets in while the first is still inside |
| Arbitration.ServeGrantsFront | Lesson2/src/Intersection.cpp:139-145 | one round of service (the vehicle inside departs, then the loop arbitrates) grants the front of a non-empty queue and leaves the rest waiting |
| Arbitration.WaitingEntryIsServed | Lesson2/src/Intersection.cpp:134-146 | the entry waiting at position k is granted within k + 1 rounds of service, right after all entries ahead of it |
| Arbitration.ThreeVehiclesInArrivalOrder | Lesson2/src/Intersection.cpp:139-144 | three vehicles enqueued in order 1, 2, 3 are granted in that order |
| Driving.SetCurrentStreet | Lesson2/src/Vehicle.h:18-20 | the current street becomes the given one; destination, position, speed and id are unchanged |
| Driving.SetCurrentStreetIdempotent | Lesson2/src/Vehicle.h:18-20 | setting the same street twice is the same as setting it once |
| Driving.SetCurrentDestination | Lesson2/src/Vehicle.cpp:25-31 | the destination becomes the given one and the position along the street is reset to 0; street, speed and id are unchanged |
| Driving.GetVehId | Lesson2/src/Vehicle.h:29 | a pure read returning the stored `_vehid` |
| Driving.DrivingKeepsId | Lesson2/src/Vehicle.h:29 | the id that `get_vehID` reads is the same after any number of iterations of `drive` |
| Driving.Approach | Lesson2/src/Vehicle.cpp:87-108 | entry is requested at the current destination; afterwards the flag is set and the speed is a tenth of what it was, with street, destination and position unchanged |
| Driving.ChooseNextStreet | Lesson2/src/Vehicle.cpp:113-126 | with options the next street is one of them; without options it is the current street |
| Driving.EveryOptionCanBeChosen | Lesson2/src/Vehicle.cpp:116-122 | every option can be chosen by some outcome of the random draw |
| Driving.NextIntersection | Lesson2/src/Vehicle.cpp:129-133 | the next intersection is an end of the next street |
| Driving.NextIntersectionRoundTrip | Lesson2/src/Vehicle.cpp:129-133 | on a street with two distinct ends, starting from one end gives the other, and going on from there gives the first again |
| Driving.Cross | Lesson2/src/Vehicle.cpp:111-145 | departure is reported to the old destination; the position is 0, the speed is ten times what it was, the flag is cleared, and the new destination is an end of the new street |
| Driving.DriveStep | Lesson2/src/Vehicle.cpp:87-145 | a request goes out exactly when completion >= 0.9 and the vehicle had not entered; a departure exactly when completion >= 1.0; both are addressed to the current destination; afterwards the vehicle counts as entered exactly when completion < 1.0 and it had entered or reached 0.9 |
| Driving.FarFromIntersectionNothingHappens | Lesson2/src/Vehicle.cpp:87-111 | below completion 0.9 an iteration changes nothing and signals nothing |
| Driving.ApproachSlowsDown | Lesson2/src/Vehicle.cpp:87-108 | between 0.9 and 1.0, a vehicle that had not entered issues one request, becomes entered, and slows to a tenth with nothing else changed |
| Driving.NoSecondRequest | Lesson2/src/Vehicle.cpp:87-107 | once entered, no iteration requests entry again, whatever the completion |
| Driving.CrossingMovesOn | Lesson2/src/Vehicle.cpp:111-145 | at completion >= 1.0 the last signal is the departure from the old destination; the flag is cleared and the position is 0; the next street is one of the other streets, so with a different id, or the same street at a dead end; the new destination is that street's end other than the old destination |
| Driving.ApproachBeforeCrossing | Lesson2/src/Vehicle.cpp:87-145 | when both checks fire in one iteration, the request is issued before the departure and the speed comes back to its value before the iteration |
| Driving.SpeedRestoredAfterCycle | Lesson2/src/Vehicle.cpp:106-144 | an approach iteration followed by a crossing iteration leaves the speed as before (in exact arithmetic) and the flag cleared |
| Driving.DeadEndTurnsBack | Lesson2/src/Vehicle.cpp:123-133 | at a dead end the vehicle stays on the same street and heads back to the intersection it came from |
| Driving.CrossingContinuesRoute | Lesson2/src/Vehicle.cpp:113-133 | when the destination's streets all touch it, the next street starts at the intersection just crossed and the new destination is its other end |
| Driving.Drive | Lesson2/src/Vehicle.cpp:52-150 | any number of iterations keeps the vehicle's id, and keeps its destination at an end of its current street |
| Driving.DriveAlternates | Lesson2/src/Vehicle.cpp:87-145 | over any run, requests and departures alternate: one request per traversal, and every departure is from the intersection last asked for entry |
| Driving.SpeedStaysAtTwoLevels | Lesson2/src/Vehicle.cpp:106-143 | over any run the speed is the cruising speed when not entered and a tenth of it when entered |

## Left out

- Threads, `std::async`, the promise and future mechanics, the 1 ms sleeps and the stop-watch timing. Each call is one atomic transition. The wait in `addVehicleToQueue` is not a transition of its own: a vehicle's iteration continues as if granted, and the grant itself is the arbitration event.
- Interleavings inside a call. The code takes no lock on the queue or the flag, so nothing is claimed about concurrent access.
- Position integration (`_posStreet += _speed * t / 1000`): the completion fraction is an input to each iteration. `_posStreet` changes only through `setCurrentDestination`.
- Pixel-position geometry and the distance term in `drive`: these only serve rendering.
- The random initial speed, the vehicle constructor and the static id counter, with its race. The vehicle's id and speed are inputs.
- The random choice of the next street: it is an arbitrary natural number `pick`, reduced into the range of the options. `Driving.EveryOptionCanBeChosen` shows that every option is reachable. Uniformity is not modelled.
- Floating point: speeds are exact reals. With doubles, dividing by 10 and multiplying back need not return the same speed exactly.
- Console output, `simulate`, `addStreet`, network construction, and the `Street` and `TrafficObject` classes beyond the id and two ends of a street. `Street.h` and `TrafficObject` are not part of this model. Of `Intersection.h`, only the members the two .cpp files use are modelled: `WaitingVehicles` with `_vehicles` and `_promises`, and `Intersection` with `_streets`, `_waitingVehicles` and `_isBlocked`.
- Arbitration.Next: a departure of a vehicle that holds no grant is allowed by the function. It is excluded from the proved runs by `Legal`. Its effect is shown in `Arbitration.UngrantedDepartureBreaksExclusion`.
- Unbounded liveness: only the bounded form is proved. Under rounds of service, the entry at position k is granted within k + 1 rounds. Nothing is proved about whether the real threads produce those rounds.
