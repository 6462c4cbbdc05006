/** A vehicle and the decision logic of one iteration of its `drive` loop.

    Position integration and pixel geometry are not modelled: each iteration
    is given the completion fraction it computed. The wait for entry is
    folded into the iteration, as the source's `drive` blocks on it: the
    step that requests entry continues as if the request had returned
    granted. What the vehicle tells intersections is returned as a list of
    signals, in the order the iteration issues them.
 */
module Driving {
  import opened Network
  import Crossing

  /** The record of `Vehicle.h`: `_vehid`, `_currStreet`, `_currDestination`,
      `_posStreet`, `_speed`. */
  datatype Vehicle = Vehicle(
    vehid: VehicleId,
    currStreet: Street,
    currDestination: IntersectionId,
    posStreet: real,
    speed: real)

  /** `setCurrentStreet`. */
  function SetCurrentStreet(v: Vehicle, street: Street): (r: Vehicle)
    ensures r.currStreet == street
    ensures r.currDestination == v.currDestination && r.posStreet == v.posStreet
    ensures r.speed == v.speed && r.vehid == v.vehid
  {
    v.(currStreet := street)
  }

  lemma SetCurrentStreetIdempotent(v: Vehicle, street: Street)
    ensures SetCurrentStreet(SetCurrentStreet(v, street), street) == SetCurrentStreet(v, street)
  {
  }

  /** `setCurrentDestination`: a new destination starts a new traversal at
      position 0. */
  function SetCurrentDestination(v: Vehicle, destination: IntersectionId): (r: Vehicle)
    ensures r.currDestination == destination && r.posStreet == 0.0
    ensures r.currStreet == v.currStreet && r.speed == v.speed && r.vehid == v.vehid
  {
    v.(currDestination := destination, posStreet := 0.0)
  }

  /** `get_vehID`. */
  function GetVehId(v: Vehicle): (id: VehicleId)
    ensures id == v.vehid
  {
    v.vehid
  }

  /** The vehicle with `drive`'s local flag `hasEnteredIntersection`. */
  datatype Driver = Driver(vehicle: Vehicle, hasEnteredIntersection: bool)

  /** What a vehicle tells an intersection: it asks to enter
      (`addVehicleToQueue`) or reports that it has left (`vehicleHasLeft`). */
  datatype Signal = RequestEntry(intersection: IntersectionId) | Departed(intersection: IntersectionId)

  datatype Step = Step(driver: Driver, signals: seq<Signal>)

  /** Completion at which the vehicle stops in front of the intersection. */
  const ApproachCompletion: real := 0.9
  /** Completion at which the intersection has been crossed. */
  const CrossedCompletion: real := 1.0
  /** Slow-down factor inside the intersection. */
  const SpeedFactor: real := 10.0

  /** The destination is one of the two ends of the current street. */
  predicate OnRoute(v: Vehicle) {
    v.currStreet.HasEndpoint(v.currDestination)
  }

  /** The approach branch: request entry at the destination, then slow down
      to a tenth and mark the intersection entered. */
  function Approach(d: Driver): (r: Step)
    ensures r.driver.hasEnteredIntersection
    ensures r.signals == [RequestEntry(d.vehicle.currDestination)]
    ensures r.driver.vehicle.speed * SpeedFactor == d.vehicle.speed
    ensures r.driver.vehicle.vehid == d.vehicle.vehid && r.driver.vehicle.currStreet == d.vehicle.currStreet
    ensures r.driver.vehicle.currDestination == d.vehicle.currDestination
    ensures r.driver.vehicle.posStreet == d.vehicle.posStreet
  {
    var v := d.vehicle;
    Step(Driver(v.(speed := v.speed / SpeedFactor), true), [RequestEntry(v.currDestination)])
  }

  /** The street taken after crossing. `pick` stands for the random draw:
      any natural number, reduced into the range of the options. Without
      options the street is a dead end and the vehicle turns back. */
  function ChooseNextStreet(options: seq<Street>, current: Street, pick: nat): (r: Street)
    ensures |options| > 0 ==> r in options
    ensures |options| == 0 ==> r == current
  {
    if |options| > 0 then options[pick % |options|] else current
  }

  /** The random draw can select every option. */
  lemma EveryOptionCanBeChosen(options: seq<Street>, current: Street, i: nat)
    requires i < |options|
    ensures exists pick: nat :: ChooseNextStreet(options, current, pick) == options[i]
  {
    assert ChooseNextStreet(options, current, i) == options[i];
  }

  /** The end of `street` at which the vehicle is not: the out-intersection
      if `here` is the in-intersection, otherwise the in-intersection. */
  function NextIntersection(street: Street, here: IntersectionId): (r: IntersectionId)
    ensures street.HasEndpoint(r)
  {
    if street.inIntersection == here then street.outIntersection else street.inIntersection
  }

  /** On a street with two distinct ends, starting from either end leads to
      the other one, and going on from there leads back. */
  lemma NextIntersectionRoundTrip(street: Street, here: IntersectionId)
    requires street.IsProper() && street.HasEndpoint(here)
    ensures NextIntersection(street, here) != here
    ensures NextIntersection(street, NextIntersection(street, here)) == here
  {
  }

  /** The crossing branch: choose the next street among the destination's
      other streets, report departure to the old destination, move onto the
      new street towards its far end, restore the speed and clear the flag. */
  function Cross(d: Driver, destStreets: seq<Street>, pick: nat): (r: Step)
    ensures !r.driver.hasEnteredIntersection
    ensures r.signals == [Departed(d.vehicle.currDestination)]
    ensures r.driver.vehicle.speed == d.vehicle.speed * SpeedFactor
    ensures r.driver.vehicle.posStreet == 0.0
    ensures r.driver.vehicle.vehid == d.vehicle.vehid
    ensures OnRoute(r.driver.vehicle)
  {
    var v := d.vehicle;
    var options := Crossing.OtherStreets(destStreets, v.currStreet);
    var nextStreet := ChooseNextStreet(options, v.currStreet, pick);
    var nextIntersection := NextIntersection(nextStreet, v.currDestination);
    var moved := SetCurrentStreet(SetCurrentDestination(v, nextIntersection), nextStreet);
    Step(Driver(moved.(speed := moved.speed * SpeedFactor), false), [Departed(v.currDestination)])
  }

  /** One iteration of `drive` given its completion fraction, the streets
      connected at the current destination and the random draw. The
      approach check runs first; the crossing check sees its effect. */
  function DriveStep(d: Driver, completion: real, destStreets: seq<Street>, pick: nat): (r: Step)
    ensures RequestEntry(d.vehicle.currDestination) in r.signals
        <==> completion >= ApproachCompletion && !d.hasEnteredIntersection
    ensures Departed(d.vehicle.currDestination) in r.signals <==> completion >= CrossedCompletion
    ensures forall sig :: sig in r.signals ==> sig.intersection == d.vehicle.currDestination
    ensures r.driver.hasEnteredIntersection
        <==> completion < CrossedCompletion && (d.hasEnteredIntersection || completion >= ApproachCompletion)
    ensures r.driver.vehicle.vehid == d.vehicle.vehid
    ensures OnRoute(d.vehicle) ==> OnRoute(r.driver.vehicle)
  {
    var approached :=
      if completion >= ApproachCompletion && !d.hasEnteredIntersection then Approach(d) else Step(d, []);
    var crossed :=
      if completion >= CrossedCompletion && approached.driver.hasEnteredIntersection
      then Cross(approached.driver, destStreets, pick)
      else Step(approached.driver, []);
    Step(crossed.driver, approached.signals + crossed.signals)
  }

  /** Short of the approach threshold nothing happens. */
  lemma FarFromIntersectionNothingHappens(d: Driver, completion: real, destStreets: seq<Street>, pick: nat)
    requires completion < ApproachCompletion
    ensures DriveStep(d, completion, destStreets, pick) == Step(d, [])
  {
  }

  /** The approach branch alone: one request to the destination, a tenth of
      the speed, the flag set, and the street, destination and position
      untouched. */
  lemma ApproachSlowsDown(d: Driver, completion: real, destStreets: seq<Street>, pick: nat)
    requires ApproachCompletion <= completion < CrossedCompletion && !d.hasEnteredIntersection
    ensures
      var r := DriveStep(d, completion, destStreets, pick);
      && r.signals == [RequestEntry(d.vehicle.currDestination)]
      && r.driver.hasEnteredIntersection
      && r.driver.vehicle == d.vehicle.(speed := d.vehicle.speed / SpeedFactor)
  {
  }

  /** Entry is requested at most once per traversal: once the flag is set,
      no later iteration requests again, whatever its completion. */
  lemma NoSecondRequest(d: Driver, completion: real, destStreets: seq<Street>, pick: nat)
    requires d.hasEnteredIntersection
    ensures forall sig :: sig in DriveStep(d, completion, destStreets, pick).signals ==> sig.Departed?
  {
  }

  /** The crossing branch: departure reported to the old destination, the
      next street chosen from the destination's other streets (or the same
      street at a dead end), the new destination the next street's far end,
      position 0 and the flag cleared. */
  lemma CrossingMovesOn(d: Driver, completion: real, destStreets: seq<Street>, pick: nat)
    requires completion >= CrossedCompletion
    ensures
      var r := DriveStep(d, completion, destStreets, pick);
      var options := Crossing.OtherStreets(destStreets, d.vehicle.currStreet);
      var v' := r.driver.vehicle;
      && r.signals[|r.signals| - 1] == Departed(d.vehicle.currDestination)
      && !r.driver.hasEnteredIntersection
      && v'.posStreet == 0.0
      && (|options| > 0 ==> v'.currStreet in options && v'.currStreet.id != d.vehicle.currStreet.id)
      && (|options| == 0 ==> v'.currStreet == d.vehicle.currStreet)
      && v'.currDestination == NextIntersection(v'.currStreet, d.vehicle.currDestination)
  {
  }

  /** Both branches in one iteration (a completion of 1.0 or more before the
      vehicle entered): request first, then departure, and the speed comes
      back to what it was. */
  lemma ApproachBeforeCrossing(d: Driver, completion: real, destStreets: seq<Street>, pick: nat)
    requires completion >= CrossedCompletion && !d.hasEnteredIntersection
    ensures
      var r := DriveStep(d, completion, destStreets, pick);
      && r.signals == [RequestEntry(d.vehicle.currDestination), Departed(d.vehicle.currDestination)]
      && r.driver.vehicle.speed == d.vehicle.speed
  {
  }

  /** A full cycle over two iterations, approach then crossing, restores the
      speed (in exact arithmetic). */
  lemma SpeedRestoredAfterCycle(d: Driver, c1: real, c2: real, s1: seq<Street>, s2: seq<Street>, p1: nat, p2: nat)
    requires !d.hasEnteredIntersection
    requires ApproachCompletion <= c1 < CrossedCompletion && c2 >= CrossedCompletion
    ensures
      var first := DriveStep(d, c1, s1, p1);
      var second := DriveStep(first.driver, c2, s2, p2);
      second.driver.vehicle.speed == d.vehicle.speed && !second.driver.hasEnteredIntersection
  {
  }

  /** At a dead end (no other street at the destination) the vehicle takes
      the same street back: on a street with two distinct ends its new
      destination is the intersection it came from. */
  lemma DeadEndTurnsBack(d: Driver, completion: real, destStreets: seq<Street>, pick: nat)
    requires completion >= CrossedCompletion
    requires Crossing.OtherStreets(destStreets, d.vehicle.currStreet) == []
    requires d.vehicle.currStreet.IsProper() && OnRoute(d.vehicle)
    ensures
      var v' := DriveStep(d, completion, destStreets, pick).driver.vehicle;
      && v'.currStreet == d.vehicle.currStreet
      && v'.currDestination != d.vehicle.currDestination
      && NextIntersection(v'.currStreet, v'.currDestination) == d.vehicle.currDestination
  {
  }

  /** The streets listed at an intersection all touch it and have two
      distinct ends. */
  predicate StreetsMeetAt(streets: seq<Street>, ix: IntersectionId) {
    forall i :: 0 <= i < |streets| ==> streets[i].HasEndpoint(ix) && streets[i].IsProper()
  }

  /** Crossing continues the route: the next street starts at the
      intersection just crossed, and the vehicle heads to its other end. */
  lemma CrossingContinuesRoute(d: Driver, completion: real, destStreets: seq<Street>, pick: nat)
    requires completion >= CrossedCompletion
    requires StreetsMeetAt(destStreets, d.vehicle.currDestination)
    requires d.vehicle.currStreet.IsProper() && OnRoute(d.vehicle)
    ensures
      var v' := DriveStep(d, completion, destStreets, pick).driver.vehicle;
      && v'.currStreet.HasEndpoint(d.vehicle.currDestination)
      && v'.currDestination != d.vehicle.currDestination
      && NextIntersection(v'.currStreet, v'.currDestination) == d.vehicle.currDestination
  {
  }

  /** The inputs of one iteration of `drive`. */
  datatype Tick = Tick(completion: real, destStreets: seq<Street>, pick: nat)

  /** Iterations of `drive`, one per tick, with all signals in order. */
  function Drive(d: Driver, ticks: seq<Tick>): (r: Step)
    ensures r.driver.vehicle.vehid == d.vehicle.vehid
    ensures OnRoute(d.vehicle) ==> OnRoute(r.driver.vehicle)
    decreases |ticks|
  {
    if |ticks| == 0 then Step(d, [])
    else
      var first := DriveStep(d, ticks[0].completion, ticks[0].destStreets, ticks[0].pick);
      var rest := Drive(first.driver, ticks[1..]);
      Step(rest.driver, first.signals + rest.signals)
  }

  /** The identity read by `get_vehID` never changes while driving. */
  lemma DrivingKeepsId(d: Driver, ticks: seq<Tick>)
    ensures GetVehId(Drive(d, ticks).driver.vehicle) == GetVehId(d.vehicle)
  {
  }

  /** The shape of a vehicle's signal history: requests and departures
      alternate, starting with a request when not entered (with a departure
      from `at` when entered), and every departure is from the intersection
      of the request before it. */
  predicate Alternating(trace: seq<Signal>, entered: bool, at: IntersectionId)
    decreases |trace|
  {
    |trace| == 0 ||
    if entered then trace[0] == Departed(at) && Alternating(trace[1..], false, at)
    else trace[0].RequestEntry? && Alternating(trace[1..], true, trace[0].intersection)
  }

  lemma StepKeepsAlternation(d: Driver, t: Tick, later: seq<Signal>)
    requires
      var r := DriveStep(d, t.completion, t.destStreets, t.pick);
      Alternating(later, r.driver.hasEnteredIntersection, r.driver.vehicle.currDestination)
    ensures
      var r := DriveStep(d, t.completion, t.destStreets, t.pick);
      Alternating(r.signals + later, d.hasEnteredIntersection, d.vehicle.currDestination)
  {
    var r := DriveStep(d, t.completion, t.destStreets, t.pick);
    var at := d.vehicle.currDestination;
    if t.completion < ApproachCompletion {
      assert r.signals + later == later;
    } else if t.completion < CrossedCompletion {
      if d.hasEnteredIntersection {
        assert r.signals + later == later;
      } else {
        assert (r.signals + later)[1..] == later;
      }
    } else if d.hasEnteredIntersection {
      assert r.signals == [Departed(at)];
      assert (r.signals + later)[1..] == later;
    } else {
      ApproachBeforeCrossing(d, t.completion, t.destStreets, t.pick);
      var tail := (r.signals + later)[1..];
      assert tail[1..] == later;
      assert Alternating(tail, true, at);
    }
  }

  /** Over any run, a vehicle requests entry once per traversal, and reports
      departure only from the intersection it last asked to enter. */
  lemma {:induction false} DriveAlternates(d: Driver, ticks: seq<Tick>)
    ensures Alternating(Drive(d, ticks).signals, d.hasEnteredIntersection, d.vehicle.currDestination)
    decreases |ticks|
  {
    if |ticks| > 0 {
      var first := DriveStep(d, ticks[0].completion, ticks[0].destStreets, ticks[0].pick);
      DriveAlternates(first.driver, ticks[1..]);
      StepKeepsAlternation(d, ticks[0], Drive(first.driver, ticks[1..]).signals);
    }
  }

  /** The speed never drifts: it is the cruising speed outside an
      intersection and a tenth of it inside. */
  lemma {:induction false} SpeedStaysAtTwoLevels(d: Driver, ticks: seq<Tick>, cruise: real)
    requires d.vehicle.speed == if d.hasEnteredIntersection then cruise / SpeedFactor else cruise
    ensures
      var e := Drive(d, ticks).driver;
      e.vehicle.speed == if e.hasEnteredIntersection then cruise / SpeedFactor else cruise
    decreases |ticks|
  {
    if |ticks| > 0 {
      var t := ticks[0];
      var first := DriveStep(d, t.completion, t.destStreets, t.pick);
      if t.completion >= CrossedCompletion && !d.hasEnteredIntersection {
        ApproachBeforeCrossing(d, t.completion, t.destStreets, t.pick);
      }
      SpeedStaysAtTwoLevels(first.driver, ticks[1..], cruise);
    }
  }
}
