/**
  The non-I/O part of `optimizeWaypoints` (src/App.tsx lines 36-100): what the
  app builds from the stops it submits and the directions service's reply.
  The HTTP round trip is not modelled; its outcome is an input, `None` standing
  for every way the call can fail (thrown request, non-200 status, no route).
*/
module Directions {
  import opened Wrappers
  import opened Tags
  import opened Geometry
  import opened Markers
  import opened Orders

  /** One step of an oracle leg: `html_instructions`, `distance.text`, `duration.text`. */
  datatype OracleStep = OracleStep(htmlInstructions: string, distanceText: string, durationText: string)

  /** One oracle leg: `distance.value` (metres), `duration.value` (seconds) and its steps. */
  datatype OracleLeg = OracleLeg(distanceValue: int, durationValue: int, steps: seq<OracleStep>)

  /**
    `routes[0]` of a successful reply: the overview polyline already decoded
    into (lat, lng) pairs, `waypoint_order` (absent when the field is missing)
    and the legs.
  */
  datatype OracleRoute = OracleRoute(decodedPolyline: seq<Point>, waypointOrder: Option<seq<nat>>, legs: seq<OracleLeg>)

  /** The parameters of the `/directions` request: origin, destination and the interior stops. */
  datatype DirectionsQuery = DirectionsQuery(origin: Point, destination: Point, waypoints: seq<Point>)

  datatype Step = Step(instruction: string, distance: string, duration: string)
  datatype Leg = Leg(start: string, end: string, steps: seq<Step>)

  /** The object `optimizeWaypoints` resolves to on success. */
  datatype RouteData = RouteData(
    geometry: GeoJson,
    instructions: seq<string>,
    distance: int,
    duration: int,
    legs: seq<Leg>,
    optimizedMarkers: seq<Marker>)

  const UnknownStart := "Unknown Start"
  const UnknownEnd := "Unknown End"

  function Position(m: Marker): Point { (m.lat, m.lng) }

  function Positions(ms: seq<Marker>): (r: seq<Point>)
    ensures |r| == |ms|
    ensures forall i :: 0 <= i < |ms| ==> r[i] == Position(ms[i])
  {
    if ms == [] then [] else [Position(ms[0])] + Positions(ms[1..])
  }

  /** `waypoints.slice(1, -1)`. */
  function Interior(w: seq<Marker>): (r: seq<Marker>)
    requires |w| >= 2
    ensures |r| == |w| - 2
    ensures forall i :: 0 <= i < |r| ==> r[i] == w[i + 1]
  {
    w[1..|w| - 1]
  }

  /** The request that is sent: none for fewer than two stops, else the ends pinned and the rest as waypoints. */
  function Query(w: seq<Marker>): (q: Option<DirectionsQuery>)
    ensures q.Some? <==> |w| >= 2
    ensures q.Some? ==> q.value.origin == Position(w[0]) && q.value.destination == Position(w[|w| - 1])
    ensures q.Some? ==> |q.value.waypoints| == |w| - 2
    ensures q.Some? ==> forall i :: 0 <= i < |w| - 2 ==> q.value.waypoints[i] == Position(w[i + 1])
  {
    if |w| < 2 then None
    else Some(DirectionsQuery(Position(w[0]), Position(w[|w| - 1]), Positions(Interior(w))))
  }

  /** `route.waypoint_order || []`. */
  function OrderOf(route: OracleRoute): seq<nat> {
    if route.waypointOrder.Some? then route.waypointOrder.value else []
  }

  /** The reply, if any, only names interior stops of a list of `n` submitted stops. */
  predicate Fits(oracle: Option<OracleRoute>, n: nat) {
    oracle.Some? && n >= 2 ==> InRange(OrderOf(oracle.value), n - 2)
  }

  /** The reply, if any, permutes all the interior stops of a list of `n` submitted stops. */
  predicate Permutes(oracle: Option<OracleRoute>, n: nat) {
    oracle.Some? && n >= 2 ==> IsIndexPermutation(OrderOf(oracle.value), n - 2)
  }

  /** A list of two or more stops is its first stop, its interior and its last stop. */
  lemma SplitEnds(w: seq<Marker>)
    requires |w| >= 2
    ensures w == [w[0]] + Interior(w) + [w[|w| - 1]]
  {
    assert w == w[..1] + w[1..|w| - 1] + w[|w| - 1..];
  }

  /** `[waypoints[0], ...optimizedMarkers, waypoints[waypoints.length - 1]]`. */
  function FinalMarkers(w: seq<Marker>, order: seq<nat>): (r: seq<Marker>)
    requires |w| >= 2 && InRange(order, |w| - 2)
    ensures |r| == |order| + 2
    ensures r[0] == w[0] && r[|r| - 1] == w[|w| - 1]
    ensures forall i :: 0 <= i < |order| ==> r[i + 1] == w[order[i] + 1]
  {
    [w[0]] + Permute(Interior(w), order) + [w[|w| - 1]]
  }

  /** `finalMarkers[i]?.address || fallback`: a missing stop or an empty address gives the fallback. */
  function Label(fm: seq<Marker>, i: nat, fallback: string): (r: string)
    ensures fallback != "" ==> r != ""
    ensures r != fallback ==> i < |fm| && r == fm[i].address
    ensures i < |fm| && fm[i].address != "" ==> r == fm[i].address
  {
    if i < |fm| && fm[i].address != "" then fm[i].address else fallback
  }

  /** The step texts of one leg, markup removed. */
  function StepInstructions(steps: seq<OracleStep>): (r: seq<string>)
    ensures |r| == |steps|
    ensures forall i :: 0 <= i < |steps| ==> r[i] == StripTags(steps[i].htmlInstructions)
  {
    if steps == [] then [] else [StripTags(steps[0].htmlInstructions)] + StepInstructions(steps[1..])
  }

  /** `route.legs.flatMap(...)`: every step text of every leg, in order. */
  function FlatInstructions(legs: seq<OracleLeg>): seq<string> {
    if legs == [] then [] else StepInstructions(legs[0].steps) + FlatInstructions(legs[1..])
  }

  /** `leg.steps.map(...)`: the displayed steps of one leg. */
  function ConvertSteps(steps: seq<OracleStep>): (r: seq<Step>)
    ensures |r| == |steps|
    ensures forall i :: 0 <= i < |steps| ==>
      r[i] == Step(StripTags(steps[i].htmlInstructions), steps[i].distanceText, steps[i].durationText)
  {
    if steps == [] then []
    else
      [Step(StripTags(steps[0].htmlInstructions), steps[0].distanceText, steps[0].durationText)]
      + ConvertSteps(steps[1..])
  }

  /** The displayed leg for oracle leg `leg` at position `i`. */
  function MakeLeg(leg: OracleLeg, fm: seq<Marker>, i: nat): (r: Leg)
    ensures r.start != "" && r.end != ""
    ensures r.start != UnknownStart ==> i < |fm| && r.start == fm[i].address
    ensures r.end != UnknownEnd ==> i + 1 < |fm| && r.end == fm[i + 1].address
  {
    Leg(Label(fm, i, UnknownStart), Label(fm, i + 1, UnknownEnd), ConvertSteps(leg.steps))
  }

  /** `route.legs.map((leg, index) => ...)`, for the legs from position `from` on. */
  function LabelLegs(legs: seq<OracleLeg>, fm: seq<Marker>, from: nat): (r: seq<Leg>)
    ensures |r| == |legs|
    ensures forall k :: 0 <= k < |legs| ==> r[k] == MakeLeg(legs[k], fm, from + k)
  {
    if legs == [] then [] else [MakeLeg(legs[0], fm, from)] + LabelLegs(legs[1..], fm, from + 1)
  }

  function DistanceValues(legs: seq<OracleLeg>): (r: seq<int>)
    ensures |r| == |legs| && forall i :: 0 <= i < |legs| ==> r[i] == legs[i].distanceValue
  {
    if legs == [] then [] else [legs[0].distanceValue] + DistanceValues(legs[1..])
  }

  function DurationValues(legs: seq<OracleLeg>): (r: seq<int>)
    ensures |r| == |legs| && forall i :: 0 <= i < |legs| ==> r[i] == legs[i].durationValue
  {
    if legs == [] then [] else [legs[0].durationValue] + DurationValues(legs[1..])
  }

  /** `xs.reduce((sum, x) => sum + x, acc)`: a left fold. */
  function Reduce(acc: int, xs: seq<int>): int
    decreases |xs|
  {
    if xs == [] then acc else Reduce(acc + xs[0], xs[1..])
  }

  /** The plain sum of `xs`. */
  function Sum(xs: seq<int>): int {
    if xs == [] then 0 else xs[0] + Sum(xs[1..])
  }

  /** The left fold the source writes is the sum of the values. */
  lemma {:induction false} ReduceIsSum(acc: int, xs: seq<int>)
    ensures Reduce(acc, xs) == acc + Sum(xs)
    decreases |xs|
  {
    if xs != [] {
      ReduceIsSum(acc + xs[0], xs[1..]);
    }
  }

  /** The result object built from a successful reply. */
  function Assemble(w: seq<Marker>, route: OracleRoute): RouteData
    requires |w| >= 2 && InRange(OrderOf(route), |w| - 2)
  {
    var fm := FinalMarkers(w, OrderOf(route));
    RouteData(
      ConvertToGeoJson(route.decodedPolyline),
      FlatInstructions(route.legs),
      Reduce(0, DistanceValues(route.legs)),
      Reduce(0, DurationValues(route.legs)),
      LabelLegs(route.legs, fm, 0),
      fm)
  }

  /**
    `optimizeWaypoints(w)` when the directions call yields `oracle`. Fewer
    than two stops give `None` whatever the oracle would say (no request is
    made); a failed call gives `None`; otherwise the ends stay pinned, the
    interior follows `waypoint_order`, and there is one leg per oracle leg.
  */
  function Optimize(w: seq<Marker>, oracle: Option<OracleRoute>): (r: Option<RouteData>)
    requires Fits(oracle, |w|)
    ensures r.Some? <==> |w| >= 2 && oracle.Some?
    ensures r.Some? ==>
      var fm := r.value.optimizedMarkers;
      var order := OrderOf(oracle.value);
      && |fm| == |order| + 2
      && fm[0] == w[0] && fm[|fm| - 1] == w[|w| - 1]
      && (forall i :: 0 <= i < |order| ==> fm[i + 1] == w[1..|w| - 1][order[i]])
    ensures r.Some? ==> |r.value.legs| == |oracle.value.legs|
    ensures r.Some? ==> SwapAxes(r.value.geometry.coordinates) == oracle.value.decodedPolyline
  {
    if |w| < 2 || oracle.None? then None
    else
      SwapAxesInvolution(oracle.value.decodedPolyline);
      Some(Assemble(w, oracle.value))
  }

  /** The stop list of a successful result is the pinned-and-permuted list. */
  lemma OptimizeMarkers(w: seq<Marker>, oracle: Option<OracleRoute>)
    requires |w| >= 2 && oracle.Some? && Fits(oracle, |w|)
    ensures Optimize(w, oracle).Some?
    ensures Optimize(w, oracle).value.optimizedMarkers == FinalMarkers(w, OrderOf(oracle.value))
  {
  }

  /**
    The result describes the request that was sent: no request means no
    route, the optimized ends sit at the request's origin and destination,
    and optimized stop i + 1 sits at the request waypoint `order[i]` names.
  */
  lemma QueryDescribesRoute(w: seq<Marker>, oracle: Option<OracleRoute>)
    requires Fits(oracle, |w|)
    ensures Query(w).None? ==> Optimize(w, oracle).None?
    ensures Optimize(w, oracle).Some? ==>
      var q := Query(w).value;
      var fm := Optimize(w, oracle).value.optimizedMarkers;
      var order := OrderOf(oracle.value);
      && Query(w).Some?
      && Position(fm[0]) == q.origin && Position(fm[|fm| - 1]) == q.destination
      && (forall i :: 0 <= i < |order| ==> order[i] < |q.waypoints| && Position(fm[i + 1]) == q.waypoints[order[i]])
  {
    if Optimize(w, oracle).Some? {
      var order := OrderOf(oracle.value);
      OptimizeMarkers(w, oracle);
      assert forall i :: 0 <= i < |order| ==> order[i] < |w| - 2;
    }
  }

  /** `distance` and `duration` are the sums of the legs' values. */
  lemma RouteTotals(w: seq<Marker>, oracle: Option<OracleRoute>)
    requires Fits(oracle, |w|) && Optimize(w, oracle).Some?
    ensures Optimize(w, oracle).value.distance == Sum(DistanceValues(oracle.value.legs))
    ensures Optimize(w, oracle).value.duration == Sum(DurationValues(oracle.value.legs))
  {
    ReduceIsSum(0, DistanceValues(oracle.value.legs));
    ReduceIsSum(0, DurationValues(oracle.value.legs));
  }

  /** Every stop of the result is one of the submitted stops: the oracle cannot add one. */
  lemma OptimizedFromSubmitted(w: seq<Marker>, oracle: Option<OracleRoute>)
    requires Fits(oracle, |w|) && Optimize(w, oracle).Some?
    ensures forall m :: m in Optimize(w, oracle).value.optimizedMarkers ==> m in w
  {
    var fm := Optimize(w, oracle).value.optimizedMarkers;
    var order := OrderOf(oracle.value);
    forall m | m in fm ensures m in w {
      var k :| 0 <= k < |fm| && fm[k] == m;
      if 0 < k < |fm| - 1 {
        assert fm[k] == w[order[k - 1] + 1];
      }
    }
  }

  /** When `waypoint_order` is missing, only the two ends remain. */
  lemma MissingOrderKeepsEnds(w: seq<Marker>, oracle: Option<OracleRoute>)
    requires |w| >= 2 && oracle.Some? && oracle.value.waypointOrder.None?
    ensures Optimize(w, oracle).Some?
    ensures Optimize(w, oracle).value.optimizedMarkers == [w[0], w[|w| - 1]]
  {
  }

  /** An order naming the interior stops as submitted gives back the submission order. */
  lemma IdentityOrderKeepsStops(w: seq<Marker>, oracle: Option<OracleRoute>)
    requires |w| >= 2 && oracle.Some? && OrderOf(oracle.value) == Range(|w| - 2)
    ensures Optimize(w, oracle).Some?
    ensures Optimize(w, oracle).value.optimizedMarkers == w
  {
    var inner := Interior(w);
    PermuteIdentity(inner);
    assert Fits(oracle, |w|);
    OptimizeMarkers(w, oracle);
    assert FinalMarkers(w, Range(|w| - 2)) == [w[0]] + Permute(inner, Range(|inner|)) + [w[|w| - 1]];
    SplitEnds(w);
  }

  /** A reply that permutes the interior indices yields exactly the submitted stops. */
  lemma OptimizePreservesStops(w: seq<Marker>, oracle: Option<OracleRoute>)
    requires |w| >= 2 && oracle.Some?
    requires IsIndexPermutation(OrderOf(oracle.value), |w| - 2)
    ensures Fits(oracle, |w|)
    ensures multiset(Optimize(w, oracle).value.optimizedMarkers) == multiset(w)
  {
    var inner := Interior(w);
    PermuteRearranges(inner, OrderOf(oracle.value));
    OptimizeMarkers(w, oracle);
    var p := Permute(inner, OrderOf(oracle.value));
    SplitEnds(w);
    calc {
      multiset([w[0]] + p + [w[|w| - 1]]);
      multiset{w[0]} + multiset(p) + multiset{w[|w| - 1]};
      multiset{w[0]} + multiset(inner) + multiset{w[|w| - 1]};
      multiset([w[0]] + inner + [w[|w| - 1]]);
    }
  }

  /** A permuting reply also satisfies the range condition. */
  lemma PermutationFits(oracle: Option<OracleRoute>, n: nat)
    requires Permutes(oracle, n)
    ensures Fits(oracle, n)
  {
    if oracle.Some? && n >= 2 {
      PermutationInRange(OrderOf(oracle.value), n - 2);
    }
  }

  /** Leg `i` runs from the label of stop `i` to the label of stop `i + 1` of the optimized order, with its steps stripped. */
  lemma LegLabels(w: seq<Marker>, oracle: Option<OracleRoute>, i: nat)
    requires Fits(oracle, |w|) && Optimize(w, oracle).Some?
    requires i < |oracle.value.legs|
    ensures var r := Optimize(w, oracle).value;
      && r.legs[i].start == (if i < |r.optimizedMarkers| && r.optimizedMarkers[i].address != "" then r.optimizedMarkers[i].address else "Unknown Start")
      && r.legs[i].end == (if i + 1 < |r.optimizedMarkers| && r.optimizedMarkers[i + 1].address != "" then r.optimizedMarkers[i + 1].address else "Unknown End")
      && |r.legs[i].steps| == |oracle.value.legs[i].steps|
      && r.legs[i].steps == ConvertSteps(oracle.value.legs[i].steps)
      && forall j :: 0 <= j < |r.legs[i].steps| ==> TagFree(r.legs[i].steps[j].instruction)
  {
  }

  /**
    When the oracle returns one leg per consecutive pair of stops and no stop
    has an empty address, the legs chain from the origin to the destination.
  */
  lemma LegsChain(w: seq<Marker>, oracle: Option<OracleRoute>)
    requires Fits(oracle, |w|) && Optimize(w, oracle).Some?
    requires |oracle.value.legs| == |Optimize(w, oracle).value.optimizedMarkers| - 1
    requires forall m :: m in w ==> m.address != ""
    ensures var r := Optimize(w, oracle).value;
      && r.legs[0].start == w[0].address
      && r.legs[|r.legs| - 1].end == w[|w| - 1].address
      && forall i :: 0 <= i < |r.legs| - 1 ==> r.legs[i].end == r.legs[i + 1].start
  {
    var r := Optimize(w, oracle).value;
    OptimizedFromSubmitted(w, oracle);
    forall i | 0 <= i < |r.optimizedMarkers| ensures r.optimizedMarkers[i].address != "" {
      assert r.optimizedMarkers[i] in w;
    }
  }

  /** All step texts of the displayed legs, in order. */
  function LegInstructions(legs: seq<Leg>): seq<string> {
    if legs == [] then [] else StepTexts(legs[0].steps) + LegInstructions(legs[1..])
  }

  function StepTexts(steps: seq<Step>): (r: seq<string>)
    ensures |r| == |steps| && forall i :: 0 <= i < |steps| ==> r[i] == steps[i].instruction
  {
    if steps == [] then [] else [steps[0].instruction] + StepTexts(steps[1..])
  }

  lemma {:induction false} FlatInstructionsMatchLegs(legs: seq<OracleLeg>, fm: seq<Marker>, from: nat)
    ensures FlatInstructions(legs) == LegInstructions(LabelLegs(legs, fm, from))
  {
    if legs != [] {
      var ll := LabelLegs(legs, fm, from);
      assert ll[1..] == LabelLegs(legs[1..], fm, from + 1);
      assert StepTexts(ll[0].steps) == StepInstructions(legs[0].steps);
      FlatInstructionsMatchLegs(legs[1..], fm, from + 1);
    }
  }

  lemma {:induction false} FlatInstructionsTagFree(legs: seq<OracleLeg>)
    ensures forall s :: s in FlatInstructions(legs) ==> TagFree(s)
  {
    if legs != [] {
      FlatInstructionsTagFree(legs[1..]);
    }
  }

  /**
    `instructions` lists exactly the step texts of `legs`, in order, and none
    of them has markup left in it.
  */
  lemma InstructionsMatchLegs(w: seq<Marker>, oracle: Option<OracleRoute>)
    requires Fits(oracle, |w|) && Optimize(w, oracle).Some?
    ensures Optimize(w, oracle).value.instructions == LegInstructions(Optimize(w, oracle).value.legs)
    ensures forall s :: s in Optimize(w, oracle).value.instructions ==> TagFree(s)
  {
    var r := Optimize(w, oracle).value;
    FlatInstructionsMatchLegs(oracle.value.legs, r.optimizedMarkers, 0);
    FlatInstructionsTagFree(oracle.value.legs);
  }

  /**
    Two stops, Toronto then Hamilton, and a reply with no interior order and
    one leg: the stop order is kept and the single leg runs from Toronto to
    Hamilton.
  */
  lemma TwoStopScenario(leg: OracleLeg, polyline: seq<Point>)
    ensures var toronto, hamilton := Marker("Toronto", 43.65, -79.38), Marker("Hamilton", 43.25, -79.87);
      var r := Optimize([toronto, hamilton], Some(OracleRoute(polyline, Some([]), [leg])));
      && r.Some?
      && r.value.optimizedMarkers == [toronto, hamilton]
      && |r.value.legs| == 1
      && r.value.legs[0].start == "Toronto" && r.value.legs[0].end == "Hamilton"
      && r.value.distance == leg.distanceValue
  {
    var toronto, hamilton := Marker("Toronto", 43.65, -79.38), Marker("Hamilton", 43.25, -79.87);
    var oracle := Some(OracleRoute(polyline, Some([]), [leg]));
    RouteTotals([toronto, hamilton], oracle);
    assert Sum(DistanceValues([leg])) == leg.distanceValue;
  }
}
