/**
  get_directions_from_google_api in route_parser.py: with an API key, ask the
  Directions service for a road-following route and stitch its legs and steps into
  one list of points; without a key, or when the service fails, fall back to the
  straight line through start, waypoints and end.
 */
module Directions {
  import opened Wrappers
  import opened Text
  import opened Coordinates
  import opened Polyline

  /** One step of a leg: its encoded polyline when the reply carries `polyline.points`. */
  datatype Step = Step(polyline: Option<string>, endLocation: Point)

  /** A leg of the route, between two consecutive stops. */
  datatype Leg = Leg(startLocation: Point, steps: seq<Step>, endLocation: Point)

  /** The query sent to the service (an empty `waypoints` is a query without that parameter). */
  datatype Request = Request(origin: Point, destination: Point, mode: string, waypoints: seq<Point>, key: string)

  /**
    What the service gives back: `Failed` when the request raises or the reply lacks
    a field the code reads, otherwise the status and the routes, each a list of legs.
   */
  datatype Reply = Failed | Reply(status: string, routes: seq<seq<Leg>>)

  /** `os.environ.get('GOOGLE_MAPS_API_KEY')` is set and not empty. */
  predicate KeyPresent(apiKey: Option<string>) {
    apiKey.Some? && apiKey.value != []
  }

  /** The service's name for the mode, "walking" for any mode it does not know. */
  function GoogleMode(mode: string): string {
    var key := Lower(mode);
    if key == "walking" then "walking"
    else if key == "driving" then "driving"
    else if key == "cycling" || key == "bicycling" then "bicycling"
    else if key == "transit" then "transit"
    else "walking"
  }

  /**
    The mode names the service knows pass through, whatever their case; "cycling"
    becomes "bicycling"; everything else falls back to walking.
   */
  lemma GoogleModeTable(mode: string)
    ensures GoogleMode(mode) in {"walking", "driving", "bicycling", "transit"}
    ensures Lower(mode) in {"walking", "driving", "transit", "bicycling"} ==> GoogleMode(mode) == Lower(mode)
    ensures Lower(mode) == "cycling" ==> GoogleMode(mode) == "bicycling"
    ensures Lower(mode) !in {"walking", "driving", "transit", "bicycling", "cycling"} ==> GoogleMode(mode) == "walking"
  {
  }

  /** The direct line: start, the waypoints in order, end. */
  function StraightLine(start: Point, end: Point, via: seq<Point>): (line: seq<Point>)
    ensures |line| == |via| + 2
    ensures line[0] == start && line[|line| - 1] == end && line[1..|line| - 1] == via
  {
    [start] + via + [end]
  }

  function Last(ps: seq<Point>): Point
    requires ps != []
  {
    ps[|ps| - 1]
  }

  /** One step: its decoded polyline (None when decoding raises), then its end location. */
  function AddStep(coords: seq<Point>, step: Step): (r: Option<seq<Point>>)
    ensures r.Some? ==> |coords| < |r.value| && r.value[..|coords|] == coords
    ensures r.Some? ==> Last(r.value) == step.endLocation
  {
    match step.polyline
    case None => Some(coords + [step.endLocation])
    case Some(text) =>
      match Decode(text)
      case None => None
      case Some(pts) => Some(coords + pts + [step.endLocation])
  }

  /** The steps of a leg, in order. */
  function AddSteps(coords: seq<Point>, steps: seq<Step>): (r: Option<seq<Point>>)
    ensures r.Some? ==> |coords| <= |r.value| && r.value[..|coords|] == coords
    ensures r.Some? && steps != [] ==> |coords| < |r.value| && Last(r.value) == steps[|steps| - 1].endLocation
    decreases |steps|
  {
    if steps == [] then Some(coords)
    else
      match AddStep(coords, steps[0])
      case None => None
      case Some(c) => AddSteps(c, steps[1..])
  }

  /** `p` appended unless the points already end there. */
  function AppendNew(coords: seq<Point>, p: Point): (r: seq<Point>)
    ensures r != [] && Last(r) == p && |coords| <= |r| && r[..|coords|] == coords
    ensures coords != [] && Last(coords) == p ==> r == coords
    ensures coords == [] || Last(coords) != p ==> r == coords + [p]
  {
    if coords == [] || Last(coords) != p then coords + [p] else coords
  }

  /** A leg: its start unless the points already end there, its steps, its end unless already there. */
  function AddLeg(coords: seq<Point>, leg: Leg): (r: Option<seq<Point>>)
    ensures r.Some? ==> |coords| <= |r.value| && r.value[..|coords|] == coords
    ensures r.Some? ==> r.value != [] && Last(r.value) == leg.endLocation
    ensures r.Some? && coords == [] ==> r.value[0] == leg.startLocation
  {
    var withStart := AppendNew(coords, leg.startLocation);
    match AddSteps(withStart, leg.steps)
    case None => None
    case Some(c) =>
      assert c[..|coords|] == withStart[..|withStart|][..|coords|];
      var r := AppendNew(c, leg.endLocation);
      assert r[..|coords|] == c[..|coords|];
      Some(r)
  }

  /** The legs of the route, in order; None when a step's polyline fails to decode. */
  function AddLegs(coords: seq<Point>, legs: seq<Leg>): (r: Option<seq<Point>>)
    ensures r.Some? ==> |coords| <= |r.value| && r.value[..|coords|] == coords
    ensures r.Some? && legs != [] ==> r.value != [] && Last(r.value) == legs[|legs| - 1].endLocation
    ensures r.Some? && coords == [] && legs != [] ==> r.value[0] == legs[0].startLocation
    decreases |legs|
  {
    if legs == [] then Some(coords)
    else
      match AddLeg(coords, legs[0])
      case None => None
      case Some(c) => AddLegs(c, legs[1..])
  }

  /** The points a step stands for: its decoded polyline, then its end; None when decoding raises. */
  function StepPoints(step: Step): Option<seq<Point>> {
    match step.polyline
    case None => Some([step.endLocation])
    case Some(text) =>
      match Decode(text)
      case None => None
      case Some(pts) => Some(pts + [step.endLocation])
  }

  /** The points of all the steps, one after the other. */
  function StepsPoints(steps: seq<Step>): Option<seq<Point>> {
    if steps == [] then Some([])
    else
      match StepPoints(steps[0])
      case None => None
      case Some(first) =>
        match StepsPoints(steps[1..])
        case None => None
        case Some(rest) => Some(first + rest)
  }

  /** The points a leg stands for: its start, its steps' points, its end. */
  function LegPoints(leg: Leg): Option<seq<Point>> {
    match StepsPoints(leg.steps)
    case None => None
    case Some(pts) => Some([leg.startLocation] + pts + [leg.endLocation])
  }

  /** The points of all the legs, one after the other. */
  function LegsPoints(legs: seq<Leg>): Option<seq<Point>> {
    if legs == [] then Some([])
    else
      match LegPoints(legs[0])
      case None => None
      case Some(first) =>
        match LegsPoints(legs[1..])
        case None => None
        case Some(rest) => Some(first + rest)
  }

  /** `ps` with each run of equal consecutive points kept once. */
  function Dedup(ps: seq<Point>): seq<Point> {
    if ps == [] then []
    else
      var d := Dedup(ps[..|ps| - 1]);
      if d == [] || Last(d) != Last(ps) then d + [Last(ps)] else d
  }

  predicate NoAdjacentDuplicates(ps: seq<Point>) {
    forall i | 0 < i < |ps| :: ps[i - 1] != ps[i]
  }

  /** The route the function returns for the reply `reply` to its request. */
  function FromReply(start: Point, end: Point, via: seq<Point>, reply: Reply): (route: seq<Point>)
    ensures route == StraightLine(start, end, via) || NoAdjacentDuplicates(route)
  {
    if reply.Failed? || reply.status != "OK" || reply.routes == [] then
      StraightLine(start, end, via)
    else
      match AddLegs([], reply.routes[0])
      case None => StraightLine(start, end, via)
      case Some(coords) =>
        DedupNoAdjacent(coords);
        Dedup(coords)
  }

  /** get_directions_from_google_api, with the environment's key and the service as parameters. */
  function Route(start: Point, end: Point, mode: string, via: seq<Point>,
                 apiKey: Option<string>, fetch: Request -> Reply): (route: seq<Point>)
    ensures route == StraightLine(start, end, via) || NoAdjacentDuplicates(route)
  {
    if !KeyPresent(apiKey) then StraightLine(start, end, via)
    else FromReply(start, end, via, fetch(Request(start, end, GoogleMode(mode), via, apiKey.value)))
  }

  /** The legs of the first route, walked as the source does; None when a polyline fails to decode. */
  method StitchLegs(legs: seq<Leg>) returns (r: Option<seq<Point>>)
    ensures r == AddLegs([], legs)
  {
    var coordinates: seq<Point> := [];
    for i := 0 to |legs|
      invariant AddLegs([], legs) == AddLegs(coordinates, legs[i..])
    {
      assert legs[i..][1..] == legs[i + 1..];
      var next := StitchLeg(coordinates, legs[i]);
      if next.None? {
        return None;
      }
      coordinates := next.value;
    }
    r := Some(coordinates);
  }

  /** One leg: its start, each step's decoded polyline and end location, its end. */
  method StitchLeg(points: seq<Point>, leg: Leg) returns (r: Option<seq<Point>>)
    ensures r == AddLeg(points, leg)
  {
    var coordinates := AppendNew(points, leg.startLocation);
    AddLegSteps(points, leg);
    var stepped := StitchSteps(coordinates, leg.steps);
    if stepped.None? {
      // decode_polyline raised: the whole request falls back.
      return None;
    }
    r := Some(AppendNew(stepped.value, leg.endLocation));
  }

  /** The steps of a leg, in order. */
  method StitchSteps(start: seq<Point>, steps: seq<Step>) returns (r: Option<seq<Point>>)
    ensures r == AddSteps(start, steps)
  {
    var coordinates := start;
    for j := 0 to |steps|
      invariant AddSteps(start, steps) == AddSteps(coordinates, steps[j..])
    {
      AddStepsFirst(coordinates, steps[j..]);
      assert steps[j..][1..] == steps[j + 1..];
      var next := StitchStep(coordinates, steps[j]);
      if next.None? {
        return None;
      }
      coordinates := next.value;
    }
    r := Some(coordinates);
  }

  /** One step: its polyline's points, if it has one, then its end location. */
  method StitchStep(coordinates: seq<Point>, step: Step) returns (r: Option<seq<Point>>)
    ensures r == AddStep(coordinates, step)
  {
    var extended := coordinates;
    if step.polyline.Some? {
      var decoded := DecodePolyline(step.polyline.value);
      if decoded.None? {
        return None;
      }
      if decoded.value != [] {
        extended := extended + decoded.value;
      }
    }
    r := Some(extended + [step.endLocation]);
  }

  lemma AddLegSteps(coords: seq<Point>, leg: Leg)
    ensures AddLeg(coords, leg)
         == match AddSteps(AppendNew(coords, leg.startLocation), leg.steps)
            case None => None
            case Some(c) => Some(AppendNew(c, leg.endLocation))
  {
  }

  lemma AddStepsFirst(coords: seq<Point>, steps: seq<Step>)
    requires steps != []
    ensures AddSteps(coords, steps)
         == match AddStep(coords, steps[0]) case None => None case Some(c) => AddSteps(c, steps[1..])
  {
  }

  /** The source's final loop: keep a point unless it equals the one kept last. */
  method Deduplicate(coordinates: seq<Point>) returns (deduplicated: seq<Point>)
    ensures deduplicated == Dedup(coordinates)
  {
    deduplicated := [];
    for k := 0 to |coordinates|
      invariant deduplicated == Dedup(coordinates[..k])
    {
      var point := coordinates[k];
      assert coordinates[..k + 1][..k] == coordinates[..k];
      if deduplicated == [] || deduplicated[|deduplicated| - 1] != point {
        deduplicated := deduplicated + [point];
      }
    }
    assert coordinates[..|coordinates|] == coordinates;
  }

  /** get_directions_from_google_api. */
  method GetDirections(start: Point, end: Point, mode: string, via: seq<Point>,
                       apiKey: Option<string>, fetch: Request -> Reply) returns (route: seq<Point>)
    ensures route == Route(start, end, mode, via, apiKey, fetch)
  {
    if !KeyPresent(apiKey) {
      return StraightLine(start, end, via);
    }
    var googleMode := GoogleMode(mode);
    var reply := fetch(Request(start, end, googleMode, via, apiKey.value));
    if reply.Failed? || reply.status != "OK" || reply.routes == [] {
      return StraightLine(start, end, via);
    }
    var coordinates := StitchLegs(reply.routes[0]);
    if coordinates.None? {
      return StraightLine(start, end, via);
    }
    route := Deduplicate(coordinates.value);
  }

  /** Deduplication leaves no two equal points side by side. */
  lemma {:induction false} DedupNoAdjacent(ps: seq<Point>)
    ensures NoAdjacentDuplicates(Dedup(ps))
  {
    if ps != [] {
      DedupNoAdjacent(ps[..|ps| - 1]);
    }
  }

  /** Points with no equal neighbours are kept as they are. */
  lemma {:induction false} DedupKeeps(ps: seq<Point>)
    requires NoAdjacentDuplicates(ps)
    ensures Dedup(ps) == ps
  {
    if ps != [] {
      var init := ps[..|ps| - 1];
      assert NoAdjacentDuplicates(init);
      DedupKeeps(init);
      if |ps| > 1 {
        assert Last(init) == ps[|ps| - 2];
      }
      assert init + [Last(ps)] == ps;
    }
  }

  /** Deduplication changes nothing exactly when no two neighbours are equal. */
  lemma DedupFixpoint(ps: seq<Point>)
    ensures Dedup(ps) == ps <==> NoAdjacentDuplicates(ps)
  {
    DedupNoAdjacent(ps);
    if NoAdjacentDuplicates(ps) {
      DedupKeeps(ps);
    }
  }

  lemma DedupIdempotent(ps: seq<Point>)
    ensures Dedup(Dedup(ps)) == Dedup(ps)
  {
    DedupNoAdjacent(ps);
    DedupKeeps(Dedup(ps));
  }

  /** Deduplication drops only repeats: the same points remain, the first and the last among them. */
  lemma {:induction false} DedupSamePoints(ps: seq<Point>)
    ensures forall x :: x in Dedup(ps) <==> x in ps
    ensures ps != [] ==> Dedup(ps) != [] && Dedup(ps)[0] == ps[0] && Last(Dedup(ps)) == Last(ps)
  {
    if ps != [] {
      var init := ps[..|ps| - 1];
      DedupSamePoints(init);
      assert ps == init + [Last(ps)];
      if init != [] {
        assert init[0] == ps[0];
      }
    }
  }

  /** Without a key the route is the straight line, whatever the service would say. */
  lemma NoKeyStraightLine(start: Point, end: Point, mode: string, via: seq<Point>,
                          apiKey: Option<string>, fetch: Request -> Reply)
    requires !KeyPresent(apiKey)
    ensures Route(start, end, mode, via, apiKey, fetch) == [start] + via + [end]
  {
  }

  /**
    A route the service answers follows its legs: it starts at the first leg's
    start, ends at the last leg's end, and has no repeated neighbours.
   */
  lemma FollowsLegs(start: Point, end: Point, via: seq<Point>, status: string, routes: seq<seq<Leg>>)
    requires status == "OK" && routes != [] && routes[0] != []
    requires AddLegs([], routes[0]).Some?
    ensures var route := FromReply(start, end, via, Reply(status, routes));
            route != [] && route[0] == routes[0][0].startLocation
            && Last(route) == routes[0][|routes[0]| - 1].endLocation
            && NoAdjacentDuplicates(route)
  {
    var coords := AddLegs([], routes[0]).value;
    DedupSamePoints(coords);
    DedupNoAdjacent(coords);
  }

  /** A polyline that fails to decode sends the whole route back to the straight line. */
  lemma UndecodableStep(start: Point, end: Point, via: seq<Point>, leg: Leg, text: string)
    requires Decode(text).None? && leg.steps != [] && leg.steps[0].polyline == Some(text)
    ensures FromReply(start, end, via, Reply("OK", [[leg]])) == StraightLine(start, end, via)
  {
  }

  /** Any status other than "OK", or an "OK" with no route, gives the straight line. */
  lemma FailedStatus(start: Point, end: Point, via: seq<Point>, reply: Reply)
    requires reply.Failed? || reply.status != "OK" || reply.routes == []
    ensures FromReply(start, end, via, reply) == [start] + via + [end]
  {
  }

  /** One step appends exactly its points. */
  lemma AddStepPoints(coords: seq<Point>, step: Step)
    ensures AddStep(coords, step).Some? <==> StepPoints(step).Some?
    ensures AddStep(coords, step).Some? ==> AddStep(coords, step).value == coords + StepPoints(step).value
  {
    if step.polyline.Some? && Decode(step.polyline.value).Some? {
      var pts := Decode(step.polyline.value).value;
      assert coords + pts + [step.endLocation] == coords + (pts + [step.endLocation]);
    }
  }

  /** Walking the steps appends exactly their points: every step's decoded polyline and end, in order. */
  lemma {:induction false} AddStepsPoints(coords: seq<Point>, steps: seq<Step>)
    ensures AddSteps(coords, steps).Some? <==> StepsPoints(steps).Some?
    ensures AddSteps(coords, steps).Some? ==> AddSteps(coords, steps).value == coords + StepsPoints(steps).value
    decreases |steps|
  {
    if steps != [] {
      AddStepPoints(coords, steps[0]);
      match StepPoints(steps[0])
      case None =>
      case Some(first) =>
        var c := coords + first;
        AddStepsPoints(c, steps[1..]);
        if StepsPoints(steps[1..]).Some? {
          Associative(coords, first, StepsPoints(steps[1..]).value);
        }
    }
  }

  /** Deduplication of a sequence with one more point depends only on the deduplicated front. */
  lemma DedupSnoc(ps: seq<Point>, p: Point)
    ensures Dedup(ps + [p]) == if Dedup(ps) == [] || Last(Dedup(ps)) != p then Dedup(ps) + [p] else Dedup(ps)
  {
    assert (ps + [p])[..|ps|] == ps;
  }

  /** Sequences that deduplicate alike still do after the same points are appended. */
  lemma {:induction false} DedupCongruent(x: seq<Point>, y: seq<Point>, b: seq<Point>)
    requires Dedup(x) == Dedup(y)
    ensures Dedup(x + b) == Dedup(y + b)
    decreases |b|
  {
    if b == [] {
      assert x + b == x && y + b == y;
    } else {
      var front := b[..|b| - 1];
      DedupCongruent(x, y, front);
      assert x + b == (x + front) + [Last(b)];
      assert y + b == (y + front) + [Last(b)];
      DedupSnoc(x + front, Last(b));
      DedupSnoc(y + front, Last(b));
    }
  }

  /** Skipping a point the sequence already ends with is invisible after deduplication. */
  lemma DedupAppendNew(coords: seq<Point>, p: Point)
    ensures Dedup(AppendNew(coords, p)) == Dedup(coords + [p])
  {
    DedupSnoc(coords, p);
    if coords != [] {
      DedupSamePoints(coords);
    }
  }

  /** Two deduplication equalities chained through an appended tail. */
  lemma DedupChain(a: seq<Point>, first: seq<Point>, c: seq<Point>, rest: seq<Point>, d: seq<Point>)
    requires Dedup(c) == Dedup(a + first) && Dedup(d) == Dedup(c + rest)
    ensures Dedup(d) == Dedup(a + (first + rest))
  {
    DedupCongruent(c, a + first, rest);
    Associative(a, first, rest);
  }

  lemma Associative<T>(a: seq<T>, b: seq<T>, c: seq<T>)
    ensures a + b + c == a + (b + c)
  {
  }

  /** The steps of a leg, stitched after its start, deduplicate like the start and the steps' points. */
  lemma LegStartSteps(coords: seq<Point>, leg: Leg)
    requires StepsPoints(leg.steps).Some?
    ensures AddSteps(AppendNew(coords, leg.startLocation), leg.steps).Some?
    ensures Dedup(AddSteps(AppendNew(coords, leg.startLocation), leg.steps).value)
         == Dedup(coords + ([leg.startLocation] + StepsPoints(leg.steps).value))
  {
    var withStart := AppendNew(coords, leg.startLocation);
    AddStepsPoints(withStart, leg.steps);
    DedupAppendNew(coords, leg.startLocation);
    DedupChain(coords, [leg.startLocation], withStart, StepsPoints(leg.steps).value,
               withStart + StepsPoints(leg.steps).value);
  }

  /** A leg stitched onto `coords` deduplicates like `coords` followed by all of the leg's points. */
  lemma AddLegPoints(coords: seq<Point>, leg: Leg)
    ensures AddLeg(coords, leg).Some? <==> LegPoints(leg).Some?
    ensures AddLeg(coords, leg).Some? ==> Dedup(AddLeg(coords, leg).value) == Dedup(coords + LegPoints(leg).value)
  {
    AddLegSteps(coords, leg);
    AddStepsPoints(AppendNew(coords, leg.startLocation), leg.steps);
    if StepsPoints(leg.steps).Some? {
      LegStartSteps(coords, leg);
      var front := [leg.startLocation] + StepsPoints(leg.steps).value;
      var stepped := AddSteps(AppendNew(coords, leg.startLocation), leg.steps).value;
      DedupAppendNew(stepped, leg.endLocation);
      DedupChain(coords, front, stepped, [leg.endLocation], AppendNew(stepped, leg.endLocation));
    }
  }

  /** The legs stitched onto `coords` deduplicate like `coords` followed by all of their points. */
  lemma {:induction false} AddLegsPoints(coords: seq<Point>, legs: seq<Leg>)
    ensures AddLegs(coords, legs).Some? <==> LegsPoints(legs).Some?
    ensures AddLegs(coords, legs).Some? ==> Dedup(AddLegs(coords, legs).value) == Dedup(coords + LegsPoints(legs).value)
    decreases |legs|
  {
    if legs == [] {
      assert coords + [] == coords;
    } else {
      AddLegPoints(coords, legs[0]);
      if LegPoints(legs[0]).Some? {
        var c := AddLeg(coords, legs[0]).value;
        AddLegsPoints(c, legs[1..]);
        if LegsPoints(legs[1..]).Some? {
          DedupChain(coords, LegPoints(legs[0]).value, c, LegsPoints(legs[1..]).value, AddLegs(c, legs[1..]).value);
        }
      }
    }
  }

  /**
    An "OK" reply with a route gives that route's points deduplicated: each leg's
    start, each step's decoded polyline and end location, each leg's end, in leg
    and step order; the straight line when a polyline fails to decode.
   */
  lemma RouteOfLegs(start: Point, end: Point, via: seq<Point>, routes: seq<seq<Leg>>)
    requires routes != []
    ensures LegsPoints(routes[0]).Some? ==> FromReply(start, end, via, Reply("OK", routes)) == Dedup(LegsPoints(routes[0]).value)
    ensures LegsPoints(routes[0]).None? ==> FromReply(start, end, via, Reply("OK", routes)) == StraightLine(start, end, via)
  {
    AddLegsPoints([], routes[0]);
    if LegsPoints(routes[0]).Some? {
      assert [] + LegsPoints(routes[0]).value == LegsPoints(routes[0]).value;
    }
  }

  /** Every point of step `j` is among the points of the steps. */
  lemma {:induction false} StepInSteps(steps: seq<Step>, j: nat)
    requires j < |steps| && StepsPoints(steps).Some?
    ensures StepPoints(steps[j]).Some?
    ensures forall x :: x in StepPoints(steps[j]).value ==> x in StepsPoints(steps).value
    decreases j
  {
    if j > 0 {
      StepInSteps(steps[1..], j - 1);
    }
  }

  /** Every point of step `j` of leg `i` is among the points of the legs. */
  lemma {:induction false} StepInLegs(legs: seq<Leg>, i: nat, j: nat)
    requires i < |legs| && j < |legs[i].steps| && LegsPoints(legs).Some?
    ensures StepPoints(legs[i].steps[j]).Some?
    ensures forall x :: x in StepPoints(legs[i].steps[j]).value ==> x in LegsPoints(legs).value
    decreases i
  {
    if i > 0 {
      StepInLegs(legs[1..], i - 1, j);
    } else {
      StepInSteps(legs[0].steps, j);
    }
  }

  /**
    Nothing the service returns is lost: every step's end location and every point
    of its decoded polyline lies on the route.
   */
  lemma StepsReachRoute(start: Point, end: Point, via: seq<Point>, routes: seq<seq<Leg>>, i: nat, j: nat)
    requires routes != [] && AddLegs([], routes[0]).Some?
    requires i < |routes[0]| && j < |routes[0][i].steps|
    ensures var route := FromReply(start, end, via, Reply("OK", routes));
            var step := routes[0][i].steps[j];
            step.endLocation in route
            && (step.polyline.Some? ==>
                  Decode(step.polyline.value).Some?
                  && forall x :: x in Decode(step.polyline.value).value ==> x in route)
  {
    AddLegsPoints([], routes[0]);
    RouteOfLegs(start, end, via, routes);
    StepInLegs(routes[0], i, j);
    DedupSamePoints(LegsPoints(routes[0]).value);
  }

  /**
    Deduplication only collapses runs: point `i` of `ps` is point `f[i]` of the
    result, `f` starts at 0, ends at the last point and never skips or goes back.
   */
  function DedupPositions(ps: seq<Point>): (f: seq<nat>)
    ensures |f| == |ps|
    ensures forall i | 0 <= i < |ps| :: f[i] < |Dedup(ps)| && Dedup(ps)[f[i]] == ps[i]
    ensures ps != [] ==> f[0] == 0 && f[|ps| - 1] == |Dedup(ps)| - 1
    ensures forall i | 0 < i < |ps| :: f[i] == f[i - 1] || f[i] == f[i - 1] + 1
  {
    if ps == [] then []
    else
      var front := ps[..|ps| - 1];
      var d := Dedup(front);
      var f := DedupPositions(front);
      if d == [] || Last(d) != Last(ps) then f + [|d|] else f + [|d| - 1]
  }
}
