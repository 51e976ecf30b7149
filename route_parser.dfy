/**
  extract_coordinates_from_google_maps_url in route_parser.py: the waypoints of a
  Google Maps URL, tried in a fixed order. The `maps/dir/` path gives explicit
  coordinates and place names; with two or more of them and an API key the
  Directions service supplies the road-following route. With fewer, the `!2d..!3d..`
  data markers win, then the `@lat,lng` map centre, then the lone waypoint.

  Everything outside the process is a parameter: following a short link, URL
  unquoting, the geocoder, the API key from the environment and the Directions
  service.
 */
module RouteParser {
  import opened Wrappers
  import opened Text
  import opened Coordinates
  import opened TravelMode
  import opened Directions

  /** The services and settings the extraction consults. */
  datatype Environment = Environment(
    expand: string -> Option<string>,  // the URL a short link redirects to; None when the request raises
    unquote: string -> string,         // urllib.parse.unquote
    geocode: string -> Option<Point>,  // geocode_address: None when the geocoder finds nothing or fails
    apiKey: Option<string>,            // GOOGLE_MAPS_API_KEY
    fetch: Request -> Reply)           // the Directions service

  /** What the extraction ends in: points, None, or the ValueError a malformed data marker raises. */
  datatype Extracted = Found(points: seq<Point>) | NotFound | ConversionError

  predicate IsShortLink(url: string) {
    Contains(url, "goo.gl/maps") || Contains(url, "maps.app.goo.gl")
  }

  /** A short link is replaced by where it redirects; a failed request leaves it as it is. */
  function Expanded(url: string, expand: string -> Option<string>): string {
    if IsShortLink(url) && expand(url).Some? then expand(url).value else url
  }

  /** `maps/dir/` followed by a character other than `@` starts at `p`. */
  predicate DirAt(url: string, p: nat) {
    OccursAt(url, "maps/dir/", p) && p + 9 < |url| && url[p + 9] != '@'
  }

  /** Where `re.search(r'maps/dir/([^@]+)', url)` matches, looking from `p` on. */
  function FirstDirFrom(url: string, p: nat): (q: Option<nat>)
    requires p <= |url|
    ensures q.Some? ==> p <= q.value && DirAt(url, q.value)
    ensures forall q' | p <= q' < (if q.Some? then q.value else |url| + 1) :: !DirAt(url, q')
    decreases |url| - p
  {
    if p == |url| then None
    else if DirAt(url, p) then Some(p)
    else FirstDirFrom(url, p + 1)
  }

  /** The text after `maps/dir/` up to the first `@` (or the end). */
  function DirPath(url: string): (path: Option<string>)
    ensures path.Some? <==> FirstDirFrom(url, 0).Some?
    ensures path.Some? ==> path.value != [] && forall i | 0 <= i < |path.value| :: path.value[i] != '@'
    ensures path.Some? ==>
              var start := FirstDirFrom(url, 0).value + 9;
              var end := start + |path.value|;
              end <= |url| && path.value == url[start..end] && (end == |url| || url[end] == '@')
  {
    match FirstDirFrom(url, 0)
    case None => None
    case Some(p) =>
      match IndexOfChar(url, '@', p + 9)
      case None => Some(url[p + 9..])
      case Some(e) => Some(url[p + 9..e])
  }

  /**
    One path element: an explicit `lat,lng`, or else a place name that is not blank
    once unquoted and that the geocoder finds. Empty elements are skipped.
   */
  function SegmentWaypoint(element: string, env: Environment): (p: Option<Point>)
    ensures element == [] ==> p.None?
    ensures CoordSegment(element).Some? ==> p == CoordSegment(element)
  {
    if element == [] then None
    else
      match CoordSegment(element)
      case Some(p) => Some(p)
      case None =>
        var name := env.unquote(element);
        if IsBlank(name) then None else env.geocode(name)
  }

  /** The values `f` gives for the elements, in order; an element it gives None for drops out. */
  function Gather<T>(elements: seq<string>, f: string -> Option<T>): (vs: seq<T>)
    ensures |vs| <= |elements|
  {
    if elements == [] then []
    else
      var init := Gather(elements[..|elements| - 1], f);
      match f(elements[|elements| - 1])
      case None => init
      case Some(v) => init + [v]
  }

  function Segmenter(env: Environment): string -> Option<Point> {
    e => SegmentWaypoint(e, env)
  }

  /** The waypoints of the path elements, in order. */
  function DirWaypoints(elements: seq<string>, env: Environment): seq<Point> {
    Gather(elements, Segmenter(env))
  }

  function Waypoints(url: string, env: Environment): seq<Point> {
    match DirPath(url)
    case None => []
    case Some(path) => DirWaypoints(Split(path, '/'), env)
  }

  /** The end of a non-empty run of `[-\d.]` starting at `i`, if there is one. */
  function NumRunEnd(url: string, i: nat): (e: Option<nat>)
    requires i <= |url|
    ensures e.Some? ==> i < e.value <= |url| && forall m | i <= m < e.value :: IsNumChar(url[m])
    ensures e.Some? ==> e.value == |url| || !IsNumChar(url[e.value])
    ensures e.None? ==> i == |url| || !IsNumChar(url[i])
  {
    var e := SpanWhile(url, i, IsNumChar);
    if e == i then None else Some(e)
  }

  /**
    The match of `!2d([-\d.]+)!3d([-\d.]+)` at `p`: the longitude text, the latitude
    text and the end of the match. Each run is taken whole, so the `!3d` must follow
    the first run directly.
   */
  function DataMarkerAt(url: string, p: nat): (m: Option<(string, string, nat)>)
    requires p <= |url|
    ensures m.Some? ==> p < m.value.2 <= |url|
    ensures m.Some? ==> url[p..m.value.2] == "!2d" + m.value.0 + "!3d" + m.value.1
  {
    if !OccursAt(url, "!2d", p) then None
    else
      match NumRunEnd(url, p + 3)
      case None => None
      case Some(r1) =>
        if !OccursAt(url, "!3d", r1) then None
        else
          match NumRunEnd(url, r1 + 3)
          case None => None
          case Some(r2) =>
            SliceFour(url, p, p + 3, r1, r1 + 3, r2);
            Some((url[p + 3..r1], url[r1 + 3..r2], r2))
  }

  /**
    `!2d`, a non-empty run of `[-\d.]` up to `j`, `!3d` at `j`, a non-empty run
    up to `k`: the pattern can match `url[p..k]` with its first group ending at `j`.
   */
  predicate MarkerMatch(url: string, p: nat, j: nat, k: nat) {
    p + 3 < j && j + 3 < k <= |url| && OccursAt(url, "!2d", p) && OccursAt(url, "!3d", j)
    && (forall m | p + 3 <= m < j :: IsNumChar(url[m]))
    && (forall m | j + 3 <= m < k :: IsNumChar(url[m]))
  }

  /**
    Wherever the pattern can match, the marker is found there: its first run is the
    only one the pattern allows (a `!` ends it), its second the longest.
   */
  lemma DataMarkerComplete(url: string, p: nat, j: nat, k: nat)
    requires MarkerMatch(url, p, j, k)
    ensures DataMarkerAt(url, p).Some?
    ensures DataMarkerAt(url, p).value.0 == url[p + 3..j] && k <= DataMarkerAt(url, p).value.2
  {
    assert url[j] == "!3d"[0];
    var r1 := SpanWhile(url, p + 3, IsNumChar);
    assert r1 == j;
    var r2 := SpanWhile(url, j + 3, IsNumChar);
    assert r2 >= k;
  }

  /**
    A marker found is a match of the pattern whose runs are both taken whole: the
    first ends at its `!3d`, the second at the end of the text or a character
    outside `[-\d.]`.
   */
  lemma DataMarkerSound(url: string, p: nat)
    requires p <= |url| && DataMarkerAt(url, p).Some?
    ensures var m := DataMarkerAt(url, p).value;
            MarkerMatch(url, p, p + 3 + |m.0|, m.2) && (m.2 == |url| || !IsNumChar(url[m.2]))
  {
  }

  /** A slice cut at three points is its four pieces. */
  lemma SliceFour<T>(s: seq<T>, a: nat, b: nat, c: nat, d: nat, e: nat)
    requires a <= b <= c <= d <= e <= |s|
    ensures s[a..e] == s[a..b] + s[b..c] + s[c..d] + s[d..e]
  {
    assert s[a..e] == s[a..b] + s[b..e];
    assert s[b..e] == s[b..c] + s[c..e];
    assert s[c..e] == s[c..d] + s[d..e];
  }

  /** `re.findall`: the markers from `p` on, left to right, without overlap. */
  function DataMarkersFrom(url: string, p: nat): (ms: seq<(string, string)>)
    requires p <= |url|
    ensures forall k | 0 <= k < |ms| :: Contains(url, "!2d" + ms[k].0 + "!3d" + ms[k].1)
    decreases |url| - p
  {
    if p == |url| then []
    else
      match DataMarkerAt(url, p)
      case None => DataMarkersFrom(url, p + 1)
      case Some((lng, lat, e)) =>
        assert OccursAt(url, "!2d" + lng + "!3d" + lat, p);
        [(lng, lat)] + DataMarkersFrom(url, e)
  }

  function DataMarkers(url: string): seq<(string, string)> {
    DataMarkersFrom(url, 0)
  }

  /**
    The markers as points: latitude from the `!3d` text, longitude from the `!2d`
    text. None when `float()` rejects one of them.
   */
  function ConvertMarkers(ms: seq<(string, string)>): (r: Option<seq<Point>>)
    ensures r.Some? <==> forall k | 0 <= k < |ms| :: ParseFloat(ms[k].1).Some? && ParseFloat(ms[k].0).Some?
    ensures r.Some? ==> |r.value| == |ms| && forall k | 0 <= k < |ms| ::
              r.value[k] == Point(ParseFloat(ms[k].1).value, ParseFloat(ms[k].0).value)
  {
    if ms == [] then Some([])
    else
      var init := ConvertMarkers(ms[..|ms| - 1]);
      var (lng, lat) := ms[|ms| - 1];
      match (ParseFloat(lat), ParseFloat(lng), init)
      case (Some(a), Some(o), Some(pts)) =>
        assert forall k | 0 <= k < |ms| - 1 :: ms[..|ms| - 1][k] == ms[k];
        Some(pts + [Point(a, o)])
      case _ =>
        assert forall k | 0 <= k < |ms| - 1 :: ms[..|ms| - 1][k] == ms[k];
        None
  }

  /**
    `@` followed by `-?\d+\.\d+,-?\d+\.\d+` at `p`: the ends of the two numbers,
    each digit run taken whole as the greedy pattern takes it.
   */
  function CenterSpan(url: string, p: nat): (r: Option<(nat, nat)>)
    requires p <= |url|
    ensures r.Some? ==> p + 1 < r.value.0 < r.value.1 <= |url| && url[p] == '@' && url[r.value.0] == ','
    ensures r.Some? ==> StrictDecimalEnd(url, p + 1) == Some(r.value.0) && StrictDecimalEnd(url, r.value.0 + 1) == Some(r.value.1)
  {
    if p == |url| || url[p] != '@' then None
    else
      match StrictDecimalEnd(url, p + 1)
      case None => None
      case Some(e1) =>
        if e1 == |url| || url[e1] != ',' then None
        else
          match StrictDecimalEnd(url, e1 + 1)
          case None => None
          case Some(e2) => Some((e1, e2))
  }

  /** The point a map centre at `p` names: latitude, then longitude. */
  function CenterAt(url: string, p: nat): (c: Option<Point>)
    requires p <= |url|
    ensures c.Some? <==> CenterSpan(url, p).Some?
  {
    match CenterSpan(url, p)
    case None => None
    case Some((e1, e2)) =>
      CenterParses(url, p, e1, e2);
      Some(Point(ParseFloat(url[p + 1..e1]).value, ParseFloat(url[e1 + 1..e2]).value))
  }

  /** Both numbers of a map centre have the form `-?\d+\.\d+`, so `float()` accepts them. */
  lemma CenterParses(url: string, p: nat, e1: nat, e2: nat)
    requires p <= |url| && CenterSpan(url, p) == Some((e1, e2))
    ensures IsStrictDecimal(url[p + 1..e1]) && IsStrictDecimal(url[e1 + 1..e2])
    ensures ParseFloat(url[p + 1..e1]).Some? && ParseFloat(url[e1 + 1..e2]).Some?
  {
    var a, b := p + 1, e1 + 1;
    assert StrictDecimalEnd(url, a).value == e1;
    assert StrictDecimalEnd(url, b).value == e2;
    StrictDecimalTaken(url, a);
    StrictDecimalTaken(url, b);
  }

  /** The decimal the scan takes at `a` is one `float()` accepts. */
  lemma StrictDecimalTaken(url: string, a: nat)
    requires a <= |url| && StrictDecimalEnd(url, a).Some?
    ensures IsStrictDecimal(url[a..StrictDecimalEnd(url, a).value])
    ensures ParseFloat(url[a..StrictDecimalEnd(url, a).value]).Some?
  {
    StrictDecimalSound(url, a);
    StrictDecimalParses(url[a..StrictDecimalEnd(url, a).value]);
  }

  /** Where `re.search(r'@(-?\d+\.\d+),(-?\d+\.\d+)', url)` matches, looking from `p` on. */
  function FirstCenterFrom(url: string, p: nat): (q: Option<nat>)
    requires p <= |url|
    ensures q.Some? ==> p <= q.value < |url| && CenterSpan(url, q.value).Some?
    ensures forall q' | p <= q' < (if q.Some? then q.value else |url| + 1) :: CenterSpan(url, q').None?
    decreases |url| - p
  {
    if p == |url| then None
    else if CenterSpan(url, p).Some? then Some(p)
    else FirstCenterFrom(url, p + 1)
  }

  /** The point the leftmost map centre from `p` on names. */
  function CenterFrom(url: string, p: nat): (c: Option<Point>)
    requires p <= |url|
    ensures c.None? <==> forall q | p <= q <= |url| :: CenterSpan(url, q).None?
    ensures c.Some? ==> exists q | p <= q < |url| :: CenterAt(url, q) == c && forall q' | p <= q' < q :: CenterSpan(url, q').None?
  {
    match FirstCenterFrom(url, p)
    case None => None
    case Some(q) => CenterAt(url, q)
  }

  /** What the extraction falls back to with fewer than two waypoints. */
  function Fallback(url: string, wps: seq<Point>): (r: Extracted)
    ensures r.Found? ==> r.points != []
    ensures r.NotFound? ==> wps == []
  {
    match ConvertMarkers(DataMarkers(url))
    case None => ConversionError
    case Some(data) =>
      if data != [] then Found(data)
      else
        match CenterFrom(url, 0)
        case Some(c) => Found([c])
        case None => if wps != [] then Found(wps) else NotFound
  }

  /** extract_coordinates_from_google_maps_url. */
  function Extract(url: string, env: Environment): (r: Extracted)
    ensures r.NotFound? ==> Waypoints(Expanded(url, env.expand), env) == []
    ensures r.ConversionError? ==> |Waypoints(Expanded(url, env.expand), env)| < 2
  {
    var u := Expanded(url, env.expand);
    Decide(u, Waypoints(u, env), env)
  }

  /** What the extraction makes of the expanded URL `u` and its waypoints. */
  function Decide(u: string, wps: seq<Point>, env: Environment): (r: Extracted)
    ensures r.NotFound? ==> wps == []
    ensures r.ConversionError? ==> |wps| < 2
    ensures |wps| >= 2 ==> r.Found?
    ensures |wps| >= 2 && !KeyPresent(env.apiKey) ==> r == Found(wps)
  {
    if |wps| >= 2 then
      if KeyPresent(env.apiKey) then
        Found(Route(wps[0], wps[|wps| - 1], ExtractTravelMode(u), wps[1..|wps| - 1], env.apiKey, env.fetch))
      else
        Found(wps)
    else
      Fallback(u, wps)
  }

  /** The loop over the path elements. */
  method CollectWaypoints(elements: seq<string>, env: Environment) returns (waypoints: seq<Point>)
    ensures waypoints == DirWaypoints(elements, env)
  {
    waypoints := [];
    for i := 0 to |elements|
      invariant waypoints == DirWaypoints(elements[..i], env)
    {
      var element := elements[i];
      assert elements[..i + 1][..i] == elements[..i];
      if element == [] {
        continue;
      }
      var coord := CoordSegment(element);
      if coord.Some? {
        waypoints := waypoints + [coord.value];
      } else {
        var placeName := env.unquote(element);
        if !IsBlank(placeName) {
          var coords := env.geocode(placeName);
          if coords.Some? {
            waypoints := waypoints + [coords.value];
          }
        }
      }
    }
    assert elements[..|elements|] == elements;
  }

  /** The loop over the data markers: `float()` of each latitude and longitude text. */
  method ConvertDataMarkers(ms: seq<(string, string)>) returns (r: Option<seq<Point>>)
    ensures r == ConvertMarkers(ms)
  {
    var dataCoords: seq<Point> := [];
    for k := 0 to |ms|
      invariant ConvertMarkers(ms[..k]) == Some(dataCoords)
    {
      var (lng, lat) := ms[k];
      var latValue := ParseFloat(lat);
      var lngValue := ParseFloat(lng);
      if latValue.None? || lngValue.None? {
        // ValueError
        return None;
      }
      assert ms[..k + 1][..k] == ms[..k];
      dataCoords := dataCoords + [Point(latValue.value, lngValue.value)];
    }
    assert ms[..|ms|] == ms;
    r := Some(dataCoords);
  }

  /** extract_coordinates_from_google_maps_url, step by step. */
  method ExtractCoordinates(url: string, env: Environment) returns (r: Extracted)
    ensures r == Extract(url, env)
  {
    var u := url;
    if IsShortLink(u) {
      var expanded := env.expand(u);
      if expanded.Some? {
        u := expanded.value;
      }
    }
    var waypoints: seq<Point> := [];
    var path := DirPath(u);
    if path.Some? {
      waypoints := CollectWaypoints(Split(path.value, '/'), env);
    }
    assert u == Expanded(url, env.expand) && waypoints == Waypoints(u, env);
    var travelMode := ExtractTravelMode(u);
    if |waypoints| >= 2 {
      if KeyPresent(env.apiKey) {
        var route := GetDirections(waypoints[0], waypoints[|waypoints| - 1], travelMode,
                                   waypoints[1..|waypoints| - 1], env.apiKey, env.fetch);
        ExtractWithKey(url, env, u, waypoints);
        return Found(route);
      }
      assert Found(waypoints) == Extract(url, env);
      return Found(waypoints);
    }
    assert Extract(url, env) == Fallback(u, waypoints);
    var dataCoords := ConvertDataMarkers(DataMarkers(u));
    if dataCoords.None? {
      assert ConversionError == Extract(url, env);
      return ConversionError;
    }
    if dataCoords.value != [] {
      assert Found(dataCoords.value) == Extract(url, env);
      return Found(dataCoords.value);
    }
    var center := CenterFrom(u, 0);
    if center.Some? {
      assert Found([center.value]) == Extract(url, env);
      return Found([center.value]);
    }
    if waypoints != [] {
      assert Found(waypoints) == Extract(url, env);
      return Found(waypoints);
    }
    assert NotFound == Extract(url, env);
    return NotFound;
  }

  /** With two or more waypoints and a key, the extraction is the planned route. */
  lemma ExtractWithKey(url: string, env: Environment, u: string, wps: seq<Point>)
    requires u == Expanded(url, env.expand) && wps == Waypoints(u, env)
    requires |wps| >= 2 && KeyPresent(env.apiKey)
    ensures Extract(url, env) == Found(Route(wps[0], wps[|wps| - 1], ExtractTravelMode(u), wps[1..|wps| - 1], env.apiKey, env.fetch))
  {
    assert Extract(url, env) == Decide(u, wps, env);
    DecideWithKey(u, wps, env);
  }

  /**
    With two or more waypoints of any kind, explicit or geocoded, and no key, the
    extraction is the waypoints themselves.
   */
  lemma ExtractWithoutKey(url: string, env: Environment)
    requires |Waypoints(Expanded(url, env.expand), env)| >= 2 && !KeyPresent(env.apiKey)
    ensures Extract(url, env) == Found(Waypoints(Expanded(url, env.expand), env))
  {
  }

  lemma DecideWithKey(u: string, wps: seq<Point>, env: Environment)
    requires |wps| >= 2 && KeyPresent(env.apiKey)
    ensures Decide(u, wps, env) == Found(Route(wps[0], wps[|wps| - 1], ExtractTravelMode(u), wps[1..|wps| - 1], env.apiKey, env.fetch))
  {
  }

  /** One more element adds its value, if it gives one, at the end. */
  lemma GatherSnoc<T>(es: seq<string>, e: string, f: string -> Option<T>)
    ensures Gather(es + [e], f) == Gather(es, f) + Gather([e], f)
  {
    assert (es + [e])[..|es|] == es;
    assert [e][..0] == [];
  }

  /** Gathering over two runs of elements gives the first's values, then the second's. */
  lemma {:induction false} GatherConcat<T>(a: seq<string>, b: seq<string>, f: string -> Option<T>)
    ensures Gather(a + b, f) == Gather(a, f) + Gather(b, f)
    decreases |b|
  {
    if b == [] {
      assert a + b == a;
    } else {
      var n := |b| - 1;
      GatherConcat(a, b[..n], f);
      assert a + b == (a + b[..n]) + [b[n]];
      assert b == b[..n] + [b[n]];
      GatherSnoc(a + b[..n], b[n], f);
      GatherSnoc(b[..n], b[n], f);
    }
  }

  /** The waypoints of two runs of elements are those of the first, then those of the second. */
  lemma DirWaypointsConcat(a: seq<string>, b: seq<string>, env: Environment)
    ensures DirWaypoints(a + b, env) == DirWaypoints(a, env) + DirWaypoints(b, env)
  {
    GatherConcat(a, b, Segmenter(env));
  }

  /** A single element gives its point, or nothing. */
  lemma DirWaypointsSingle(e: string, env: Environment)
    ensures DirWaypoints([e], env) == if SegmentWaypoint(e, env).Some? then [SegmentWaypoint(e, env).value] else []
  {
    assert [e][..0] == [];
  }

  /**
    An empty element, or a name that is blank once unquoted or that the geocoder
    does not find, drops out without disturbing the others.
   */
  lemma SkippedElement(a: seq<string>, e: string, b: seq<string>, env: Environment)
    requires e == [] || (CoordSegment(e).None? && (IsBlank(env.unquote(e)) || env.geocode(env.unquote(e)).None?))
    ensures DirWaypoints(a + [e] + b, env) == DirWaypoints(a + b, env)
  {
    DirWaypointsConcat(a + [e], b, env);
    DirWaypointsConcat(a, [e], env);
    DirWaypointsConcat(a, b, env);
    DirWaypointsSingle(e, env);
  }

  /** A place name the geocoder finds contributes its point in the element's place. */
  lemma GeocodedElement(a: seq<string>, e: string, b: seq<string>, env: Environment, p: Point)
    requires e != [] && CoordSegment(e).None?
    requires !IsBlank(env.unquote(e)) && env.geocode(env.unquote(e)) == Some(p)
    ensures DirWaypoints(a + [e] + b, env) == DirWaypoints(a, env) + [p] + DirWaypoints(b, env)
  {
    DirWaypointsConcat(a + [e], b, env);
    DirWaypointsConcat(a, [e], env);
    DirWaypointsSingle(e, env);
  }

  /** An explicit `lat,lng` element contributes its point in the element's place, without the geocoder. */
  lemma ExplicitElement(a: seq<string>, e: string, b: seq<string>, env: Environment, p: Point)
    requires e != [] && CoordSegment(e) == Some(p)
    ensures DirWaypoints(a + [e] + b, env) == DirWaypoints(a, env) + [p] + DirWaypoints(b, env)
  {
    DirWaypointsConcat(a + [e], b, env);
    DirWaypointsConcat(a, [e], env);
    DirWaypointsSingle(e, env);
  }

  /** Elements that are all explicit coordinates give exactly those points, in order. */
  lemma ExplicitElements(segs: seq<string>, env: Environment, ps: seq<Point>)
    requires |ps| == |segs| && forall k | 0 <= k < |segs| :: CoordSegment(segs[k]) == Some(ps[k])
    ensures DirWaypoints(segs, env) == ps
  {
    forall k | 0 <= k < |segs|
      ensures Segmenter(env)(segs[k]) == Some(ps[k])
    {
      ExplicitSegment(segs[k], env, ps[k]);
    }
    GatherAll(segs, Segmenter(env), ps);
  }

  /** An explicit `lat,lng` element is its point, without the geocoder. */
  lemma ExplicitSegment(e: string, env: Environment, p: Point)
    requires CoordSegment(e) == Some(p)
    ensures Segmenter(env)(e) == Some(p)
  {
  }

  /** Elements that all give a value give exactly those values, in order. */
  lemma {:induction false} GatherAll<T>(es: seq<string>, f: string -> Option<T>, vs: seq<T>)
    requires |vs| == |es| && forall k | 0 <= k < |es| :: f(es[k]) == Some(vs[k])
    ensures Gather(es, f) == vs
  {
    if es != [] {
      var n := |es| - 1;
      GatherAll(es[..n], f, vs[..n]);
      SnocParts(vs);
    }
  }

  /** A non-empty sequence is its front followed by its last element. */
  lemma SnocParts<T>(s: seq<T>)
    requires |s| > 0
    ensures s == s[..|s| - 1] + [s[|s| - 1]]
  {
  }

  /**
    A directions path of two or more explicit `lat,lng` elements, without an API key,
    gives those points as they are, in order.
   */
  lemma ExplicitPathWithoutKey(url: string, env: Environment, segs: seq<string>, ps: seq<Point>)
    requires |segs| >= 2 && |ps| == |segs| && forall k | 0 <= k < |segs| :: CoordSegment(segs[k]) == Some(ps[k])
    requires DirPath(Expanded(url, env.expand)) == Some(Join(segs, '/'))
    requires !KeyPresent(env.apiKey)
    ensures Extract(url, env) == Found(ps)
  {
    forall k, m | 0 <= k < |segs| && 0 <= m < |segs[k]|
      ensures segs[k][m] != '/'
    {
      CoordSegmentChars(segs[k]);
    }
    SplitJoin(segs, '/');
    ExplicitElements(segs, env, ps);
  }

  /**
    With two or more waypoints and a key, a service that fails or answers with
    another status than "OK" leaves the waypoints themselves as the route.
   */
  lemma ServiceFailureKeepsWaypoints(url: string, env: Environment, u: string, wps: seq<Point>, reply: Reply)
    requires u == Expanded(url, env.expand) && wps == Waypoints(u, env)
    requires |wps| >= 2 && KeyPresent(env.apiKey)
    requires reply == env.fetch(Request(wps[0], wps[|wps| - 1], GoogleMode(ExtractTravelMode(u)), wps[1..|wps| - 1], env.apiKey.value))
    requires reply.Failed? || reply.status != "OK"
    ensures Extract(url, env) == Found(wps)
  {
    ExtractWithKey(url, env, u, wps);
    EndsParts(wps);
  }

  /** A sequence of two or more is its first element, its middle and its last element. */
  lemma EndsParts<T>(s: seq<T>)
    requires |s| >= 2
    ensures [s[0]] + s[1..|s| - 1] + [s[|s| - 1]] == s
  {
  }

  /**
    With fewer than two waypoints, well-formed data markers decide the result: one
    point per marker, latitude from `!3d`, longitude from `!2d`.
   */
  lemma MarkersDecide(url: string, env: Environment)
    requires |Waypoints(Expanded(url, env.expand), env)| < 2
    requires var ms := DataMarkers(Expanded(url, env.expand));
             ms != [] && forall k | 0 <= k < |ms| :: ParseFloat(ms[k].1).Some? && ParseFloat(ms[k].0).Some?
    ensures var ms := DataMarkers(Expanded(url, env.expand));
            Extract(url, env).Found? && |Extract(url, env).points| == |ms|
            && forall k | 0 <= k < |ms| ::
                 Extract(url, env).points[k] == Point(ParseFloat(ms[k].1).value, ParseFloat(ms[k].0).value)
  {
  }

  /** With fewer than two waypoints, one marker `float()` rejects fails the whole extraction. */
  lemma MalformedMarker(url: string, env: Environment, k: nat)
    requires |Waypoints(Expanded(url, env.expand), env)| < 2
    requires var ms := DataMarkers(Expanded(url, env.expand));
             k < |ms| && (ParseFloat(ms[k].1).None? || ParseFloat(ms[k].0).None?)
    ensures Extract(url, env) == ConversionError
  {
  }

  /** With fewer than two waypoints and no data marker, the first map centre is the answer. */
  lemma CenterDecides(url: string, env: Environment, c: Point)
    requires |Waypoints(Expanded(url, env.expand), env)| < 2
    requires DataMarkers(Expanded(url, env.expand)) == [] && CenterFrom(Expanded(url, env.expand), 0) == Some(c)
    ensures Extract(url, env) == Found([c])
  {
  }

  /** A single waypoint with no data marker and no map centre is returned as it is. */
  lemma LoneWaypoint(url: string, env: Environment)
    requires |Waypoints(Expanded(url, env.expand), env)| == 1
    requires DataMarkers(Expanded(url, env.expand)) == [] && CenterFrom(Expanded(url, env.expand), 0).None?
    ensures Extract(url, env) == Found(Waypoints(Expanded(url, env.expand), env))
  {
  }

  /**
    The markers from `p` on start with the leftmost one, from `q`, and continue
    after its end.
   */
  lemma {:induction false} DataMarkersFirst(url: string, p: nat, q: nat)
    requires p <= q < |url| && DataMarkerAt(url, q).Some?
    requires forall q' | p <= q' < q :: DataMarkerAt(url, q').None?
    ensures DataMarkersFrom(url, p)
         == [(DataMarkerAt(url, q).value.0, DataMarkerAt(url, q).value.1)] + DataMarkersFrom(url, DataMarkerAt(url, q).value.2)
    decreases q - p
  {
    if p < q {
      DataMarkersSkip(url, p);
      DataMarkersFirst(url, p + 1, q);
    } else {
      DataMarkersTake(url, p);
    }
  }

  /** No marker is found from `p` on exactly when the pattern matches at no position from `p` on. */
  lemma {:induction false} DataMarkersNone(url: string, p: nat)
    requires p <= |url|
    ensures DataMarkersFrom(url, p) == [] <==> forall q | p <= q < |url| :: DataMarkerAt(url, q).None?
    decreases |url| - p
  {
    if p < |url| {
      if DataMarkerAt(url, p).None? {
        DataMarkersSkip(url, p);
        DataMarkersNone(url, p + 1);
      } else {
        DataMarkersTake(url, p);
      }
    }
  }

  lemma DataMarkersSkip(url: string, p: nat)
    requires p < |url| && DataMarkerAt(url, p).None?
    ensures DataMarkersFrom(url, p) == DataMarkersFrom(url, p + 1)
  {
  }

  lemma DataMarkersTake(url: string, p: nat)
    requires p < |url| && DataMarkerAt(url, p).Some?
    ensures DataMarkersFrom(url, p)
         == [(DataMarkerAt(url, p).value.0, DataMarkerAt(url, p).value.1)] + DataMarkersFrom(url, DataMarkerAt(url, p).value.2)
  {
  }

  /** Nothing is found exactly when there are no waypoints, no data markers and no map centre. */
  lemma NothingFound(url: string, env: Environment)
    ensures Extract(url, env) == NotFound
        <==> (Waypoints(Expanded(url, env.expand), env) == [] && DataMarkers(Expanded(url, env.expand)) == []
              && CenterFrom(Expanded(url, env.expand), 0).None?)
  {
  }
}
