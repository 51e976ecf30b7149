/**
  extract_travel_mode in route_parser.py: the digits after the first `!3e` that is
  followed by a digit name the mode Google Maps drew the route for.
 */
module TravelMode {
  import opened Wrappers
  import opened Text

  /** A mode code marker `!3e<digits>` starts at `p`. */
  predicate MarkerAt(url: string, p: nat) {
    OccursAt(url, "!3e", p) && p + 3 < |url| && IsDigit(url[p + 3])
  }

  /** Where `re.search(r'!3e(\d+)', url)` finds its match, looking from `p` on. */
  function FirstMarkerFrom(url: string, p: nat): (q: Option<nat>)
    requires p <= |url|
    ensures q.Some? ==> p <= q.value < |url| && MarkerAt(url, q.value)
    ensures forall q' | p <= q' < (if q.Some? then q.value else |url| + 1) :: !MarkerAt(url, q')
    decreases |url| - p
  {
    if p == |url| then None
    else if MarkerAt(url, p) then Some(p)
    else FirstMarkerFrom(url, p + 1)
  }

  /** The digits the first marker carries (the pattern's `\d+` takes them all). */
  function ModeCode(url: string): (code: Option<string>)
    ensures code.None? <==> forall q | 0 <= q <= |url| :: !MarkerAt(url, q)
    ensures code.Some? ==> code.value != [] && forall i | 0 <= i < |code.value| :: IsDigit(code.value[i])
  {
    match FirstMarkerFrom(url, 0)
    case None => None
    case Some(q) => Some(url[q + 3..SpanWhile(url, q + 3, IsDigit)])
  }

  /** The mode table: codes "0" to "4"; any other digit string is unknown. */
  function ModeName(code: string): (mode: string)
    ensures mode != "unknown" <==> code in {"0", "1", "2", "3", "4"}
  {
    if code == "0" then "driving"
    else if code == "1" then "cycling"
    else if code == "2" then "walking"
    else if code == "3" then "transit"
    else if code == "4" then "flight"
    else "unknown"
  }

  /** The mode a Google Maps URL names, or "unknown". */
  function ExtractTravelMode(url: string): (mode: string)
    ensures mode in {"driving", "cycling", "walking", "transit", "flight", "unknown"}
    ensures ModeCode(url).None? ==> mode == "unknown"
  {
    match ModeCode(url)
    case None => "unknown"
    case Some(code) => ModeName(code)
  }

  /**
    A URL whose first marker is `!3e` and one digit `d` (followed by anything but a
    digit) is read as the mode code `d`.
   */
  lemma FirstMarker(pre: string, d: char, rest: string)
    requires IsDigit(d) && (rest == [] || !IsDigit(rest[0]))
    requires forall q | 0 <= q < |pre| :: !MarkerAt(pre + "!3e" + [d] + rest, q)
    ensures ExtractTravelMode(pre + "!3e" + [d] + rest) == ModeName([d])
  {
    var url := pre + "!3e" + [d] + rest;
    var p := |pre|;
    assert url[p..p + 3] == "!3e";
    assert url[p + 3] == d;
    assert MarkerAt(url, p);
    var e := SpanWhile(url, p + 3, IsDigit);
    assert e == p + 4 by {
      if p + 4 < |url| {
        assert url[p + 4] == rest[0];
      }
    }
    assert url[p + 3..e] == [d];
    assert FirstMarkerFrom(url, 0) == Some(p);
  }

  /**
    The code is the whole run of digits right after the first marker: the greedy
    `\d+` stops only at the end of the URL or at a non-digit.
   */
  lemma ModeCodeRun(url: string)
    requires ModeCode(url).Some?
    ensures FirstMarkerFrom(url, 0).Some?
    ensures var q := FirstMarkerFrom(url, 0).value;
            var e := q + 3 + |ModeCode(url).value|;
            MarkerAt(url, q) && (forall q' | 0 <= q' < q :: !MarkerAt(url, q'))
            && e <= |url| && url[q + 3..e] == ModeCode(url).value && (e == |url| || !IsDigit(url[e]))
  {
  }

  /** A first marker followed by two or more digits names no mode in the table: `!3e10` is "unknown". */
  lemma LongCodeUnknown(url: string)
    requires FirstMarkerFrom(url, 0).Some?
    requires var q := FirstMarkerFrom(url, 0).value; q + 4 < |url| && IsDigit(url[q + 4])
    ensures |ModeCode(url).value| >= 2
    ensures ExtractTravelMode(url) == "unknown"
  {
    var q := FirstMarkerFrom(url, 0).value;
    var e := SpanWhile(url, q + 3, IsDigit);
    assert e >= q + 5;
  }
}
