/**
  The request-level checks of app.py: the URL classifier, the API key test, the
  route name's default and sanitising, and the `/convert` flow that ties the
  extraction to the track builder.
 */
module App {
  import opened Wrappers
  import opened Text
  import opened Coordinates
  import opened Directions
  import opened TravelMode
  import opened RouteParser
  import opened GpxGenerator

  const EmptyUrl := "URL cannot be empty"
  const NotGoogleMaps := "This doesn't appear to be a Google Maps URL"
  const NoRouteData := "URL doesn't contain directions or map coordinates"
  const DefaultRouteName := "Google Maps Route"
  const NoCoordinates := "Could not extract route coordinates from URL. Please check the URL and try again."

  /** One of the five host/path fragments the URL's lower-cased form must contain. */
  predicate KnownDomain(url: string) {
    var low := Lower(url);
    || Contains(low, "google.com/maps")
    || Contains(low, "maps.google.com")
    || Contains(low, "www.google.com/maps")
    || Contains(low, "goo.gl/maps")
    || Contains(low, "maps.app.goo.gl")
  }

  /** A directions path or a map position, looked for in the URL as given (case matters). */
  predicate HasRouteData(url: string) {
    Contains(url, "/dir/") || Contains(url, "@")
  }

  /** validate_google_maps_url: whether the URL is accepted, and the message when not. */
  function ValidateUrl(url: string): (r: (bool, string))
    ensures r.0 <==> !IsBlank(url) && KnownDomain(url) && HasRouteData(url)
    ensures r.0 <==> r.1 == ""
    ensures IsBlank(url) ==> r.1 == EmptyUrl
    ensures !IsBlank(url) && !KnownDomain(url) ==> r.1 == NotGoogleMaps
    ensures !IsBlank(url) && KnownDomain(url) && !HasRouteData(url) ==> r.1 == NoRouteData
  {
    if IsBlank(url) then (false, EmptyUrl)
    else if !KnownDomain(url) then (false, NotGoogleMaps)
    else if !HasRouteData(url) then (false, NoRouteData)
    else (true, "")
  }

  /** Every accepted URL mentions Google Maps in one of the known spellings and is not blank. */
  lemma AcceptedUrl(url: string)
    requires ValidateUrl(url).0
    ensures exists i | 0 <= i < |url| :: !IsSpace(url[i])
    ensures Contains(Lower(url), "google.com/maps") || Contains(Lower(url), "maps.google.com")
         || Contains(Lower(url), "goo.gl/maps") || Contains(Lower(url), "maps.app.goo.gl")
  {
    var low := Lower(url);
    if Contains(low, "www.google.com/maps") {
      ContainsTail(low, "www.google.com/maps", 4);
      assert "www.google.com/maps"[4..] == "google.com/maps";
    }
  }

  /** is_api_key_configured: the key is set and not whitespace only. */
  predicate IsApiKeyConfigured(apiKey: Option<string>) {
    apiKey.Some? && !IsBlank(apiKey.value)
  }

  /**
    The page's key test is stricter than the one the extraction uses: a configured
    key is always present there, but a whitespace-only key is present without
    being configured.
   */
  lemma KeyTests(apiKey: Option<string>)
    ensures IsApiKeyConfigured(apiKey) ==> KeyPresent(apiKey)
    ensures KeyPresent(Some(" ")) && !IsApiKeyConfigured(Some(" "))
  {
    assert " "[0] == ' ';
  }

  /** The route name field, stripped, or the default name when it is blank. */
  function RouteName(field: string): (name: string)
    ensures name != []
    ensures IsBlank(field) ==> name == DefaultRouteName
    ensures !IsBlank(field) ==> name == Strip(field)
  {
    var n := Strip(field);
    if n == [] then DefaultRouteName else n
  }

  /** A character the sanitiser keeps: alphanumeric or one of `-_. `. */
  predicate Allowed(c: char) {
    IsAlnum(c) || c == '-' || c == '_' || c == '.' || c == ' '
  }

  /** The sanitiser: every character that is not allowed becomes `_`. */
  function Sanitize(name: string): (r: string)
    ensures |r| == |name|
    ensures forall i | 0 <= i < |name| :: Allowed(r[i])
    ensures forall i | 0 <= i < |name| :: Allowed(name[i]) ==> r[i] == name[i]
    ensures forall i | 0 <= i < |name| :: !Allowed(name[i]) ==> r[i] == '_'
  {
    seq(|name|, i requires 0 <= i < |name| => if Allowed(name[i]) then name[i] else '_')
  }

  /** Sanitising twice is sanitising once: the second pass in `convert` changes nothing. */
  lemma SanitizeIdempotent(name: string)
    ensures Sanitize(Sanitize(name)) == Sanitize(name)
  {
    var once := Sanitize(name);
    assert forall i | 0 <= i < |once| :: Sanitize(once)[i] == once[i];
  }

  /** A name of allowed characters only is left as it is. */
  lemma SanitizeKeepsAllowed(name: string)
    requires forall i | 0 <= i < |name| :: Allowed(name[i])
    ensures Sanitize(name) == name
  {
  }

  /** What `/convert` answers: a message flashed back to the form, or a GPX download. */
  datatype Response =
    | Flash(message: string)
    | ExtractionFailed
    | Download(gpx: Gpx, filename: string)

  /** The clock readings the request uses. */
  datatype Clock = Clock(stamp: string, metadataTime: real, baseTime: real, day: string)

  /**
    convert: validate the stripped URL, sanitise the name, extract the points, and
    build the track only from two or more of them. The filename is the sanitised
    name, an underscore, the day as YYYYMMDD and `.gpx`.
   */
  function Convert(urlField: string, nameField: string, env: Environment, clock: Clock): (r: Response)
    ensures r.Download? || r.ExtractionFailed? ==> ValidateUrl(Strip(urlField)).0
    ensures r.Flash? ==> r.message in {EmptyUrl, NotGoogleMaps, NoRouteData, NoCoordinates}
    ensures var url := Strip(urlField);
            ValidateUrl(url).0 ==> (r.ExtractionFailed? <==> Extract(url, env).ConversionError?)
    ensures var url := Strip(urlField);
            ValidateUrl(url).0 ==> (r == Flash(NoCoordinates) <==>
              Extract(url, env).NotFound? || (Extract(url, env).Found? && |Extract(url, env).points| < 2))
    ensures var url := Strip(urlField);
            ValidateUrl(url).0 ==> (r.Download? <==> Extract(url, env).Found? && |Extract(url, env).points| >= 2)
  {
    var url := Strip(urlField);
    var (ok, message) := ValidateUrl(url);
    if !ok then Flash(message)
    else
      var name := Sanitize(RouteName(nameField));
      var mode := ExtractTravelMode(url);
      match Extract(url, env)
      case ConversionError => ExtractionFailed
      case NotFound => Flash(NoCoordinates)
      case Found(points) =>
        if |points| < 2 then Flash(NoCoordinates)
        else
          Download(GpxOf(points, name, mode, clock.stamp, clock.metadataTime, clock.baseTime),
                   Sanitize(name) + "_" + clock.day + ".gpx")
  }

  /**
    The track is built only from two or more extracted points, one track point per
    extracted point in the same order, and the download name has no character the
    sanitiser rejects in front of its date.
   */
  lemma CoordinateGate(urlField: string, nameField: string, env: Environment, clock: Clock)
    requires Convert(urlField, nameField, env, clock).Download?
    ensures var url := Strip(urlField);
            ValidateUrl(url).0 && Extract(url, env).Found? && |Extract(url, env).points| >= 2
    ensures var url := Strip(urlField);
            var pts := Convert(urlField, nameField, env, clock).gpx.tracks[0].segments[0].points;
            |pts| == |Extract(url, env).points|
            && forall i | 0 <= i < |pts| ::
                 pts[i].lat == Extract(url, env).points[i].lat && pts[i].lon == Extract(url, env).points[i].lng
    ensures var f := Convert(urlField, nameField, env, clock).filename;
            var n := |Sanitize(RouteName(nameField))|;
            |f| > n && f[n] == '_' && forall i | 0 <= i < n :: Allowed(f[i])
  {
    var url := Strip(urlField);
    var name := Sanitize(RouteName(nameField));
    ConvertDownload(urlField, nameField, env, clock);
    var pts := Extract(url, env).points;
    assert Convert(urlField, nameField, env, clock).gpx.tracks[0].segments[0].points
        == TrackPoints(pts, clock.baseTime);
    SanitizeIdempotent(RouteName(nameField));
    FilenamePrefix(name, clock.day);
  }

  /** The download `convert` answers with, spelled out. */
  lemma ConvertDownload(urlField: string, nameField: string, env: Environment, clock: Clock)
    requires Convert(urlField, nameField, env, clock).Download?
    ensures var url := Strip(urlField);
            ValidateUrl(url).0 && Extract(url, env).Found? && |Extract(url, env).points| >= 2
            && var name := Sanitize(RouteName(nameField));
               Convert(urlField, nameField, env, clock)
               == Download(GpxOf(Extract(url, env).points, name, ExtractTravelMode(url), clock.stamp,
                                 clock.metadataTime, clock.baseTime),
                           Sanitize(name) + "_" + clock.day + ".gpx")
  {
  }

  lemma FilenamePrefix(name: string, day: string)
    requires forall i | 0 <= i < |name| :: Allowed(name[i])
    ensures var f := name + "_" + day + ".gpx";
            |f| > |name| && f[|name|] == '_' && forall i | 0 <= i < |name| :: Allowed(f[i])
  {
    var f := name + "_" + day + ".gpx";
    assert forall i | 0 <= i < |name| :: f[i] == name[i];
  }

  /** A rejected URL never reaches the extraction: its message comes back. */
  lemma RejectedUrl(urlField: string, nameField: string, env: Environment, clock: Clock)
    requires !ValidateUrl(Strip(urlField)).0
    ensures Convert(urlField, nameField, env, clock) == Flash(ValidateUrl(Strip(urlField)).1)
    ensures ValidateUrl(Strip(urlField)).1 in {EmptyUrl, NotGoogleMaps, NoRouteData}
  {
  }
}
