# Google Maps to GPX converter, modelled in Dafny

This project models the core of a small web service. The service turns a Google Maps
URL into a GPX track. Four pieces are modelled:

- **route_parser.py**, which reads a URL in this order:
  - It follows a short link.
  - It reads the waypoints of a `maps/dir/` path: explicit `lat,lng` elements, or place names handed to a geocoder.
  - With two or more waypoints and an API key, it asks the Directions service for a road-following route. It stitches the legs and steps of the reply together, decoding each step's encoded polyline, and drops repeated neighbours.
  - Without a key, or when the service fails, it keeps the straight line through the waypoints.
  - With fewer than two waypoints, it falls back in turn to the `!2d<lng>!3d<lat>` data markers, the `@lat,lng` map centre and the lone waypoint.
  - The `!3e<digit>` marker names the travel mode.
- **app.py**: the URL classifier, the API-key test, the route name's default and sanitiser, and the `/convert` flow that accepts only two or more points.
- **gpx_generator.py**: the document `create_gpx` builds. It holds one track with one segment and one point per coordinate. The points are ten seconds apart at elevation 0.
- **mobile_download.py**: the `temp_id` test, the `.gpx` fix-up of a download name, the two tables that storing a file fills, and the hourly cleanup that prunes them.

Modules, one per file:

| module | file | models |
|---|---|---|
| `Wrappers` | `wrappers.dfy` | the `Option` type |
| `Text` | `text.dfy` | Python string primitives |
| `Coordinates` | `coordinates.dfy` | points, and `float()` on the decimal text the patterns extract |
| `Polyline` | `polyline.dfy` | the encoded polyline decoder, with an encoder written as its partner |
| `TravelMode` | `travel_mode.dfy` | `extract_travel_mode` |
| `Directions` | `directions.dfy` | `get_directions_from_google_api` |
| `RouteParser` | `route_parser.dfy` | `extract_coordinates_from_google_maps_url` |
| `App` | `app.dfy` | app.py |
| `GpxGenerator` | `gpx_generator.dfy` | gpx_generator.py |
| `MobileDownload` | `mobile_download.dfy` | mobile_download.py |

How the source's form carries over:

- Code that loops and appends in the source is a method proved equal to a specification function. Examples are the polyline decoder, the waypoint and marker loops, the leg and step stitching, deduplication, `create_gpx` and the cleanup's collecting loop.
- The two tables that storing and cleanup change in place are fields of the class `MobileDownload.TempFiles`.

Everything outside the process is a parameter of the model:

- following a short link
- `urllib.parse.unquote`
- the geocoder
- the API key
- the Directions service (a `Request -> Reply` function)
- file existence and modification times
- the clock
- the random tokens
- `secure_filename`

## Model

| member | source | states |
|---|---|---|
| Text.Strip | app.py:202-203 | the stripped text is empty exactly when the input is blank, and it neither starts nor ends with whitespace |
| Text.StripRemovesEnds | app.py:202 | stripping removes only whitespace, and only at the two ends: the result sits inside the input between two blank pieces |
| Text.Split | route_parser.py:35 | `split('/')` gives at least one piece, and no piece holds the separator |
| Text.JoinSplit | route_parser.py:35 | joining the pieces of a split gives back the text |
| Text.SplitJoin | route_parser.py:35 | pieces without the separator come back unchanged from splitting their join |
| Text.Capitalize | gpx_generator.py:32 | `capitalize()` keeps the length, upper-cases the first character and lower-cases the rest |
| Coordinates.StrictDecimalParses | route_parser.py:43-49 | text matching `-?\d+\.\d+` is always accepted by `float()` |
| Coordinates.ParseFloat | route_parser.py:48-49 | `float()` accepts no empty text, no lone `-` and no lone `.`; what it accepts has the sign of its leading `-` |
| Coordinates.StrictDecimalEnd | route_parser.py:91-92 | a match of `-?\d+\.\d+` found at a position ends inside the text, and never just before another digit |
| Coordinates.StrictDecimalSound | route_parser.py:91-92 | the text the scan takes has the shape `-?\d+\.\d+` |
| Coordinates.StrictDecimalLongest | route_parser.py:91-92 | wherever `-?\d+\.\d+` can match, the scan finds a match there, and one at least as long |
| Coordinates.ParseDecimalText | route_parser.py:48-49 | the text of a signed decimal matches `-?\d+\.\d+` and `float()` reads it back as its value |
| Coordinates.ParseFloatAccepts | route_parser.py:99-101 | `float()` accepts text of `[-\d.]` exactly when it is an optional leading `-`, then digits with at most one `.`, with at least one digit |
| Coordinates.ParseIntegerText | route_parser.py:99-101 | the text of a signed integer, without a point, reads back as that integer |
| Coordinates.ParseTrailingPointText | route_parser.py:99-101 | an integer followed by a bare `.` reads back as that integer |
| Coordinates.ParseLeadingPointText | route_parser.py:99-101 | a `.` followed by fraction digits, with no whole part, reads back as the fraction alone |
| Coordinates.DecimalValueScaled | route_parser.py:48-49 | the value of `whole.frac` with n fraction digits, times 10^n, is whole * 10^n + frac |
| Coordinates.FloatExamples | route_parser.py:99-101 | "12" and "12." read as 12, ".5" as 0.5 and "-.5" as -0.5 |
| Coordinates.FloatRejections | route_parser.py:99-101 | "1.2.3", "1-2" and "-" are rejected (ValueError) |
| Coordinates.CoordSegmentOf | route_parser.py:43-50 | two strict decimals joined by a comma form an explicit segment naming the point they denote, latitude first |
| Coordinates.CoordSegment | route_parser.py:43-49 | an accepted segment is not empty and its latitude has the sign of its leading `-` |
| Coordinates.CoordSegmentHalves | route_parser.py:43-46 | an accepted segment is two texts of the shape `-?\d+\.\d+` around its first comma, the converse of CoordSegmentOf |
| Coordinates.ParseCoordSegment | route_parser.py:43-50 | a segment written from two decimals reads back as exactly that point |
| Coordinates.CoordSegmentChars | route_parser.py:35-44 | an explicit segment never holds a `/`, so splitting the path never cuts one apart |
| Polyline.ReadValue | route_parser.py:328-334 | a value read ends inside the text, on a chunk without the continuation flag |
| Polyline.ReadChunkedValue | route_parser.py:326-334 | the inner loop (OR of 5-bit chunks shifted by 5 each step) yields the value and end index ReadValue specifies, or None where indexing past the end raises |
| Polyline.ZigZagRoundTrip | route_parser.py:336-339 | decoding the zig-zag form of any signed integer gives it back |
| Polyline.ZigZagOnto | route_parser.py:336-339 | every unsigned value is the zig-zag form of the integer it decodes to |
| Polyline.DecodePolyline | route_parser.py:320-348 | the decoder loop returns exactly Decode: the running sums of the deltas scaled by 10^-5, or None where the text ends inside a point |
| Polyline.Decode | route_parser.py:307-348 | the empty text decodes to no points, a decoded non-empty text to at least one, and every point takes at least two characters |
| Polyline.DeltasLength | route_parser.py:323-345 | every delta pair read takes at least two characters, and reading from inside the text yields at least one pair or fails |
| Polyline.ReadEncoded | route_parser.py:328-334 | the chunks of any value, wherever they sit in a text, read back as that value and the index after them |
| Polyline.DeltasOfEncoding | route_parser.py:323-345 | decoding the encoding of any list of deltas gives back those deltas |
| Polyline.AccumulateDifferences | route_parser.py:341-346 | the running sums of consecutive differences are the points themselves, scaled to degrees |
| Polyline.DecodeEncode | route_parser.py:320-346 | decoding the encoded polyline of any integer points gives back those points divided by 100000 |
| Polyline.DocumentedExample | route_parser.py:317-346 | Google's documented example polyline `` _p~iF~ps\|U_ulLnnqC_mqNvxq`@ `` decodes to (38.5, -120.2), (40.7, -120.95), (43.252, -126.453) |
| Polyline.SmallestSteps | route_parser.py:320-346 | `"A@"` decodes to the single point (0.00001, -0.00001) |
| Polyline.EmptyPolyline | route_parser.py:320-323 | the empty text decodes to no points |
| Polyline.UnfinishedValue | route_parser.py:328-330 | a text whose last character asks for another chunk never finishes a point |
| Polyline.TruncatedPolyline | route_parser.py:328-330 | such a text makes the decoder fail (IndexError) |
| TravelMode.FirstMarkerFrom | route_parser.py:132-133 | the search finds the first `!3e` followed by a digit, and none before it |
| TravelMode.ModeCode | route_parser.py:132-136 | there is no code exactly when no `!3e` followed by a digit occurs; a code is a non-empty run of digits |
| TravelMode.ModeCodeRun | route_parser.py:132-136 | the code is the whole run of digits after the first marker: it ends at the end of the URL or before a non-digit |
| TravelMode.ModeName | route_parser.py:139-147 | the mode table knows exactly the codes "0" to "4"; any other code is "unknown" |
| TravelMode.ExtractTravelMode | route_parser.py:132-147 | the mode is one of the five names or "unknown", and "unknown" when there is no marker |
| TravelMode.LongCodeUnknown | route_parser.py:132-147 | a first marker followed by two or more digits gives a code of that length, which the table maps to "unknown" |
| TravelMode.FirstMarker | route_parser.py:132-147 | a URL whose first marker is `!3e` and a single digit is read by the mode table as that digit |
| Directions.GoogleModeTable | route_parser.py:218-228 | the service's mode is one of four names; known names pass through whatever their case, "cycling" becomes "bicycling", anything else becomes "walking" |
| Directions.StraightLine | route_parser.py:205-216 | the fallback route is the start, the waypoints in order, then the end |
| Directions.AddStep | route_parser.py:262-270 | a step extends the points, keeping those before, and ends at its end location |
| Directions.AddStepPoints | route_parser.py:262-270 | a step fails exactly when its polyline does not decode; otherwise it appends exactly its decoded polyline, then its end location |
| Directions.AddSteps | route_parser.py:262-270 | the steps extend the points, keeping those before, and end at the last step's end |
| Directions.AddStepsPoints | route_parser.py:262-270 | walking the steps fails exactly when one polyline does not decode; otherwise it appends exactly each step's decoded polyline and end location, in step order |
| Directions.AppendNew | route_parser.py:258-259 | when the points already end at the location they are returned unchanged; otherwise the location is appended; either way they keep their front and end there |
| Directions.DedupAppendNew | route_parser.py:258-282 | skipping a location the points already end with makes no difference once the route is deduplicated |
| Directions.AddLeg | route_parser.py:256-274 | a leg extends the points, keeping those before; it starts at its start when nothing came before and ends at its end location |
| Directions.AddLegPoints | route_parser.py:256-282 | a leg fails exactly when one of its polylines does not decode; otherwise, once deduplicated, the points are those before followed by the leg's start, each step's polyline and end, and the leg's end |
| Directions.AddLegs | route_parser.py:256-274 | the stitched route keeps the points before, starts at the first leg's start and ends at the last leg's end |
| Directions.AddLegsPoints | route_parser.py:256-282 | stitching fails exactly when one polyline does not decode; otherwise, once deduplicated, the route is every leg's start, steps and end, in leg and step order |
| Directions.StitchLegs | route_parser.py:252-274 | the loop over the legs returns exactly AddLegs |
| Directions.StitchLeg | route_parser.py:257-274 | one leg's body returns exactly AddLeg |
| Directions.StitchSteps | route_parser.py:262-270 | the loop over the steps returns exactly AddSteps |
| Directions.StitchStep | route_parser.py:264-270 | one step's body returns exactly AddStep, with None where decoding raises |
| Directions.Deduplicate | route_parser.py:277-282 | the deduplicating loop returns exactly Dedup |
| Directions.GetDirections | route_parser.py:186-304 | the function returns exactly Route for the given key and service |
| Directions.DedupNoAdjacent | route_parser.py:277-282 | the deduplicated list has no two equal neighbours |
| Directions.DedupKeeps | route_parser.py:277-282 | a list without equal neighbours is left as it is |
| Directions.DedupFixpoint | route_parser.py:277-282 | deduplication changes nothing exactly when no two neighbours are equal |
| Directions.DedupIdempotent | route_parser.py:277-282 | deduplicating twice is deduplicating once |
| Directions.DedupSamePoints | route_parser.py:277-282 | deduplication keeps the same set of points, the first one and the last one |
| Directions.DedupCongruent | route_parser.py:277-282 | two lists that deduplicate alike still do after the same points are appended to both |
| Directions.DedupPositions | route_parser.py:277-282 | deduplication only collapses runs: every input point is kept at a position that starts at 0, ends at the last one and never skips or goes back |
| Directions.NoKeyStraightLine | route_parser.py:205-216 | without a key the route is `[start] + via + [end]`, whatever the service would answer |
| Directions.FollowsLegs | route_parser.py:250-282 | an OK reply gives a route starting at the first leg's start and ending at the last leg's end, with no repeated neighbours |
| Directions.UndecodableStep | route_parser.py:264-304 | a polyline that fails to decode sends the whole route back to the straight line |
| Directions.FailedStatus | route_parser.py:283-304 | a failed request, a status other than "OK", or an OK with no route gives `[start] + via + [end]` |
| Directions.FromReply | route_parser.py:250-304 | the route built from a reply is the straight-line fallback or has no two equal neighbours |
| Directions.Route | route_parser.py:186-304 | the planned route is the straight-line fallback or has no two equal neighbours |
| Directions.RouteOfLegs | route_parser.py:250-282 | an OK reply with a route gives exactly the deduplicated points of its first route's legs, and the straight line when a polyline does not decode |
| Directions.StepInLegs | route_parser.py:256-270 | every point of any step of any leg is among the points of the legs |
| Directions.StepsReachRoute | route_parser.py:250-282 | nothing the service returns is lost: every step's end location and every point of its decoded polyline lies on the route |
| RouteParser.FirstDirFrom | route_parser.py:30-31 | the search finds the first `maps/dir/` not followed by `@`, and none before it |
| RouteParser.DirPath | route_parser.py:30-35 | a path is captured exactly when `maps/dir/` followed by something other than `@` occurs; it is the text after the first such occurrence up to the next `@` or the end, non-empty and without `@` |
| RouteParser.SegmentWaypoint | route_parser.py:38-60 | an empty element gives no waypoint, and an explicit `lat,lng` element gives its own point, never the geocoder's |
| RouteParser.Gather | route_parser.py:38-60 | the loop over the elements never gives more values than there are elements |
| RouteParser.GatherConcat | route_parser.py:38-60 | gathering over two runs of elements gives the first's values, then the second's |
| RouteParser.DirWaypointsConcat | route_parser.py:38-60 | the waypoints of two runs of path elements are those of the first, then those of the second |
| RouteParser.SkippedElement | route_parser.py:38-60 | an empty element, or a non-coordinate one that is blank once unquoted or that the geocoder does not find, contributes nothing |
| RouteParser.GeocodedElement | route_parser.py:52-60 | a non-coordinate element the geocoder finds contributes that point, in the element's place |
| RouteParser.ExplicitElement | route_parser.py:43-50 | an explicit `lat,lng` element contributes its own point, in the element's place |
| RouteParser.NumRunEnd | route_parser.py:96 | a run of `[-\d.]` is non-empty, holds only those characters and stops only at the end or at another character; there is none exactly where such a character is missing |
| RouteParser.DataMarkerAt | route_parser.py:96-97 | a marker match at a position spells `!2d<lng>!3d<lat>` |
| RouteParser.DataMarkerSound | route_parser.py:96-97 | a marker found is a match of `!2d([-\d.]+)!3d([-\d.]+)` whose second run is taken whole |
| RouteParser.DataMarkerComplete | route_parser.py:96-97 | wherever `!2d([-\d.]+)!3d([-\d.]+)` can match, a marker is found there, with the same first group and a second at least as long |
| RouteParser.DataMarkersFrom | route_parser.py:96-97 | every marker found occurs in the URL as `!2d<lng>!3d<lat>` |
| RouteParser.DataMarkersNone | route_parser.py:96-97 | `findall` finds nothing exactly when the pattern matches at no position |
| RouteParser.DataMarkersFirst | route_parser.py:96-97 | the first marker found is the one at the leftmost matching position, and the search resumes after it |
| RouteParser.ConvertMarkers | route_parser.py:99-101 | conversion succeeds exactly when `float()` accepts every text; point k is then (lat, lng) of marker k |
| RouteParser.CenterSpan | route_parser.py:91-92 | a map centre match at a position starts with `@` and has a comma between its two numbers |
| RouteParser.CenterAt | route_parser.py:108-111 | a map centre match always gives a point: `float()` accepts both of its numbers |
| RouteParser.CenterParses | route_parser.py:91-92 | both numbers of a map centre match have the shape `-?\d+\.\d+` and are accepted by `float()` |
| RouteParser.FirstCenterFrom | route_parser.py:91-92 | the search finds the leftmost map centre match and none before it |
| RouteParser.CenterFrom | route_parser.py:91-92 | there is no centre exactly when no position holds an `@lat,lng` match; otherwise it is the point of the leftmost match |
| RouteParser.CollectWaypoints | route_parser.py:27-60 | the loop over the path elements returns exactly DirWaypoints |
| RouteParser.ConvertDataMarkers | route_parser.py:95-101 | the loop over the markers returns exactly ConvertMarkers, with None for the ValueError |
| RouteParser.ExtractCoordinates | route_parser.py:8-119 | the extraction returns exactly Extract |
| RouteParser.Extract | route_parser.py:8-119 | nothing is found only without waypoints, and the data markers can make the extraction raise only with fewer than two waypoints |
| RouteParser.Decide | route_parser.py:66-119 | nothing is found only without waypoints, and a conversion error only with fewer than two; with two or more waypoints something is always found, and without a key it is the waypoints themselves |
| RouteParser.ExtractWithoutKey | route_parser.py:66-86 | with two or more waypoints, explicit or geocoded, and no key, the extraction returns exactly those waypoints |
| RouteParser.Fallback | route_parser.py:89-119 | what the fallback finds is never empty, and it finds nothing only without waypoints |
| RouteParser.ExtractWithKey | route_parser.py:67-83 | with two or more waypoints and a key, the result is the Directions route from the first to the last waypoint via the middle ones |
| RouteParser.ExplicitElements | route_parser.py:38-50 | path elements that are all explicit coordinates give exactly those points, in order |
| RouteParser.ExplicitPathWithoutKey | route_parser.py:30-86 | a directions path of two or more explicit coordinates, without a key, gives those points unchanged |
| RouteParser.ServiceFailureKeepsWaypoints | route_parser.py:67-86 | with a key, a failing service or a non-OK status gives back the waypoints themselves |
| RouteParser.MarkersDecide | route_parser.py:94-105 | with fewer than two waypoints, well-formed data markers decide the result, one point per marker, latitude from `!3d` |
| RouteParser.MalformedMarker | route_parser.py:99-101 | with fewer than two waypoints, one marker `float()` rejects makes the extraction raise |
| RouteParser.CenterDecides | route_parser.py:89-111 | with fewer than two waypoints and no data marker, the first map centre is the whole answer |
| RouteParser.LoneWaypoint | route_parser.py:89-115 | a single waypoint with no data marker and no map centre is returned as it is |
| RouteParser.NothingFound | route_parser.py:113-119 | nothing is found exactly when there are no waypoints, no data markers and no map centre |
| App.ValidateUrl | app.py:111-141 | a URL is accepted exactly when it is not blank, names a known domain and has route data; each rejection carries its own message |
| App.AcceptedUrl | app.py:126-135 | an accepted URL has a non-space character and contains one of the four spellings other than `www.google.com/maps`, which itself contains `google.com/maps` |
| App.KeyTests | app.py:144-147 | a configured key is one the extraction treats as present; a whitespace-only key is present there but not configured |
| App.RouteName | app.py:203 | the name is the stripped field, or "Google Maps Route" when the field is blank |
| App.Sanitize | app.py:212 | the sanitised name has the same length, only allowed characters, and keeps every allowed one where it was |
| App.SanitizeIdempotent | app.py:237 | the second sanitising pass changes nothing |
| App.SanitizeKeepsAllowed | app.py:212 | a name of allowed characters is left as it is |
| App.CoordinateGate | app.py:225-238 | a download happens only for an accepted URL with two or more extracted points; the track holds those points in order, and the filename starts with the sanitised name and `_` |
| App.ConvertDownload | app.py:201-238 | the download is the document built from the extracted points, named after the sanitised name and the day |
| App.Convert | app.py:199-251 | a download or an extraction failure (the flash carrying the exception text) happens only for an accepted URL; every other message flashed back is one of the three validation messages or the no-coordinates one; for an accepted URL, the extraction raising gives exactly the failure, nothing found or fewer than two points gives exactly the no-coordinates message, and two or more points give exactly a download |
| App.FilenamePrefix | app.py:238 | the download name starts with the name and then `_` |
| App.RejectedUrl | app.py:206-209 | a rejected URL answers with its validation message and never reaches the extraction |
| GpxGenerator.PointAt | gpx_generator.py:43-54 | point i passes the coordinate's latitude and longitude through, at elevation 0, 10·i seconds after the base time |
| GpxGenerator.TrackPoints | gpx_generator.py:43-57 | the segment has one point per coordinate, in order |
| GpxGenerator.GpxOf | gpx_generator.py:19-37 | the document has one track with one segment; the document and track carry the name, the author is fixed, and the type is the capitalised mode |
| GpxGenerator.CreateGpx | gpx_generator.py:19-57 | the building loop returns exactly GpxOf |
| GpxGenerator.TimesIncrease | gpx_generator.py:41-46 | the times strictly increase, 10 seconds per step whatever the distance |
| GpxGenerator.PointsRoundTrip | gpx_generator.py:43-57 | the coordinates read back from the segment are the input coordinates |
| MobileDownload.WithoutUnderscores | mobile_download.py:32 | `replace('_', '')` leaves no underscore and never lengthens the text |
| MobileDownload.WithoutUnderscoresAlnum | mobile_download.py:32 | the rest is alphanumeric exactly when the id held only alphanumerics and underscores |
| MobileDownload.WithoutUnderscoresNonEmpty | mobile_download.py:32 | something is left exactly when the id held something other than underscores |
| MobileDownload.ValidTempId | mobile_download.py:32 | an id is accepted exactly when it is made of letters, digits and underscores and holds at least one letter or digit |
| MobileDownload.IsValidTempId | mobile_download.py:32 | an accepted id is not empty and holds only letters, digits and underscores |
| MobileDownload.GeneratedIdValid | mobile_download.py:188 | every id `gpx_` + 16 hex digits is accepted by the `temp_id` test |
| MobileDownload.EnsureGpxSuffix | mobile_download.py:49-50 | the result ends with `.gpx`; a name already ending so is unchanged, and otherwise `.gpx` is appended |
| MobileDownload.EnsureGpxSuffixIdempotent | mobile_download.py:106-107 | fixing the suffix twice is fixing it once |
| MobileDownload.StoredName | mobile_download.py:195 | the stored name is the original one unless it is missing or empty, else `route_<token>.gpx` |
| MobileDownload.DownloadName | mobile_download.py:44-50 | the offered name ends with `.gpx` and is the stored name made safe and fixed up |
| MobileDownload.StoreAsWritten | mobile_download.py:173-197 | as written, after a store both tables hold only the new id |
| MobileDownload.StoreKeeping | mobile_download.py:188-197 | as intended, a store adds the new id and keeps every other entry |
| MobileDownload.StoreForgetsEarlier | mobile_download.py:173-177 | as written, an id stored earlier is gone from both tables after the next store |
| MobileDownload.CreatedTime | mobile_download.py:242-243 | the creation time is the recorded one when it is set and not zero, else the file's mtime |
| MobileDownload.Stale | mobile_download.py:236-247 | an entry whose file is missing is stale; one with a recorded creation time is stale exactly when that time is more than 3600 seconds ago |
| MobileDownload.Expired | mobile_download.py:235-251 | an id is collected exactly when its file is missing or it is strictly older than 3600 seconds |
| MobileDownload.CleanupSurvivors | mobile_download.py:235-256 | an id survives exactly when its file exists and it is at most an hour old; survivors keep their path and metadata |
| MobileDownload.HourOldKept | mobile_download.py:246 | an entry exactly 3600 seconds old whose file exists is kept |
| MobileDownload.CollectStale | mobile_download.py:233-251 | the collecting loop gathers exactly the expired ids |
| MobileDownload.TempFiles.Store | mobile_download.py:161-199 | the tables become StoreAsWritten of the old ones, under id `gpx_<token>` |
| MobileDownload.TempFiles.StoreKeepingEntries | mobile_download.py:188-197 | the tables become StoreKeeping of the old ones |
| MobileDownload.TempFiles.Cleanup | mobile_download.py:215-258 | both tables lose exactly the expired ids, and the count is how many there were |

## Left out

- HTTP: the short-link request, the Nominatim geocoder and the Directions request are parameters. Their failures are `None` or `Reply.Failed`.
- Flask: routes, templates, flash and redirect, headers, rate limiting, logging and `send_file` are left out. `/convert` is a function from the form fields to a `Response`.
- XML: `to_xml()` is not modelled. The model stops at the document structure `create_gpx` builds.
- Time and randomness: the clock readings, `time.time`, `secrets.token_hex`, `os.path.exists` and `os.path.getmtime` are parameters.
- Files: writing files (`mkstemp`, `unlink`) is left out.
- app.py's `create_temp_gpx_file` and `cleanup_temp_files` are not modelled. They only write and delete files, and track paths in a list.
- The download routes of mobile_download.py are not modelled beyond their `temp_id` test and download-name fix-up.
- `secure_filename` is a parameter.
- config.py is not part of this model.
- Floating point: coordinates are exact reals. `float()` gives the exact decimal value and `/ 100000.0` is exact division, so rounding is not modelled.
- Character classes: `str.isalnum`, `lower` and `capitalize` cover ASCII letters and digits only. `str.isspace` covers Python's full whitespace set. The regular-expression class `\d` and `float()` also accept ASCII digits only here, whereas Python accepts any Unicode decimal digit (Arabic-Indic digits, for example) in both.
- Regular expressions: only the patterns the code uses are hand-coded.
- Coordinates.ParseFloat: Python's `float()` also accepts surrounding whitespace, `+`, exponents, `_` between digits, `inf` and `nan`. The model returns None for those, because the code only ever passes it text matched by `[-\d.]` or `-?\d+\.\d+`.
- App.Convert: an exception during extraction is `ExtractionFailed`, without the exception text that the flashed message repeats.
- App.Convert: a failure while building or sending the GPX (app.py:254-257) is not modelled, because it comes only from I/O.
- RouteParser.Extract: the geocoder's exceptions are folded into its `None` result, as the source catches them at route_parser.py:59-60.
- Directions.Route: every exception inside the request block is `Reply.Failed`. This covers a failed request, a reply without `status` or `routes`, and a leg or step without its locations. A polyline that fails to decode is modelled separately, because it is the one failure that comes from the reply's contents.

## Findings

| source | as written | input that shows it | evidently intended | confidence | as-written member | corrected member |
|---|---|---|---|---|---|---|
| mobile_download.py:173-177 | `hasattr(app.config, 'TEMP_FILES')` tests an attribute, not a key, so it is always false and both tables are replaced by empty ones on every store | store a file under id A, then another under id B: A is no longer in `TEMP_FILES`, so its download answers 404 | create the tables only when the keys are missing, and keep earlier entries | not executed | MobileDownload.StoreForgetsEarlier | MobileDownload.StoreKeeping |
