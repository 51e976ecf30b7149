/**
  create_gpx in gpx_generator.py: the GPX document it builds before serialising it,
  one track holding one segment holding one point per coordinate, ten seconds apart.
 */
module GpxGenerator {
  import opened Text
  import opened Coordinates

  const Author := "Google Maps to GPX Converter"
  const DescriptionPrefix := "Converted from Google Maps on "
  /** The fixed spacing between consecutive points, in seconds. */
  const Spacing := 10

  /** A track point; `time` is in seconds on the same scale as the base time. */
  datatype TrackPoint = TrackPoint(lat: real, lon: real, elevation: int, time: real)

  datatype Segment = Segment(points: seq<TrackPoint>)

  /** A track; `kind` is the GPX `type` element. */
  datatype Track = Track(name: string, kind: string, segments: seq<Segment>)

  datatype Gpx = Gpx(name: string, description: string, author: string, time: real, tracks: seq<Track>)

  /** The point the loop builds for coordinate `i`. */
  function PointAt(coordinates: seq<Point>, baseTime: real, i: nat): (p: TrackPoint)
    requires i < |coordinates|
    ensures p.lat == coordinates[i].lat && p.lon == coordinates[i].lng && p.elevation == 0
    ensures p.time - baseTime == (Spacing * i) as real
  {
    TrackPoint(coordinates[i].lat, coordinates[i].lng, 0, baseTime + (Spacing * i) as real)
  }

  /** The segment's points, in the order of the coordinates. */
  function TrackPoints(coordinates: seq<Point>, baseTime: real): (ps: seq<TrackPoint>)
    ensures |ps| == |coordinates|
    ensures forall i | 0 <= i < |coordinates| :: ps[i] == PointAt(coordinates, baseTime, i)
  {
    seq(|coordinates|, i requires 0 <= i < |coordinates| => PointAt(coordinates, baseTime, i))
  }

  /** The document create_gpx builds from its inputs and the three clock readings. */
  function GpxOf(coordinates: seq<Point>, name: string, travelMode: string,
                 stamp: string, metadataTime: real, baseTime: real): (g: Gpx)
    ensures |g.tracks| == 1 && |g.tracks[0].segments| == 1
    ensures g.name == name && g.tracks[0].name == name && g.author == Author
    ensures g.tracks[0].kind == Capitalize(travelMode)
    ensures g.tracks[0].segments[0].points == TrackPoints(coordinates, baseTime)
  {
    Gpx(name, DescriptionPrefix + stamp, Author, metadataTime,
        [Track(name, Capitalize(travelMode), [Segment(TrackPoints(coordinates, baseTime))])])
  }

  /**
    create_gpx: set the metadata, add the track and its segment, then append one
    point per coordinate. `stamp` is the formatted time in the description,
    `metadataTime` the document's time and `baseTime` the first point's time.
   */
  method CreateGpx(coordinates: seq<Point>, name: string, travelMode: string,
                   stamp: string, metadataTime: real, baseTime: real) returns (g: Gpx)
    ensures g == GpxOf(coordinates, name, travelMode, stamp, metadataTime, baseTime)
  {
    var points: seq<TrackPoint> := [];
    for i := 0 to |coordinates|
      invariant points == TrackPoints(coordinates[..i], baseTime)
    {
      var secondsToAdd := i * Spacing;
      var point := TrackPoint(coordinates[i].lat, coordinates[i].lng, 0, baseTime + secondsToAdd as real);
      assert point == PointAt(coordinates[..i + 1], baseTime, i);
      points := points + [point];
    }
    assert coordinates[..|coordinates|] == coordinates;
    var segment := Segment(points);
    var track := Track(name, Capitalize(travelMode), [segment]);
    g := Gpx(name, DescriptionPrefix + stamp, Author, metadataTime, [track]);
  }

  /**
    The timestamps are strictly increasing with constant spacing: point `j` is
    ten seconds per step after point `i`, whatever the distance between them.
   */
  lemma TimesIncrease(coordinates: seq<Point>, baseTime: real, i: nat, j: nat)
    requires i < j < |coordinates|
    ensures TrackPoints(coordinates, baseTime)[j].time - TrackPoints(coordinates, baseTime)[i].time
         == (Spacing * (j - i)) as real
    ensures TrackPoints(coordinates, baseTime)[i].time < TrackPoints(coordinates, baseTime)[j].time
  {
  }

  /** The document keeps the coordinates: reading them back from the segment gives the input. */
  lemma PointsRoundTrip(coordinates: seq<Point>, name: string, travelMode: string,
                        stamp: string, metadataTime: real, baseTime: real)
    ensures var ps := GpxOf(coordinates, name, travelMode, stamp, metadataTime, baseTime).tracks[0].segments[0].points;
            seq(|ps|, i requires 0 <= i < |ps| => Point(ps[i].lat, ps[i].lon)) == coordinates
  {
  }
}
