/**
  Google's encoded polyline format, as decode_polyline in route_parser.py reads it.
  Each coordinate delta is a zig-zag signed integer written in 5-bit chunks, least
  significant chunk first, each chunk offset by 63 and flagged with 0x20 while more
  follow; a point is a latitude delta then a longitude delta, and the running sums
  divided by 100000 are the points.
 */
module Polyline {
  import opened Wrappers
  import opened Coordinates

  function Pow2(n: nat): (p: nat)
    ensures p > 0
  {
    if n == 0 then 1 else 2 * Pow2(n - 1)
  }

  /** `ord(c) - 63`: the chunk a character carries; below 0x20 it is the last one. */
  function Chunk(c: char): int {
    c as int - 63
  }

  /** `b & 0x1f`: on Python's unbounded integers, the non-negative remainder modulo 32. */
  function Low5(b: int): (c: nat)
    ensures c < 32
  {
    b % 32
  }

  /**
    The unsigned value whose chunks start at `i`, and the index just past them.
    `byte & 0x1f` on Python's unbounded integers is the non-negative remainder
    modulo 32, also for a negative `byte`. None where Python raises IndexError:
    the text ends while a chunk still says more follow.
   */
  function ReadValue(s: string, i: nat): (r: Option<(nat, nat)>)
    ensures r.Some? ==> i < r.value.1 <= |s| && Chunk(s[r.value.1 - 1]) < 32
    decreases |s| - i
  {
    if i >= |s| then None
    else
      var b := Chunk(s[i]);
      if b >= 32 then
        match ReadValue(s, i + 1)
        case None => None
        case Some((v, j)) => Some((Low5(b) + 32 * v, j))
      else
        Some((Low5(b), i + 1))
  }

  /** `~(r >> 1)` when the low bit of `r` is set, `r >> 1` otherwise. */
  function ZigZag(r: nat): int {
    if r % 2 == 1 then -(r / 2) - 1 else r / 2
  }

  /** The encoder's side of the zig-zag: `v << 1`, inverted when `v` is negative. */
  function ZigZagEncode(v: int): nat {
    if v < 0 then -2 * v - 1 else 2 * v
  }

  lemma ZigZagRoundTrip(v: int)
    ensures ZigZag(ZigZagEncode(v)) == v
  {
  }

  lemma ZigZagOnto(r: nat)
    ensures ZigZagEncode(ZigZag(r)) == r
  {
  }

  /**
    The (latitude, longitude) deltas of the points whose encoding starts at `i`.
    The loop stops exactly at the end of the text; if the text ends inside a
    point, the decoder raises IndexError (None here).
   */
  function Deltas(s: string, i: nat): Option<seq<(int, int)>>
    requires i <= |s|
    decreases |s| - i
  {
    if i == |s| then Some([])
    else
      match ReadValue(s, i)
      case None => None
      case Some((a, j)) =>
        match ReadValue(s, j)
        case None => None
        case Some((b, k)) =>
          Prepend([(ZigZag(a), ZigZag(b))], Deltas(s, k))
  }

  /** `ds` in front of the deltas in `o`, failure staying failure. */
  function Prepend(ds: seq<(int, int)>, o: Option<seq<(int, int)>>): Option<seq<(int, int)>> {
    match o
    case None => None
    case Some(rest) => Some(ds + rest)
  }

  function SumLat(ds: seq<(int, int)>): int {
    if ds == [] then 0 else SumLat(ds[..|ds| - 1]) + ds[|ds| - 1].0
  }

  function SumLng(ds: seq<(int, int)>): int {
    if ds == [] then 0 else SumLng(ds[..|ds| - 1]) + ds[|ds| - 1].1
  }

  /** An integer count of 10^-5 degrees, in degrees. */
  function E5(n: int): real {
    n as real / 100000.0
  }

  /** Point `k` is the sum of the first `k + 1` deltas, in degrees. */
  function Accumulate(ds: seq<(int, int)>): (pts: seq<Point>)
    ensures |pts| == |ds|
  {
    seq(|ds|, k requires 0 <= k < |ds| => Point(E5(SumLat(ds[..k + 1])), E5(SumLng(ds[..k + 1]))))
  }

  /** The points an encoded polyline denotes, or None where decoding raises IndexError. */
  function Decode(s: string): (r: Option<seq<Point>>)
    ensures s == [] ==> r == Some([])
    ensures r.Some? ==> 2 * |r.value| <= |s|
    ensures r.Some? && s != [] ==> r.value != []
  {
    DeltasLength(s, 0);
    match Deltas(s, 0)
    case None => None
    case Some(ds) => Some(Accumulate(ds))
  }

  /** Every point takes at least two characters, one per coordinate. */
  lemma {:induction false} DeltasLength(s: string, i: nat)
    requires i <= |s|
    ensures Deltas(s, i).Some? ==> 2 * |Deltas(s, i).value| <= |s| - i
    ensures Deltas(s, i).Some? && i < |s| ==> Deltas(s, i).value != []
    decreases |s| - i
  {
    if i < |s| {
      match ReadValue(s, i)
      case None =>
      case Some((a, j)) =>
        match ReadValue(s, j)
        case None =>
        case Some((b, k)) =>
          DeltasLength(s, k);
    }
  }

  /** The chunks of the decoder's inner loop, read one at a time. */
  method ReadChunkedValue(s: string, start: nat) returns (r: Option<(nat, nat)>)
    requires start <= |s|
    ensures r == ReadValue(s, start)
  {
    var index := start;
    var result: nat, shift: nat := 0, 0;
    while true
      invariant start <= index <= |s|
      invariant result < Pow2(shift)
      invariant ReadValue(s, start) == Shifted(result, Pow2(shift), ReadValue(s, index))
      decreases |s| - index
    {
      if index >= |s| {
        return None;
      }
      var b := Chunk(s[index]);
      // `result |= (b & 0x1f) << shift`: the bits below `shift` are the only ones
      // set in `result`, so the OR adds the shifted chunk.
      ChunkStep(s, start, index, result, shift);
      result := result + Low5(b) * Pow2(shift);
      shift := shift + 5;
      index := index + 1;
      if !(b >= 32) {
        break;
      }
    }
    r := Some((result, index));
  }

  /** ReadStep with the scale written as the power of two the loop keeps. */
  lemma ChunkStep(s: string, start: nat, i: nat, low: nat, shift: nat)
    requires i < |s| && low < Pow2(shift)
    requires ReadValue(s, start) == Shifted(low, Pow2(shift), ReadValue(s, i))
    ensures low + Low5(Chunk(s[i])) * Pow2(shift) < Pow2(shift + 5)
    ensures Chunk(s[i]) >= 32 ==>
              ReadValue(s, start) == Shifted(low + Low5(Chunk(s[i])) * Pow2(shift), Pow2(shift + 5), ReadValue(s, i + 1))
    ensures Chunk(s[i]) < 32 ==> ReadValue(s, start) == Some((low + Low5(Chunk(s[i])) * Pow2(shift), i + 1))
  {
    ReadStep(s, start, i, low, Pow2(shift));
    Pow2Five(shift);
  }

  /** Reading the chunk at `i` extends the value read so far by one more chunk. */
  lemma ReadStep(s: string, start: nat, i: nat, low: nat, scale: nat)
    requires i < |s| && low < scale
    requires ReadValue(s, start) == Shifted(low, scale, ReadValue(s, i))
    ensures low + Low5(Chunk(s[i])) * scale < scale * 32
    ensures Chunk(s[i]) >= 32 ==>
              ReadValue(s, start) == Shifted(low + Low5(Chunk(s[i])) * scale, scale * 32, ReadValue(s, i + 1))
    ensures Chunk(s[i]) < 32 ==> ReadValue(s, start) == Some((low + Low5(Chunk(s[i])) * scale, i + 1))
  {
    var c: nat := Low5(Chunk(s[i]));
    ChunkBound(low, scale, c);
    ShiftedStep(low, scale, c, ReadValue(s, i + 1));
    ReadValueStep(s, i);
  }

  /** One chunk of ReadValue: the last one, or one more in front of the rest. */
  lemma ReadValueStep(s: string, i: nat)
    requires i < |s|
    ensures Chunk(s[i]) >= 32 ==> ReadValue(s, i) == Shifted(Low5(Chunk(s[i])), 32, ReadValue(s, i + 1))
    ensures Chunk(s[i]) < 32 ==> ReadValue(s, i) == Some((Low5(Chunk(s[i])), i + 1))
  {
  }

  lemma ChunkBound(low: nat, scale: nat, c: nat)
    requires low < scale && c < 32
    ensures low + c * scale < scale * 32
  {
    assert c * scale <= 31 * scale;
  }

  /** A value read so far (`low`, below `scale`) in front of the chunks still to read. */
  function Shifted(low: nat, scale: nat, o: Option<(nat, nat)>): Option<(nat, nat)> {
    match o
    case None => None
    case Some((v, j)) => Some((low + v * scale, j))
  }

  lemma ShiftedStep(low: nat, scale: nat, c: nat, o: Option<(nat, nat)>)
    ensures Shifted(low, scale, Shifted(c, 32, o)) == Shifted(low + c * scale, scale * 32, o)
  {
    if o.Some? {
      var v := o.value.0;
      calc {
        low + (c + 32 * v) * scale;
        low + c * scale + (32 * v) * scale;
        low + c * scale + v * (scale * 32);
      }
    }
  }

  lemma Pow2Five(n: nat)
    ensures Pow2(n + 5) == Pow2(n) * 32
  {
    assert Pow2(n + 5) == 2 * Pow2(n + 4) == 4 * Pow2(n + 3);
    assert Pow2(n + 3) == 2 * Pow2(n + 2) == 4 * Pow2(n + 1) == 8 * Pow2(n);
  }

  /** decode_polyline: the outer loop reads a latitude and a longitude delta per point. */
  method DecodePolyline(s: string) returns (r: Option<seq<Point>>)
    ensures r == Decode(s)
  {
    var points: seq<Point> := [];
    var index, lat, lng := 0, 0, 0;
    ghost var done: seq<(int, int)> := [];
    PrependNothing(Deltas(s, 0));
    while index < |s|
      invariant index <= |s|
      invariant Deltas(s, 0) == Prepend(done, Deltas(s, index))
      invariant lat == SumLat(done) && lng == SumLng(done)
      invariant points == Accumulate(done)
      decreases |s| - index
    {
      ghost var start: nat, mid: nat := index, index;
      ghost var rawLat: nat, rawLng: nat := 0, 0;
      for b := 0 to 2
        invariant index <= |s|
        invariant b == 0 ==> index == start && lat == SumLat(done)
        invariant b >= 1 ==> ReadValue(s, start) == Some((rawLat, mid)) && lat == SumLat(done) + ZigZag(rawLat)
        invariant b == 1 ==> index == mid
        invariant b <= 1 ==> lng == SumLng(done)
        invariant b == 2 ==> ReadValue(s, mid) == Some((rawLng, index)) && lng == SumLng(done) + ZigZag(rawLng)
      {
        var value := ReadChunkedValue(s, index);
        if value.None? {
          // IndexError: the text ends inside this point.
          DeltasStop(s, start, mid, b);
          PrependNone(done);
          return None;
        }
        var result := ZigZag(value.value.0);
        if b == 0 {
          rawLat, mid := value.value.0, value.value.1;
          lat := lat + result;
        } else {
          rawLng := value.value.0;
          lng := lng + result;
        }
        index := value.value.1;
      }
      var d := (ZigZag(rawLat), ZigZag(rawLng));
      DeltasStep(s, start, rawLat, mid, rawLng, index);
      PrependPrepend(done, d, Deltas(s, index));
      AccumulateSnoc(done, d);
      done := done + [d];
      points := points + [Point(E5(lat), E5(lng))];
    }
    assert done + [] == done;
    r := Some(points);
  }

  lemma PrependNothing(o: Option<seq<(int, int)>>)
    ensures Prepend([], o) == o
  {
    if o.Some? {
      assert [] + o.value == o.value;
    }
  }

  lemma PrependNone(done: seq<(int, int)>)
    ensures Prepend(done, None) == None
  {
  }

  lemma PrependPrepend(done: seq<(int, int)>, d: (int, int), o: Option<seq<(int, int)>>)
    ensures Prepend(done, Prepend([d], o)) == Prepend(done + [d], o)
  {
    if o.Some? {
      assert done + ([d] + o.value) == (done + [d]) + o.value;
    }
  }

  lemma AccumulateSnoc(ds: seq<(int, int)>, d: (int, int))
    ensures Accumulate(ds + [d])
         == Accumulate(ds) + [Point(E5(SumLat(ds) + d.0), E5(SumLng(ds) + d.1))]
  {
    var xs := ds + [d];
    assert xs[..|ds| + 1] == xs && xs[..|xs| - 1] == ds;
    forall k | 0 <= k < |ds|
      ensures Accumulate(xs)[k] == Accumulate(ds)[k]
    {
      assert xs[..k + 1] == ds[..k + 1];
    }
  }

  /** A text whose last character asks for another chunk never decodes. */
  lemma {:induction false} UnfinishedValue(s: string, i: nat)
    requires i < |s| && Chunk(s[|s| - 1]) >= 32
    ensures Deltas(s, i) == None
    decreases |s| - i
  {
    match ReadValue(s, i)
    case None =>
    case Some((a, j)) =>
      match ReadValue(s, j)
      case None =>
      case Some((b, k)) =>
        assert k < |s|;
        UnfinishedValue(s, k);
  }

  lemma TruncatedPolyline(s: string)
    requires |s| > 0 && Chunk(s[|s| - 1]) >= 32
    ensures Decode(s) == None
  {
    UnfinishedValue(s, 0);
  }

  /**
    The format's encoder, written here as the decoder's partner: 5-bit chunks, least
    significant first, 0x20 on every chunk but the last, each offset by 63.
   */
  function EncodeChunks(n: nat): (e: string)
    ensures |e| > 0
    decreases n
  {
    if n < 32 then [(n + 63) as char] else [(n % 32 + 32 + 63) as char] + EncodeChunks(n / 32)
  }

  function EncodeValue(v: int): string {
    EncodeChunks(ZigZagEncode(v))
  }

  /** Each point's latitude delta then its longitude delta. */
  function EncodeDeltas(ds: seq<(int, int)>): string {
    if ds == [] then "" else EncodeValue(ds[0].0) + EncodeValue(ds[0].1) + EncodeDeltas(ds[1..])
  }

  /** Reading the chunks of `n` wherever they sit gives back `n` and the index past them. */
  lemma {:induction false} ReadEncoded(n: nat, s: string, i: nat)
    requires i + |EncodeChunks(n)| <= |s| && s[i..i + |EncodeChunks(n)|] == EncodeChunks(n)
    ensures ReadValue(s, i) == Some((n, i + |EncodeChunks(n)|))
    decreases n
  {
    var e := EncodeChunks(n);
    assert s[i] == e[0];
    if n >= 32 {
      var rest := EncodeChunks(n / 32);
      assert s[i + 1..i + 1 + |rest|] == e[1..] == rest;
      ReadEncoded(n / 32, s, i + 1);
      assert Chunk(s[i]) == n % 32 + 32;
    }
  }

  /** Decoding an encoding gives back the deltas. */
  lemma {:induction false} DeltasOfEncoding(ds: seq<(int, int)>, s: string, i: nat)
    requires i <= |s| && s[i..] == EncodeDeltas(ds)
    ensures Deltas(s, i) == Some(ds)
    decreases |ds|
  {
    if ds != [] {
      var ea, eb, rest := EncodeValue(ds[0].0), EncodeValue(ds[0].1), EncodeDeltas(ds[1..]);
      var j, k := i + |ea|, i + |ea| + |eb|;
      SliceParts(s, i, ea, eb, rest);
      ReadEncoded(ZigZagEncode(ds[0].0), s, i);
      ReadEncoded(ZigZagEncode(ds[0].1), s, j);
      ZigZagRoundTrip(ds[0].0);
      ZigZagRoundTrip(ds[0].1);
      DeltasStep(s, i, ZigZagEncode(ds[0].0), j, ZigZagEncode(ds[0].1), k);
      DeltasOfEncoding(ds[1..], s, k);
      assert [ds[0]] + ds[1..] == ds;
    } else {
      assert i == |s|;
    }
  }

  lemma SliceParts(s: string, i: nat, x: string, y: string, z: string)
    requires i <= |s| && s[i..] == x + y + z
    ensures i + |x| + |y| + |z| == |s|
    ensures s[i..i + |x|] == x && s[i + |x|..i + |x| + |y|] == y && s[i + |x| + |y|..] == z
  {
    assert s[i..i + |x|] == s[i..][..|x|];
    assert s[i + |x|..i + |x| + |y|] == s[i..][|x|..|x| + |y|];
    assert s[i + |x| + |y|..] == s[i..][|x| + |y|..];
  }

  /** A point the text ends inside of leaves no deltas. */
  lemma DeltasStop(s: string, i: nat, j: nat, b: int)
    requires i < |s| && 0 <= b < 2
    requires b == 0 ==> ReadValue(s, i).None?
    requires b == 1 ==> ReadValue(s, i).Some? && ReadValue(s, i).value.1 == j && ReadValue(s, j).None?
    ensures Deltas(s, i) == None
  {
  }

  /** One point of Deltas: two values read one after the other. */
  lemma DeltasStep(s: string, i: nat, a: nat, j: nat, b: nat, k: nat)
    requires i < |s|
    requires ReadValue(s, i) == Some((a, j)) && ReadValue(s, j) == Some((b, k))
    ensures Deltas(s, i) == Prepend([(ZigZag(a), ZigZag(b))], Deltas(s, k))
  {
  }

  /** Consecutive differences of integer coordinates, the first taken from (0, 0). */
  function Differences(pts: seq<(int, int)>): (ds: seq<(int, int)>)
    ensures |ds| == |pts|
  {
    seq(|pts|, k requires 0 <= k < |pts| =>
      if k == 0 then pts[0] else (pts[k].0 - pts[k - 1].0, pts[k].1 - pts[k - 1].1))
  }

  lemma {:induction false} SumDifferences(pts: seq<(int, int)>, k: nat)
    requires k < |pts|
    ensures SumLat(Differences(pts)[..k + 1]) == pts[k].0
    ensures SumLng(Differences(pts)[..k + 1]) == pts[k].1
  {
    var ds := Differences(pts);
    assert ds[..k + 1][..k] == ds[..k];
    if k > 0 {
      SumDifferences(pts, k - 1);
    } else {
      assert ds[..0] == [];
    }
  }

  /** A polyline through points given in units of 10^-5 degrees. */
  function Encode(pts: seq<(int, int)>): string {
    EncodeDeltas(Differences(pts))
  }

  /** Decoding an encoded polyline gives back its points, in degrees. */
  lemma DecodeEncode(pts: seq<(int, int)>)
    ensures Decode(Encode(pts)) == Some(seq(|pts|, k requires 0 <= k < |pts| => Point(E5(pts[k].0), E5(pts[k].1))))
  {
    var s := Encode(pts);
    assert s[0..] == s;
    DeltasOfEncoding(Differences(pts), s, 0);
    AccumulateDifferences(pts);
  }

  /** Summing the differences of the points gives the points back, scaled to degrees. */
  lemma AccumulateDifferences(pts: seq<(int, int)>)
    ensures Accumulate(Differences(pts)) == seq(|pts|, k requires 0 <= k < |pts| => Point(E5(pts[k].0), E5(pts[k].1)))
  {
    var want := seq(|pts|, k requires 0 <= k < |pts| => Point(E5(pts[k].0), E5(pts[k].1)));
    forall k | 0 <= k < |pts|
      ensures Accumulate(Differences(pts))[k] == want[k]
    {
      SumDifferences(pts, k);
    }
  }

  /** A one-point polyline: one step north-west of (0, 0) in each direction's smallest unit. */
  lemma SmallestSteps()
    ensures Decode("A@") == Some([Point(0.00001, -0.00001)])
  {
    assert ReadValue("A@", 0) == Some((2, 1));
    assert ReadValue("A@", 1) == Some((1, 2));
    assert Deltas("A@", 2) == Some([]);
    DeltasStep("A@", 0, 2, 1, 1, 2);
    assert ZigZag(2) == 1 && ZigZag(1) == -1;
    var ds := [(1, -1)];
    assert ds + [] == ds;
    assert Deltas("A@", 0) == Some(ds);
    assert ds[..1] == ds && ds[..0] == [];
    assert SumLat(ds) == 1 && SumLng(ds) == -1;
    assert E5(1) == 0.00001 && E5(-1) == -0.00001;
    assert Accumulate(ds)[0] == Point(0.00001, -0.00001);
    assert Accumulate(ds) == [Point(0.00001, -0.00001)];
  }

  /** The example polyline of Google's Encoded Polyline Algorithm Format documentation. */
  const Documented := "_p~iF~ps|U_ulLnnqC_mqNvxq`@"

  /** One more chunk in front of a value already read: `b` is its chunk, with the 0x20 flag set. */
  lemma ChunkBefore(s: string, i: nat, b: int, v: nat, end: nat)
    requires i < |s| && Chunk(s[i]) == b && 32 <= b < 64
    requires ReadValue(s, i + 1) == Some((v, end))
    ensures ReadValue(s, i) == Some((b - 32 + 32 * v, end))
  {
  }

  /** The last chunk of a value: `b` is below 0x20. */
  lemma LastChunk(s: string, i: nat, b: int)
    requires i < |s| && Chunk(s[i]) == b && 0 <= b < 32
    ensures ReadValue(s, i) == Some((b, i + 1))
  {
  }

  lemma DocumentedValue0(s: string)
    requires |s| >= 5 && s[0] == '_' && s[1] == 'p' && s[2] == '~' && s[3] == 'i' && s[4] == 'F'
    ensures ReadValue(s, 0) == Some((7700000, 5))
  {
    LastChunk(s, 4, 7);
    ChunkBefore(s, 3, 42, 7, 5);
    ChunkBefore(s, 2, 63, 234, 5);
    ChunkBefore(s, 1, 49, 7519, 5);
    ChunkBefore(s, 0, 32, 240625, 5);
  }

  lemma DocumentedValue5(s: string)
    requires |s| >= 10 && s[5] == '~' && s[6] == 'p' && s[7] == 's' && s[8] == '|' && s[9] == 'U'
    ensures ReadValue(s, 5) == Some((24039999, 10))
  {
    LastChunk(s, 9, 22);
    ChunkBefore(s, 8, 61, 22, 10);
    ChunkBefore(s, 7, 52, 733, 10);
    ChunkBefore(s, 6, 49, 23476, 10);
    ChunkBefore(s, 5, 63, 751249, 10);
  }

  lemma DocumentedValue10(s: string)
    requires |s| >= 14 && s[10] == '_' && s[11] == 'u' && s[12] == 'l' && s[13] == 'L'
    ensures ReadValue(s, 10) == Some((440000, 14))
  {
    LastChunk(s, 13, 13);
    ChunkBefore(s, 12, 45, 13, 14);
    ChunkBefore(s, 11, 54, 429, 14);
    ChunkBefore(s, 10, 32, 13750, 14);
  }

  lemma DocumentedValue14(s: string)
    requires |s| >= 18 && s[14] == 'n' && s[15] == 'n' && s[16] == 'q' && s[17] == 'C'
    ensures ReadValue(s, 14) == Some((149999, 18))
  {
    LastChunk(s, 17, 4);
    ChunkBefore(s, 16, 50, 4, 18);
    ChunkBefore(s, 15, 47, 146, 18);
    ChunkBefore(s, 14, 47, 4687, 18);
  }

  lemma DocumentedValue18(s: string)
    requires |s| >= 22 && s[18] == '_' && s[19] == 'm' && s[20] == 'q' && s[21] == 'N'
    ensures ReadValue(s, 18) == Some((510400, 22))
  {
    LastChunk(s, 21, 15);
    ChunkBefore(s, 20, 50, 15, 22);
    ChunkBefore(s, 19, 46, 498, 22);
    ChunkBefore(s, 18, 32, 15950, 22);
  }

  lemma DocumentedValue22(s: string)
    requires |s| >= 27 && s[22] == 'v' && s[23] == 'x' && s[24] == 'q' && s[25] == '`' && s[26] == '@'
    ensures ReadValue(s, 22) == Some((1100599, 27))
  {
    LastChunk(s, 26, 1);
    ChunkBefore(s, 25, 33, 1, 27);
    ChunkBefore(s, 24, 50, 33, 27);
    ChunkBefore(s, 23, 57, 1074, 27);
    ChunkBefore(s, 22, 55, 34393, 27);
  }

  /** The characters of the documented example, five at a time. */
  lemma DocumentedChars0(s: string)
    requires s == Documented
    ensures |s| == 27 && s[0] == '_' && s[1] == 'p' && s[2] == '~' && s[3] == 'i' && s[4] == 'F'
  {
  }

  lemma DocumentedChars5(s: string)
    requires s == Documented
    ensures |s| == 27 && s[5] == '~' && s[6] == 'p' && s[7] == 's' && s[8] == '|' && s[9] == 'U'
  {
  }

  lemma DocumentedChars10(s: string)
    requires s == Documented
    ensures |s| == 27 && s[10] == '_' && s[11] == 'u' && s[12] == 'l' && s[13] == 'L'
  {
  }

  lemma DocumentedChars14(s: string)
    requires s == Documented
    ensures |s| == 27 && s[14] == 'n' && s[15] == 'n' && s[16] == 'q' && s[17] == 'C'
  {
  }

  lemma DocumentedChars18(s: string)
    requires s == Documented
    ensures |s| == 27 && s[18] == '_' && s[19] == 'm' && s[20] == 'q' && s[21] == 'N'
  {
  }

  lemma DocumentedChars22(s: string)
    requires s == Documented
    ensures |s| == 27 && s[22] == 'v' && s[23] == 'x' && s[24] == 'q' && s[25] == '`' && s[26] == '@'
  {
  }

  /** The deltas of the documented example, in units of 10^-5 degrees. */
  lemma DocumentedDeltas(s: string)
    requires s == Documented
    ensures Deltas(s, 0) == Some([(3850000, -12020000), (220000, -75000), (255200, -550300)])
  {
    DocumentedChars0(s);
    DocumentedValue0(s);
    DocumentedChars5(s);
    DocumentedValue5(s);
    DocumentedChars10(s);
    DocumentedValue10(s);
    DocumentedChars14(s);
    DocumentedValue14(s);
    DocumentedChars18(s);
    DocumentedValue18(s);
    DocumentedChars22(s);
    DocumentedValue22(s);
    assert Deltas(s, 27) == Some([]);
    DeltasStep(s, 18, 510400, 22, 1100599, 27);
    assert ZigZag(510400) == 255200 && ZigZag(1100599) == -550300;
    assert [(255200, -550300)] + [] == [(255200, -550300)];
    DeltasStep(s, 10, 440000, 14, 149999, 18);
    assert ZigZag(440000) == 220000 && ZigZag(149999) == -75000;
    assert [(220000, -75000)] + [(255200, -550300)] == [(220000, -75000), (255200, -550300)];
    DeltasStep(s, 0, 7700000, 5, 24039999, 10);
    assert ZigZag(7700000) == 3850000 && ZigZag(24039999) == -12020000;
    assert [(3850000, -12020000)] + [(220000, -75000), (255200, -550300)]
        == [(3850000, -12020000), (220000, -75000), (255200, -550300)];
  }

  /** The running sums of three deltas. */
  lemma SumsOfThree(ds: seq<(int, int)>)
    requires |ds| == 3
    ensures SumLat(ds[..1]) == ds[0].0 && SumLng(ds[..1]) == ds[0].1
    ensures SumLat(ds[..2]) == ds[0].0 + ds[1].0 && SumLng(ds[..2]) == ds[0].1 + ds[1].1
    ensures SumLat(ds[..3]) == ds[0].0 + ds[1].0 + ds[2].0
    ensures SumLng(ds[..3]) == ds[0].1 + ds[1].1 + ds[2].1
  {
    assert ds[..1][..0] == [];
    assert ds[..2][..1] == ds[..1];
    assert ds[..3][..2] == ds[..2];
  }

  /** The running sums of the documented example's deltas, still in units of 10^-5 degrees. */
  lemma DocumentedSums(ds: seq<(int, int)>)
    requires ds == [(3850000, -12020000), (220000, -75000), (255200, -550300)]
    ensures Accumulate(ds) == [Point(E5(3850000), E5(-12020000)), Point(E5(4070000), E5(-12095000)),
                               Point(E5(4325200), E5(-12645300))]
  {
    SumsOfThree(ds);
    var pts := Accumulate(ds);
    assert pts[0] == Point(E5(3850000), E5(-12020000));
    assert pts[1] == Point(E5(4070000), E5(-12095000));
    assert pts[2] == Point(E5(4325200), E5(-12645300));
  }

  /** The documented example's sums, scaled to degrees. */
  lemma DocumentedDegrees()
    ensures E5(3850000) == 38.5 && E5(-12020000) == -120.2
    ensures E5(4070000) == 40.7 && E5(-12095000) == -120.95
    ensures E5(4325200) == 43.252 && E5(-12645300) == -126.453
  {
  }

  /**
    Google's documented example decodes to (38.5, -120.2), (40.7, -120.95) and
    (43.252, -126.453).
   */
  lemma DocumentedExample()
    ensures Decode(Documented) == Some([Point(38.5, -120.2), Point(40.7, -120.95), Point(43.252, -126.453)])
  {
    DocumentedDeltas(Documented);
    DocumentedSums([(3850000, -12020000), (220000, -75000), (255200, -550300)]);
    DocumentedDegrees();
  }

  lemma EmptyPolyline()
    ensures Decode("") == Some([])
  {
  }
}
