/**
  Waypoints and the decimal text they are read from. Python's `float()` is applied
  in route_parser.py only to text the regular expressions drew from `-`, `.` and
  digits; on such text the model gives the exact decimal value, or None where
  Python raises ValueError.
 */
module Coordinates {
  import opened Wrappers
  import opened Text

  /** A (latitude, longitude) pair in decimal degrees. */
  datatype Point = Point(lat: real, lng: real)

  /** A character of the class `[-\d.]`. */
  predicate IsNumChar(c: char) { c == '-' || c == '.' || IsDigit(c) }

  predicate AllDigits(s: string) {
    forall i | 0 <= i < |s| :: IsDigit(s[i])
  }

  function DigitValue(c: char): nat
    requires IsDigit(c)
  {
    c as int - '0' as int
  }

  /** The number a string of decimal digits denotes ("" denotes 0). */
  function DigitsValue(s: string): nat
    requires AllDigits(s)
  {
    if s == [] then 0 else DigitsValue(s[..|s| - 1]) * 10 + DigitValue(s[|s| - 1])
  }

  function Pow10(n: nat): (p: nat)
    ensures p > 0
  {
    if n == 0 then 1 else 10 * Pow10(n - 1)
  }

  /** `x` divided by ten `places` times. */
  function Shift(x: real, places: nat): (r: real)
    ensures x >= 0.0 ==> r >= 0.0
  {
    if places == 0 then x else Shift(x, places - 1) / 10.0
  }

  /** The value of a decimal with whole part `whole` and fraction digits `frac` (`places` of them). */
  function DecimalValue(whole: nat, frac: nat, places: nat): real {
    whole as real + Shift(frac as real, places)
  }

  /** Dividing ten times `places` times is dividing by the power of ten. */
  lemma {:induction false} ShiftScales(x: real, places: nat)
    ensures Shift(x, places) * Pow10(places) as real == x
  {
    if places > 0 {
      ShiftScales(x, places - 1);
      assert Pow10(places) as real == 10.0 * Pow10(places - 1) as real;
    }
  }

  /** The decimal `whole.frac` with `places` fraction digits is `(whole * 10^places + frac) / 10^places`. */
  lemma DecimalValueScaled(whole: nat, frac: nat, places: nat)
    ensures DecimalValue(whole, frac, places) * Pow10(places) as real == (whole * Pow10(places) + frac) as real
  {
    ShiftScales(frac as real, places);
  }

  /** `float(u)` for text without a sign. */
  function ParseUnsigned(u: string): (r: Option<real>)
    ensures r.Some? ==> r.value >= 0.0 && u != [] && u != "."
  {
    match IndexOfChar(u, '.', 0)
    case None =>
      if u != [] && AllDigits(u) then Some(DigitsValue(u) as real) else None
    case Some(k) =>
      var whole, frac := u[..k], u[k + 1..];
      if (whole != [] || frac != []) && AllDigits(whole) && AllDigits(frac) then
        Some(DecimalValue(DigitsValue(whole), DigitsValue(frac), |frac|))
      else
        None
  }

  /** `float(t)` for text drawn from `-`, `.` and digits; None where Python raises ValueError. */
  function ParseFloat(t: string): (r: Option<real>)
    ensures r.Some? ==> t != [] && t != "-" && t != "."
    ensures r.Some? && t[0] == '-' ==> r.value <= 0.0
    ensures r.Some? && t[0] != '-' ==> r.value >= 0.0
  {
    if |t| > 0 && t[0] == '-' then
      match ParseUnsigned(t[1..])
      case None => None
      case Some(v) => Some(-v)
    else
      ParseUnsigned(t)
  }

  function Unsigned(t: string): string {
    if |t| > 0 && t[0] == '-' then t[1..] else t
  }

  /** The regular-expression fragment `-?\d+\.\d+` matched by the whole of `t`. */
  predicate IsStrictDecimal(t: string) {
    var u := Unsigned(t);
    match IndexOfChar(u, '.', 0)
    case None => false
    case Some(k) => 0 < k && k + 1 < |u| && AllDigits(u[..k]) && AllDigits(u[k + 1..])
  }

  /** Text the pattern `-?\d+\.\d+` accepts is always a valid `float()` argument. */
  lemma StrictDecimalParses(t: string)
    requires IsStrictDecimal(t)
    ensures ParseFloat(t).Some?
  {
  }

  /**
    The end of the match of `-?\d+\.\d+` that starts at `q`, as Python's regular
    expressions find it (greedy, so each digit run is taken whole).
   */
  function StrictDecimalEnd(s: string, q: nat): (e: Option<nat>)
    requires q <= |s|
    ensures e.Some? ==> q < e.value <= |s|
    ensures e.Some? ==> e.value == |s| || !IsDigit(s[e.value])
  {
    var a := if q < |s| && s[q] == '-' then q + 1 else q;
    var b := SpanWhile(s, a, IsDigit);
    if b == a || b == |s| || s[b] != '.' then None
    else
      var c := SpanWhile(s, b + 1, IsDigit);
      if c == b + 1 then None
      else Some(c)
  }

  /** What the matcher finds is a match: the text from `q` to its end has the form `-?\d+\.\d+`. */
  lemma StrictDecimalSound(s: string, q: nat)
    requires q <= |s| && StrictDecimalEnd(s, q).Some?
    ensures IsStrictDecimal(s[q..StrictDecimalEnd(s, q).value])
  {
    var e := StrictDecimalEnd(s, q).value;
    var a := if q < |s| && s[q] == '-' then q + 1 else q;
    var b := SpanWhile(s, a, IsDigit);
    assert a < b < |s| && s[b] == '.';
    var c := SpanWhile(s, b + 1, IsDigit);
    assert c == e;
    StrictDecimalAt(s, q, a, b, c);
  }

  lemma StrictDecimalAt(s: string, q: nat, a: nat, b: nat, c: nat)
    requires q <= a <= q + 1 && a < b && b + 1 < c <= |s|
    requires a == q + 1 <==> s[q] == '-'
    requires forall m | a <= m < b :: IsDigit(s[m])
    requires s[b] == '.'
    requires forall m | b < m < c :: IsDigit(s[m])
    ensures IsStrictDecimal(s[q..c])
  {
    var t := s[q..c];
    var u := Unsigned(t);
    assert u == s[a..c];
    assert forall m | 0 <= m < |u| :: u[m] == s[a + m];
    StrictUnsigned(u, b - a);
  }

  /**
    The match is found whenever the pattern can match at `q` at all, and it is the
    longest: every `e` with `s[q..e]` of the form `-?\d+\.\d+` ends at or before it.
   */
  lemma StrictDecimalLongest(s: string, q: nat, e: nat)
    requires q <= e <= |s| && IsStrictDecimal(s[q..e])
    ensures StrictDecimalEnd(s, q).Some? && e <= StrictDecimalEnd(s, q).value
  {
    var a := if q < |s| && s[q] == '-' then q + 1 else q;
    var u := Unsigned(s[q..e]);
    if a == q + 1 {
      assert s[q..e][1..] == s[a..e];
    }
    assert u == s[a..e];
    var k := IndexOfChar(u, '.', 0).value;
    UnsignedDigits(s, a, e, k);
  }

  /** `s[a..e]` is digits, a point at `a + k`, digits: the spans the matcher takes end there and at `e` or later. */
  lemma UnsignedDigits(s: string, a: nat, e: nat, k: nat)
    requires a <= e <= |s| && 0 < k && k + 1 < e - a
    requires s[a + k] == '.' && AllDigits(s[a..e][..k]) && AllDigits(s[a..e][k + 1..])
    ensures SpanWhile(s, a, IsDigit) == a + k
    ensures SpanWhile(s, a + k + 1, IsDigit) >= e
  {
    forall m | a <= m < a + k
      ensures IsDigit(s[m])
    {
      assert s[a..e][..k][m - a] == s[m];
    }
    forall m | a + k < m < e
      ensures IsDigit(s[m])
    {
      assert s[a..e][k + 1..][m - a - k - 1] == s[m];
    }
  }

  /** Digits, a point, digits: the point is the first one, with digits on both sides. */
  lemma StrictUnsigned(u: string, k: nat)
    requires 0 < k && k + 1 < |u| && u[k] == '.'
    requires forall m | 0 <= m < k :: IsDigit(u[m])
    requires forall m | k < m < |u| :: IsDigit(u[m])
    ensures IndexOfChar(u, '.', 0) == Some(k) && AllDigits(u[..k]) && AllDigits(u[k + 1..])
  {
    assert forall m | 0 <= m < k :: u[m] != '.';
    var f := u[k + 1..];
    assert forall m | 0 <= m < |f| :: f[m] == u[k + 1 + m];
  }

  /**
    An explicit `lat,lng` path segment: the whole segment matches
    `^(-?\d+\.\d+),(-?\d+\.\d+)$`. Python's `$` also matches just before a final
    newline, so one trailing "\n" is allowed.
   */
  function CoordSegment(e: string): (p: Option<Point>)
    ensures p.Some? ==> e != [] && (e[0] == '-' ==> p.value.lat <= 0.0) && (e[0] != '-' ==> p.value.lat >= 0.0)
  {
    match SplitComma(SegmentBody(e))
    case None => None
    case Some((la, lo)) =>
      if IsStrictDecimal(la) && IsStrictDecimal(lo) then
        StrictDecimalParses(la);
        StrictDecimalParses(lo);
        Some(Point(ParseFloat(la).value, ParseFloat(lo).value))
      else
        None
  }

  /** The segment without the one trailing newline `$` lets through. */
  function SegmentBody(e: string): string {
    if |e| > 0 && e[|e| - 1] == '\n' then e[..|e| - 1] else e
  }

  /** The text before and after the first comma, if there is one. */
  function SplitComma(body: string): Option<(string, string)> {
    match IndexOfChar(body, ',', 0)
    case None => None
    case Some(k) => Some((body[..k], body[k + 1..]))
  }

  /** The two halves and the comma between them make up the whole. */
  lemma SplitCommaParts(body: string)
    requires SplitComma(body).Some?
    ensures body == SplitComma(body).value.0 + [','] + SplitComma(body).value.1
  {
    var k := IndexOfChar(body, ',', 0).value;
    assert body == body[..k] + [','] + body[k + 1..];
  }

  /** The digit character for 0..9. */
  function DigitChar(d: nat): (c: char)
    requires d < 10
    ensures IsDigit(c) && DigitValue(c) == d
  {
    (d + '0' as int) as char
  }

  /** `n` written with exactly `width` digits, zero-padded. */
  function Digits(n: nat, width: nat): (s: string)
    requires n < Pow10(width)
    ensures |s| == width && AllDigits(s)
  {
    if width == 0 then "" else Digits(n / 10, width - 1) + [DigitChar(n % 10)]
  }

  /** How many digits `n` needs. */
  function Width(n: nat): (w: nat)
    ensures 0 < w && n < Pow10(w)
  {
    if n < 10 then 1 else Width(n / 10) + 1
  }

  lemma {:induction false} DigitsValueOfDigits(n: nat, width: nat)
    requires n < Pow10(width)
    ensures DigitsValue(Digits(n, width)) == n
  {
    if width > 0 {
      var s := Digits(n, width);
      assert s[..|s| - 1] == Digits(n / 10, width - 1);
      DigitsValueOfDigits(n / 10, width - 1);
    }
  }

  /** `v` negated when `negative`. */
  function SignedValue(negative: bool, v: real): real {
    if negative then -v else v
  }

  /** `u` with a minus in front when `negative`. */
  function Signed(negative: bool, u: string): string {
    if negative then "-" + u else u
  }

  /** The text of a decimal given its sign, whole part and `places` fraction digits. */
  function DecimalText(negative: bool, whole: nat, frac: nat, places: nat): string
    requires places > 0 && frac < Pow10(places)
  {
    Signed(negative, Digits(whole, Width(whole)) + "." + Digits(frac, places))
  }

  /**
    Digits, a point and digits, either run possibly empty but not both: `float()`
    reads whole part plus fraction, so "12." is 12 and ".5" is one half.
   */
  lemma UnsignedDecimalText(ws: string, fs: string)
    requires AllDigits(ws) && AllDigits(fs) && (ws != [] || fs != [])
    ensures ws != [] && fs != [] ==> IsStrictDecimal(ws + "." + fs)
    ensures ParseUnsigned(ws + "." + fs) == Some(DecimalValue(DigitsValue(ws), DigitsValue(fs), |fs|))
  {
    assert forall m | 0 <= m < |ws| :: ws[m] != '.';
    FirstOccurrence(ws, '.', fs);
  }

  /** Digits alone: `float()` reads the integer they denote. */
  lemma UnsignedIntegerText(ws: string)
    requires AllDigits(ws) && ws != []
    ensures ParseUnsigned(ws) == Some(DigitsValue(ws) as real)
  {
    assert forall m | 0 <= m < |ws| :: ws[m] != '.';
  }

  /** A leading minus is read as negation and is not part of the unsigned text. */
  lemma ParseSigned(negative: bool, u: string, v: real)
    requires u != [] && u[0] != '-'
    requires ParseUnsigned(u) == Some(v)
    ensures Unsigned(Signed(negative, u)) == u
    ensures ParseFloat(Signed(negative, u)) == Some(SignedValue(negative, v))
  {
    if negative {
      assert ("-" + u)[1..] == u;
    }
  }

  /** Digits, a point and digits (one run possibly empty) with an optional minus in front. */
  lemma SignedDecimalText(negative: bool, ws: string, fs: string)
    requires AllDigits(ws) && AllDigits(fs) && (ws != [] || fs != [])
    ensures ws != [] && fs != [] ==> IsStrictDecimal(Signed(negative, ws + "." + fs))
    ensures ParseFloat(Signed(negative, ws + "." + fs))
         == Some(SignedValue(negative, DecimalValue(DigitsValue(ws), DigitsValue(fs), |fs|)))
  {
    var u := ws + "." + fs;
    UnsignedDecimalText(ws, fs);
    assert u[0] == if ws != [] then ws[0] else '.';
    ParseSigned(negative, u, DecimalValue(DigitsValue(ws), DigitsValue(fs), |fs|));
    ParseSigned(false, u, DecimalValue(DigitsValue(ws), DigitsValue(fs), |fs|));
  }

  /** The text of a decimal reads back as its value, and has the shape `-?\d+\.\d+`. */
  lemma ParseDecimalText(negative: bool, whole: nat, frac: nat, places: nat)
    requires places > 0 && frac < Pow10(places)
    ensures IsStrictDecimal(DecimalText(negative, whole, frac, places))
    ensures ParseFloat(DecimalText(negative, whole, frac, places))
         == Some(SignedValue(negative, DecimalValue(whole, frac, places)))
  {
    var ws, fs := Digits(whole, Width(whole)), Digits(frac, places);
    DigitsValueOfDigits(whole, Width(whole));
    DigitsValueOfDigits(frac, places);
    SignedDecimalText(negative, ws, fs);
    assert DecimalText(negative, whole, frac, places) == Signed(negative, ws + "." + fs);
  }

  /** The text of an integer, a minus in front when `negative`: `float()` reads it back ("12" is 12). */
  lemma ParseIntegerText(negative: bool, whole: nat)
    ensures ParseFloat(Signed(negative, Digits(whole, Width(whole)))) == Some(SignedValue(negative, whole as real))
  {
    var ws := Digits(whole, Width(whole));
    DigitsValueOfDigits(whole, Width(whole));
    UnsignedIntegerText(ws);
    ParseSigned(negative, ws, whole as real);
  }

  /** An integer followed by a bare point reads back as that integer ("12." is 12). */
  lemma ParseTrailingPointText(negative: bool, whole: nat)
    ensures ParseFloat(Signed(negative, Digits(whole, Width(whole)) + ".")) == Some(SignedValue(negative, whole as real))
  {
    var ws := Digits(whole, Width(whole));
    DigitsValueOfDigits(whole, Width(whole));
    SignedDecimalText(negative, ws, "");
    assert ws + "." + "" == ws + ".";
  }

  /** A point and `places` fraction digits, no whole part, read back as the fraction alone (".5" is one half). */
  lemma ParseLeadingPointText(negative: bool, frac: nat, places: nat)
    requires places > 0 && frac < Pow10(places)
    ensures ParseFloat(Signed(negative, "." + Digits(frac, places)))
         == Some(SignedValue(negative, DecimalValue(0, frac, places)))
  {
    var fs := Digits(frac, places);
    var u := "." + fs;
    DigitsValueOfDigits(frac, places);
    assert AllDigits("") && DigitsValue("") == 0;
    UnsignedDecimalText("", fs);
    assert "" + "." + fs == u;
    assert ParseUnsigned(u) == Some(DecimalValue(0, frac, places));
    ParseSigned(negative, u, DecimalValue(0, frac, places));
  }

  /**
    The text `float()` accepts among that drawn from `-`, `.` and digits: an optional
    leading minus, then digits with at most one point, and at least one digit.
   */
  predicate FloatSyntax(t: string) {
    if |t| > 0 && t[0] == '-' then UnsignedSyntax(t[1..]) else UnsignedSyntax(t)
  }

  predicate UnsignedSyntax(u: string) {
    && (forall i | 0 <= i < |u| :: IsDigit(u[i]) || u[i] == '.')
    && (forall i, j | 0 <= i < j < |u| :: u[i] == '.' ==> u[j] != '.')
    && (exists i | 0 <= i < |u| :: IsDigit(u[i]))
  }

  /** `float()` succeeds exactly on text of that syntax: "1.2.3", "1-2", "--1", "-" and "." are rejected. */
  lemma ParseFloatAccepts(t: string)
    ensures ParseFloat(t).Some? <==> FloatSyntax(t)
  {
    if |t| > 0 && t[0] == '-' {
      ParseUnsignedAccepts(t[1..]);
    } else {
      ParseUnsignedAccepts(t);
    }
  }

  lemma ParseUnsignedAccepts(u: string)
    ensures ParseUnsigned(u).Some? <==> UnsignedSyntax(u)
  {
    match IndexOfChar(u, '.', 0)
    case None =>
      if UnsignedSyntax(u) {
        assert AllDigits(u);
      }
      if ParseUnsigned(u).Some? {
        assert IsDigit(u[0]);
      }
    case Some(k) =>
      var whole, frac := u[..k], u[k + 1..];
      if UnsignedSyntax(u) {
        assert AllDigits(whole) by {
          forall m | 0 <= m < k ensures IsDigit(whole[m]) { assert whole[m] == u[m]; }
        }
        assert AllDigits(frac) by {
          forall m | 0 <= m < |frac| ensures IsDigit(frac[m]) { assert frac[m] == u[k + 1 + m]; }
        }
        var i :| 0 <= i < |u| && IsDigit(u[i]);
        assert i < k || i > k;
      }
      if ParseUnsigned(u).Some? {
        UnsignedSyntaxOf(u, k);
      }
  }

  /** Digits, the point at `k`, digits, with a digit somewhere: the unsigned syntax. */
  lemma UnsignedSyntaxOf(u: string, k: nat)
    requires k < |u| && u[k] == '.' && (k > 0 || k + 1 < |u|)
    requires AllDigits(u[..k]) && AllDigits(u[k + 1..])
    ensures UnsignedSyntax(u)
  {
    forall i | 0 <= i < |u| && i != k
      ensures IsDigit(u[i])
    {
      if i < k { assert u[i] == u[..k][i]; } else { assert u[i] == u[k + 1..][i - k - 1]; }
    }
    if k > 0 {
      assert IsDigit(u[0]);
    } else {
      assert IsDigit(u[k + 1]);
    }
  }

  /** Python's readings of a few texts of `[-\d.]`: "12" and "12." are 12, ".5" and "-.5" are plus and minus one half. */
  lemma FloatExamples()
    ensures ParseFloat("12") == Some(12.0) && ParseFloat("12.") == Some(12.0)
    ensures ParseFloat(".5") == Some(0.5) && ParseFloat("-.5") == Some(-0.5)
  {
    TwelveExample("12", "12.");
    HalfExample(false, ".5");
    HalfExample(true, "-.5");
  }

  lemma TwelveExample(t: string, t': string)
    requires t == "12" && t' == "12."
    ensures ParseFloat(t) == Some(12.0) && ParseFloat(t') == Some(12.0)
  {
    assert DigitsValue(t[..1]) == 1;
    assert DigitsValue(t) == 12;
    UnsignedIntegerText(t);
    assert ParseFloat(t) == ParseUnsigned(t);
    SignedDecimalText(false, t, "");
    assert t + "." + "" == t';
  }

  lemma HalfExample(negative: bool, t: string)
    requires t == Signed(negative, ".5")
    ensures ParseFloat(t) == Some(SignedValue(negative, 0.5))
  {
    var fs := "5";
    assert DigitsValue(fs) == 5;
    assert Shift(5.0, 1) == Shift(5.0, 0) / 10.0 == 0.5;
    SignedDecimalText(negative, "", fs);
    assert "" + "." + fs == ".5";
  }

  /** Python rejects "1.2.3" (two points), "1-2" (a minus inside) and "-" (no digit). */
  lemma FloatRejections()
    ensures ParseFloat("1.2.3") == None && ParseFloat("1-2") == None && ParseFloat("-") == None
  {
    Rejected("1.2.3");
    Rejected("1-2");
  }

  lemma Rejected(t: string)
    requires t == "1.2.3" || t == "1-2"
    ensures ParseFloat(t) == None
  {
    ParseFloatAccepts(t);
    if t == "1.2.3" {
      assert t[1] == '.' && t[3] == '.';
    } else {
      assert t[1] == '-';
    }
  }

  /** Text matching `-?\d+\.\d+` holds only minus signs, points and digits. */
  lemma StrictDecimalChars(t: string)
    requires IsStrictDecimal(t)
    ensures forall i | 0 <= i < |t| :: IsNumChar(t[i])
  {
    var u := Unsigned(t);
    var k := IndexOfChar(u, '.', 0).value;
    assert forall i | 0 <= i < |u| :: IsNumChar(u[i]) by {
      forall i | 0 <= i < |u| ensures IsNumChar(u[i]) {
        if i < k { assert u[i] == u[..k][i]; }
        else if i > k { assert u[i] == u[k + 1..][i - k - 1]; }
      }
    }
    if |t| > 0 && t[0] == '-' {
      assert forall i | 1 <= i < |t| :: t[i] == u[i - 1];
    }
  }

  /** Two strict decimals joined by a comma form an explicit segment naming the point they denote. */
  lemma CoordSegmentOf(la: string, lo: string)
    requires IsStrictDecimal(la) && IsStrictDecimal(lo)
    ensures ParseFloat(la).Some? && ParseFloat(lo).Some?
    ensures CoordSegment(la + "," + lo) == Some(Point(ParseFloat(la).value, ParseFloat(lo).value))
  {
    var e := la + "," + lo;
    StrictDecimalChars(la);
    StrictDecimalChars(lo);
    assert e[|e| - 1] == lo[|lo| - 1];
    assert forall m | 0 <= m < |la| :: la[m] != ',';
    FirstOccurrence(la, ',', lo);
    assert SegmentBody(e) == e;
    assert SplitComma(e) == Some((la, lo));
    StrictDecimalParses(la);
    StrictDecimalParses(lo);
  }

  /** A segment written from two decimals reads back as the point they denote. */
  lemma ParseCoordSegment(latNeg: bool, latWhole: nat, latFrac: nat, latPlaces: nat,
                          lngNeg: bool, lngWhole: nat, lngFrac: nat, lngPlaces: nat)
    requires latPlaces > 0 && latFrac < Pow10(latPlaces)
    requires lngPlaces > 0 && lngFrac < Pow10(lngPlaces)
    ensures CoordSegment(DecimalText(latNeg, latWhole, latFrac, latPlaces) + "," + DecimalText(lngNeg, lngWhole, lngFrac, lngPlaces))
         == Some(Point(SignedValue(latNeg, DecimalValue(latWhole, latFrac, latPlaces)),
                       SignedValue(lngNeg, DecimalValue(lngWhole, lngFrac, lngPlaces))))
  {
    ParseDecimalText(latNeg, latWhole, latFrac, latPlaces);
    ParseDecimalText(lngNeg, lngWhole, lngFrac, lngPlaces);
    CoordSegmentOf(DecimalText(latNeg, latWhole, latFrac, latPlaces), DecimalText(lngNeg, lngWhole, lngFrac, lngPlaces));
  }

  /** An explicit segment holds digits, signs, points, its comma and at most a final newline: never a `/`. */
  lemma CoordSegmentChars(e: string)
    requires CoordSegment(e).Some?
    ensures forall i | 0 <= i < |e| :: e[i] != '/'
  {
    CoordSegmentHalves(e);
    HalvesChars(e);
  }

  lemma HalvesChars(e: string)
    requires SplitComma(SegmentBody(e)).Some?
    requires IsStrictDecimal(SplitComma(SegmentBody(e)).value.0)
    requires IsStrictDecimal(SplitComma(SegmentBody(e)).value.1)
    ensures forall i | 0 <= i < |e| :: e[i] != '/'
  {
    var body := SegmentBody(e);
    var (la, lo) := SplitComma(body).value;
    SplitCommaParts(body);
    StrictDecimalChars(la);
    StrictDecimalChars(lo);
    NoSlash(la, lo);
    assert forall i | 0 <= i < |body| :: body[i] != '/';
    forall i | 0 <= i < |e|
      ensures e[i] != '/'
    {
      if i < |body| {
        assert e[i] == body[i];
      }
    }
  }

  /** An accepted segment is two strict decimals around its first comma. */
  lemma CoordSegmentHalves(e: string)
    requires CoordSegment(e).Some?
    ensures SplitComma(SegmentBody(e)).Some?
    ensures IsStrictDecimal(SplitComma(SegmentBody(e)).value.0)
    ensures IsStrictDecimal(SplitComma(SegmentBody(e)).value.1)
  {
  }

  lemma NoSlash(la: string, lo: string)
    requires forall i | 0 <= i < |la| :: IsNumChar(la[i])
    requires forall i | 0 <= i < |lo| :: IsNumChar(lo[i])
    ensures forall i | 0 <= i < |la + [','] + lo| :: (la + [','] + lo)[i] != '/'
  {
  }
}
