/**
 * The great-circle Qibla calculator (src/qibla.rs): unit conversions,
 * bearing normalisation, the eight-sector direction label, the bearing and
 * distance to the Kaaba, and the 16-point compass table.
 *
 * Floating point is modelled by reals. PI and the transcendental functions
 * are not interpreted: they arrive as a `Trig` value, of which the model
 * only knows that PI is positive.
 */
module Qibla {
  import opened Interfaces

  const KAABA_LATITUDE: real := 21.4225
  const KAABA_LONGITUDE: real := 39.8262
  const EARTH_RADIUS_KM: real := 6371.0

  /** The decimal form of `f64::MAX`, the starting value of the minimum search. */
  const F64_MAX: real := 1.7976931348623157e308

  /** PI and the floating-point library functions the calculator calls. */
  datatype TrigOps = TrigOps(
    pi: real,
    sin: real -> real,
    cos: real -> real,
    asin: real -> real,
    sqrt: real -> real,
    atan2: (real, real) -> real)

  /** An interpretation of the library in which PI is positive; nothing else is assumed. */
  type Trig = t: TrigOps | t.pi > 0.0
    witness TrigOps(3.0, x => x, x => x, x => x, x => x, (y, x) => y)

  // ---------------------------------------------------------------------------
  // Unit conversions

  function ToRadians(degrees: real, pi: real): real {
    degrees * pi / 180.0
  }

  function ToDegrees(radians: real, pi: real): real
    requires pi != 0.0
  {
    radians * 180.0 / pi
  }

  /** Converting to radians and back gives the original angle. */
  lemma DegreesRadiansRoundTrip(x: real, pi: real)
    requires pi != 0.0
    ensures ToDegrees(ToRadians(x, pi), pi) == x
    ensures ToRadians(ToDegrees(x, pi), pi) == x
  {
  }

  // ---------------------------------------------------------------------------
  // Bearing normalisation

  /** Rounding toward zero, as a floating-point quotient is truncated by `%`. */
  function Trunc(x: real): int {
    if x >= 0.0 then x.Floor else -((-x).Floor)
  }

  /** `k` full turns, in degrees. */
  function Turns(k: int): real {
    360.0 * k as real
  }

  /** `x` is a whole number of turns: an integer multiple of 360 degrees. */
  ghost predicate IsWholeTurns(x: real) {
    exists k: int :: x == Turns(k)
  }

  /**
   * Rust's `b % 360.0` on floats: the truncated remainder, which takes the
   * sign of the dividend (unlike a Euclidean remainder).
   */
  function TruncRem360(b: real): (r: real)
    ensures b >= 0.0 ==> 0.0 <= r < 360.0
    ensures b < 0.0 ==> -360.0 < r <= 0.0
    ensures IsWholeTurns(b - r)
  {
    var t := Trunc(b / 360.0);
    TruncBounds(b / 360.0);
    assert b - (b - Turns(t)) == Turns(t);
    b - Turns(t)
  }

  /** Truncation stays within one unit of its argument, on the side of zero. */
  lemma TruncBounds(x: real)
    ensures x >= 0.0 ==> 0 <= Trunc(x) && Trunc(x) as real <= x < Trunc(x) as real + 1.0
    ensures x < 0.0 ==> Trunc(x) <= 0 && Trunc(x) as real - 1.0 < x <= Trunc(x) as real
  {
  }

  /** `normalize_bearing`: the truncated remainder, lifted by one turn when negative. */
  function NormalizeBearing(bearing: real): (r: real)
    ensures IsBearing(r)
  {
    var normalized := TruncRem360(bearing);
    if normalized < 0.0 then normalized + 360.0 else normalized
  }

  /** Two bearings in [0, 360) that differ by whole turns are equal. */
  lemma WholeTurnsInRange(x: real, y: real)
    requires IsBearing(x) && IsBearing(y) && IsWholeTurns(x - y)
    ensures x == y
  {
    var k :| x - y == Turns(k);
    assert -1 < k < 1;
  }

  /**
   * The normalised bearing lies in [0, 360) and differs from the input by a
   * whole number of turns.
   */
  lemma NormalizeBearingSpec(b: real)
    ensures IsBearing(NormalizeBearing(b))
    ensures IsWholeTurns(b - NormalizeBearing(b))
  {
    var n := TruncRem360(b);
    var k :| b - n == Turns(k);
    if n < 0.0 {
      assert b - (n + 360.0) == Turns(k - 1);
    }
  }

  /**
   * NormalizeBearing(b) is the one bearing in [0, 360) that differs from `b`
   * by whole turns.
   */
  lemma NormalizeBearingUnique(b: real, x: real)
    requires IsBearing(x) && IsWholeTurns(b - x)
    ensures NormalizeBearing(b) == x
  {
    var r := NormalizeBearing(b);
    NormalizeBearingSpec(b);
    var m :| b - x == Turns(m);
    var n :| b - r == Turns(n);
    assert r - x == Turns(m - n);
    WholeTurnsInRange(r, x);
  }

  /** Normalisation leaves a bearing in [0, 360) alone, so it is idempotent. */
  lemma NormalizeBearingIdempotent(b: real)
    ensures IsBearing(b) ==> NormalizeBearing(b) == b
    ensures NormalizeBearing(NormalizeBearing(b)) == NormalizeBearing(b)
  {
    assert 0.0 == Turns(0);
    if IsBearing(b) {
      NormalizeBearingUnique(b, b);
    }
    NormalizeBearingSpec(b);
    NormalizeBearingUnique(NormalizeBearing(b), NormalizeBearing(b));
  }

  /** Adding whole turns does not change the normalised bearing. */
  lemma NormalizeBearingPeriodic(b: real, k: int)
    ensures NormalizeBearing(b + Turns(k)) == NormalizeBearing(b)
  {
    var r := NormalizeBearing(b);
    NormalizeBearingSpec(b);
    var n :| b - r == Turns(n);
    assert b + Turns(k) - r == Turns(n + k);
    NormalizeBearingUnique(b + Turns(k), r);
  }

  // ---------------------------------------------------------------------------
  // Direction label

  /** `bearing_to_direction`: 45-degree sectors, each including its lower bound. */
  function BearingToDirection(b: real): (name: string)
    ensures IsCardinalLabel(name)
  {
    if b >= 337.5 || b < 22.5 then "N"
    else if b >= 22.5 && b < 67.5 then "NE"
    else if b >= 67.5 && b < 112.5 then "E"
    else if b >= 112.5 && b < 157.5 then "SE"
    else if b >= 157.5 && b < 202.5 then "S"
    else if b >= 202.5 && b < 247.5 then "SW"
    else if b >= 247.5 && b < 292.5 then "W"
    else if b >= 292.5 && b < 337.5 then "NW"
    else "N"
  }

  /** The disjunction of the eight guarded arms of `bearing_to_direction` (src/qibla.rs:32-39). */
  predicate SomeArmMatches(b: real) {
    || b >= 337.5 || b < 22.5
    || (b >= 22.5 && b < 67.5)
    || (b >= 67.5 && b < 112.5)
    || (b >= 112.5 && b < 157.5)
    || (b >= 157.5 && b < 202.5)
    || (b >= 202.5 && b < 247.5)
    || (b >= 247.5 && b < 292.5)
    || (b >= 292.5 && b < 337.5)
  }

  /** The fallback arm is never reached: every real is caught by a guarded arm. */
  lemma FallbackUnreachable(b: real)
    ensures SomeArmMatches(b)
  {
  }

  /** The sector of a bearing in [0, 360): the nearest multiple of 45 degrees, counted modulo 8. */
  function Sector(b: real): (k: nat)
    requires IsBearing(b)
    ensures k < 8
  {
    ((b + 22.5) / 45.0).Floor % 8
  }

  /**
   * On [0, 360) the label is that of the nearest multiple of 45 degrees, with
   * a bearing exactly half-way between two of them going to the clockwise one.
   */
  lemma BearingToDirectionBySector(b: real)
    requires IsBearing(b)
    ensures BearingToDirection(b) == CARDINAL_LABELS[Sector(b)]
  {
    var f := ((b + 22.5) / 45.0).Floor;
    assert 0 <= f <= 8;
    if f == 0 {
      assert b < 22.5;
    } else if f == 1 {
      assert 22.5 <= b < 67.5;
    } else if f == 2 {
      assert 67.5 <= b < 112.5;
    } else if f == 3 {
      assert 112.5 <= b < 157.5;
    } else if f == 4 {
      assert 157.5 <= b < 202.5;
    } else if f == 5 {
      assert 202.5 <= b < 247.5;
    } else if f == 6 {
      assert 247.5 <= b < 292.5;
    } else if f == 7 {
      assert 292.5 <= b < 337.5;
    } else {
      assert b >= 337.5;
    }
  }

  /** North is exactly [337.5, 360) together with everything below 22.5, for any real. */
  lemma NorthSector(b: real)
    ensures BearingToDirection(b) == "N" <==> b >= 337.5 || b < 22.5
  {
  }

  /** The sample bearings listed in the direction-mapping test. */
  lemma DirectionSamples()
    ensures BearingToDirection(0.0) == "N" && BearingToDirection(45.0) == "NE"
    ensures BearingToDirection(90.0) == "E" && BearingToDirection(135.0) == "SE"
    ensures BearingToDirection(180.0) == "S" && BearingToDirection(225.0) == "SW"
    ensures BearingToDirection(270.0) == "W" && BearingToDirection(315.0) == "NW"
    ensures BearingToDirection(359.0) == "N"
  {
  }

  // ---------------------------------------------------------------------------
  // Bearing and distance to the Kaaba

  /** `calculate_distance`: the haversine formula over the abstract library functions. */
  function CalculateDistance(trig: Trig, lat1: real, lon1: real, lat2: real, lon2: real): real {
    var lat1Rad := ToRadians(lat1, trig.pi);
    var lon1Rad := ToRadians(lon1, trig.pi);
    var lat2Rad := ToRadians(lat2, trig.pi);
    var lon2Rad := ToRadians(lon2, trig.pi);
    var deltaLat := lat2Rad - lat1Rad;
    var deltaLon := lon2Rad - lon1Rad;
    var sinHalfLat := trig.sin(deltaLat / 2.0);
    var sinHalfLon := trig.sin(deltaLon / 2.0);
    var a := sinHalfLat * sinHalfLat + trig.cos(lat1Rad) * trig.cos(lat2Rad) * sinHalfLon * sinHalfLon;
    var c := 2.0 * trig.asin(trig.sqrt(a));
    EARTH_RADIUS_KM * c
  }

  /**
   * `calculate_qibla`: the forward azimuth to the Kaaba, normalised, with its
   * label and the haversine distance. Whatever the library returns, the
   * bearing lies in [0, 360) and the label is one of the eight.
   */
  function CalculateQibla(trig: Trig, location: Location): (r: QiblaDirection)
    ensures r.Valid()
    ensures r.direction == BearingToDirection(r.bearing)
    ensures r.distanceKm == CalculateDistance(trig, location.latitude, location.longitude, KAABA_LATITUDE, KAABA_LONGITUDE)
  {
    var lat1 := ToRadians(location.latitude, trig.pi);
    var lon1 := ToRadians(location.longitude, trig.pi);
    var lat2 := ToRadians(KAABA_LATITUDE, trig.pi);
    var lon2 := ToRadians(KAABA_LONGITUDE, trig.pi);
    var deltaLon := lon2 - lon1;
    var y := trig.sin(deltaLon) * trig.cos(lat2);
    var x := trig.cos(lat1) * trig.sin(lat2) - trig.sin(lat1) * trig.cos(lat2) * trig.cos(deltaLon);
    var bearing := ToDegrees(trig.atan2(y, x), trig.pi);
    var normalizedBearing := NormalizeBearing(bearing);
    NormalizeBearingSpec(bearing);
    var distance := CalculateDistance(trig, location.latitude, location.longitude, KAABA_LATITUDE, KAABA_LONGITUDE);
    QiblaDirection(normalizedBearing, BearingToDirection(normalizedBearing), distance)
  }

  // ---------------------------------------------------------------------------
  // Compass table: specification

  /** The sixteen compass points and their bearings, in enumeration order. */
  const COMPASS_POINTS: seq<(string, real)> := [
    ("N", 0.0),
    ("NNE", 22.5),
    ("NE", 45.0),
    ("ENE", 67.5),
    ("E", 90.0),
    ("ESE", 112.5),
    ("SE", 135.0),
    ("SSE", 157.5),
    ("S", 180.0),
    ("SSW", 202.5),
    ("SW", 225.0),
    ("WSW", 247.5),
    ("W", 270.0),
    ("WNW", 292.5),
    ("NW", 315.0),
    ("NNW", 337.5)
  ]

  /** Point k of the table lies at k * 22.5 degrees, inside [0, 360), and no two points share a name. */
  lemma CompassPointsLayout()
    ensures |COMPASS_POINTS| == 16
    ensures forall k :: 0 <= k < 16 ==> COMPASS_POINTS[k].1 == 22.5 * k as real
    ensures forall k :: 0 <= k < 16 ==> IsBearing(COMPASS_POINTS[k].1)
  {
  }

  /** No two compass points share a name, so a name identifies its point. */
  lemma CompassNamesDistinct(k: nat, j: nat)
    requires k < 16 && j < 16
    ensures COMPASS_POINTS[k].0 == COMPASS_POINTS[j].0 <==> k == j
  {
  }

  function Min(x: real, y: real): real {
    if x <= y then x else y
  }

  function Abs(x: real): real {
    if x < 0.0 then -x else x
  }

  /** The angular difference the calculator computes: |b - q|, folded back when above 180. */
  function AngularDifference(b: real, q: real): real {
    var diff := Abs(b - q);
    if diff > 180.0 then 360.0 - diff else diff
  }

  /**
   * For two bearings in [0, 360) the angular difference is the smaller of the
   * clockwise and the counter-clockwise angle, lies in [0, 180] and does not
   * depend on the order of its arguments.
   */
  lemma AngularDifferenceSpec(b: real, q: real)
    requires IsBearing(b) && IsBearing(q)
    ensures AngularDifference(b, q) == Min(Abs(b - q), 360.0 - Abs(b - q))
    ensures 0.0 <= AngularDifference(b, q) <= 180.0
    ensures AngularDifference(b, q) == AngularDifference(q, b)
  {
  }

  /** The angular differences of the sixteen points from the Qibla bearing `q`. */
  function Differences(q: real): (diffs: seq<real>)
    ensures |diffs| == |COMPASS_POINTS|
  {
    seq(|COMPASS_POINTS|, k requires 0 <= k < |COMPASS_POINTS| => AngularDifference(COMPASS_POINTS[k].1, q))
  }

  /** `k` is the first index at which `s` takes its minimum. */
  predicate IsFirstMinimum(s: seq<real>, k: int) {
    && 0 <= k < |s|
    && (forall j :: 0 <= j < |s| ==> s[k] <= s[j])
    && (forall j :: 0 <= j < k ==> s[j] > s[k])
  }

  /** The first index of a minimum of a non-empty sequence. */
  function ArgMin(s: seq<real>): (k: nat)
    requires |s| > 0
    ensures IsFirstMinimum(s, k)
  {
    if |s| == 1 then 0
    else
      var k := ArgMin(s[..|s| - 1]);
      if s[|s| - 1] < s[k] then |s| - 1 else k
  }

  /** The first minimum of a one-element prefix is its only element. */
  lemma ArgMinStart(s: seq<real>)
    requires |s| > 0
    ensures ArgMin(s[..1]) == 0
  {
  }

  /** Extending a prefix by one element moves the first minimum there only on a strict improvement. */
  lemma ArgMinExtend(s: seq<real>, i: nat)
    requires 0 < i < |s|
    ensures ArgMin(s[..i + 1]) == if s[i] < s[ArgMin(s[..i])] then i else ArgMin(s[..i])
  {
    assert s[..i + 1][..i] == s[..i];
  }

  /** A sequence has at most one first minimum. */
  lemma FirstMinimumUnique(s: seq<real>, k: int, j: int)
    requires IsFirstMinimum(s, k) && IsFirstMinimum(s, j)
    ensures k == j
  {
    assert s[k] <= s[j] && s[j] <= s[k];
    assert !(k < j);
    assert !(j < k);
  }

  /** `2 * PI * R`, the circumference of the Earth. */
  function Circumference(trig: Trig): real {
    EARTH_RADIUS_KM * 2.0 * trig.pi
  }

  /** The long way round: the circumference less the direct distance. */
  function LongPathDistance(directDistanceKm: real, trig: Trig): real {
    Circumference(trig) - directDistanceKm
  }

  /** The piecewise "short path" of the calculator, by angular difference. */
  function ShortPathDistance(angularDiff: real, directDistanceKm: real, trig: Trig): real {
    if angularDiff < 90.0 then
      directDistanceKm / Max(trig.cos(ToRadians(angularDiff, trig.pi)), 0.001)
    else if angularDiff > 90.0 then
      LongPathDistance(directDistanceKm, trig)
    else
      Circumference(trig)
  }

  /** Floating-point `max`. */
  function Max(x: real, y: real): real {
    if x >= y then x else y
  }

  /** Row k of the table for Qibla bearing `q` and direct distance `d`. */
  function EntryAt(k: nat, q: real, d: real, trig: Trig): CompassEntry
    requires k < |COMPASS_POINTS|
  {
    var diffs := Differences(q);
    CompassEntry(
      COMPASS_POINTS[k].0,
      COMPASS_POINTS[k].1,
      diffs[k],
      ShortPathDistance(diffs[k], d, trig),
      LongPathDistance(d, trig),
      k == ArgMin(diffs))
  }

  /** The table the calculator builds: the sixteen rows in enumeration order. */
  function CompassTableSpec(location: Location, q: real, d: real, trig: Trig): CompassTable {
    CompassTable(location, q, d, seq(|COMPASS_POINTS|, k requires 0 <= k < |COMPASS_POINTS| => EntryAt(k, q, d, trig)))
  }

  // ---------------------------------------------------------------------------
  // Compass table: properties

  /**
   * The table has sixteen rows, in the fixed order N, NNE, ..., NNW; row k
   * has bearing k * 22.5, inside [0, 360); the origin, the Qibla bearing and
   * the direct distance are carried over unchanged.
   */
  lemma CompassTableShape(location: Location, q: real, d: real, trig: Trig)
    ensures var t := CompassTableSpec(location, q, d, trig);
      && |t.entries| == 16
      && t.location == location && t.qiblaBearing == q && t.directDistanceKm == d
      && (forall k :: 0 <= k < 16 ==> t.entries[k].direction == COMPASS_POINTS[k].0)
      && (forall k :: 0 <= k < 16 ==> t.entries[k].bearing == 22.5 * k as real)
      && (forall k :: 0 <= k < 16 ==> IsBearing(t.entries[k].bearing))
  {
    CompassPointsLayout();
  }

  /** Every row's angular difference lies in [0, 180] and is its angle to the Qibla bearing. */
  lemma CompassTableDifferences(location: Location, q: real, d: real, trig: Trig)
    requires IsBearing(q)
    ensures var t := CompassTableSpec(location, q, d, trig);
      forall k :: 0 <= k < |t.entries| ==>
        && 0.0 <= t.entries[k].angularDifference <= 180.0
        && t.entries[k].angularDifference == Min(Abs(t.entries[k].bearing - q), 360.0 - Abs(t.entries[k].bearing - q))
  {
    var t := CompassTableSpec(location, q, d, trig);
    forall k | 0 <= k < |t.entries|
      ensures 0.0 <= t.entries[k].angularDifference <= 180.0
      ensures t.entries[k].angularDifference == Min(Abs(t.entries[k].bearing - q), 360.0 - Abs(t.entries[k].bearing - q))
    {
      CompassPointsLayout();
      AngularDifferenceSpec(COMPASS_POINTS[k].1, q);
    }
  }

  /** A sequence of rows in which exactly row k is marked has one marked row. */
  lemma {:induction false} CountOptimalSingle(entries: seq<CompassEntry>, k: nat)
    requires k < |entries|
    requires forall j :: 0 <= j < |entries| ==> (entries[j].isOptimalDirection <==> j == k)
    ensures CountOptimal(entries) == 1
  {
    if k == 0 {
      CountOptimalNone(entries[1..]);
    } else {
      CountOptimalSingle(entries[1..], k - 1);
    }
  }

  lemma {:induction false} CountOptimalNone(entries: seq<CompassEntry>)
    requires forall j :: 0 <= j < |entries| ==> !entries[j].isOptimalDirection
    ensures CountOptimal(entries) == 0
  {
    if entries != [] {
      CountOptimalNone(entries[1..]);
    }
  }

  /**
   * Exactly one row is marked optimal: the first row, in enumeration order,
   * whose angular difference is minimal.
   */
  lemma CompassTableOptimal(location: Location, q: real, d: real, trig: Trig)
    ensures var t := CompassTableSpec(location, q, d, trig);
      && CountOptimal(t.entries) == 1
      && forall k :: 0 <= k < |t.entries| ==>
           (t.entries[k].isOptimalDirection <==>
              && (forall j :: 0 <= j < |t.entries| ==> t.entries[k].angularDifference <= t.entries[j].angularDifference)
              && (forall j :: 0 <= j < k ==> t.entries[j].angularDifference > t.entries[k].angularDifference))
  {
    var t := CompassTableSpec(location, q, d, trig);
    var diffs := Differences(q);
    var m := ArgMin(diffs);
    assert forall j :: 0 <= j < |t.entries| ==> t.entries[j].angularDifference == diffs[j];
    CountOptimalSingle(t.entries, m);
    forall k | 0 <= k < |t.entries|
      ensures t.entries[k].isOptimalDirection <==> IsFirstMinimum(diffs, k)
    {
      if IsFirstMinimum(diffs, k) {
        FirstMinimumUnique(diffs, k, m);
      }
    }
  }

  /**
   * Path distances: the long path is always the circumference less the direct
   * distance; the short path equals it above 90 degrees, is the full
   * circumference at exactly 90, and below 90 is the direct distance divided
   * by the cosine floored at 0.001, positive whenever the direct distance is.
   */
  lemma CompassTablePaths(location: Location, q: real, d: real, trig: Trig)
    ensures var t := CompassTableSpec(location, q, d, trig);
      forall k :: 0 <= k < |t.entries| ==> PathsByDifference(t.entries[k], d, trig)
  {
    var t := CompassTableSpec(location, q, d, trig);
    forall k | 0 <= k < |t.entries|
      ensures PathsByDifference(t.entries[k], d, trig)
    {
      EntryPaths(k, q, d, trig);
    }
  }

  /**
   * Every row's short and long path is positive, as the compass-table test
   * expects, whenever the direct distance is positive and shorter than a
   * full circumference: the one fact about the haversine that this takes.
   */
  lemma CompassTablePositivePaths(location: Location, q: real, d: real, trig: Trig)
    requires 0.0 < d < Circumference(trig)
    ensures var t := CompassTableSpec(location, q, d, trig);
      forall k :: 0 <= k < |t.entries| ==>
        t.entries[k].shortPathDistanceKm > 0.0 && t.entries[k].longPathDistanceKm > 0.0
  {
    CompassTablePaths(location, q, d, trig);
  }

  /** The path distances of one row, as the calculator's comments describe them. */
  predicate PathsByDifference(e: CompassEntry, d: real, trig: Trig) {
    && e.longPathDistanceKm == Circumference(trig) - d
    && (e.angularDifference > 90.0 ==> e.shortPathDistanceKm == e.longPathDistanceKm)
    && (e.angularDifference == 90.0 ==> e.shortPathDistanceKm == Circumference(trig))
    && (e.angularDifference < 90.0 ==>
          && e.shortPathDistanceKm == d / Max(trig.cos(ToRadians(e.angularDifference, trig.pi)), 0.001)
          && (d > 0.0 ==> e.shortPathDistanceKm > 0.0))
  }

  lemma EntryPaths(k: nat, q: real, d: real, trig: Trig)
    requires k < |COMPASS_POINTS|
    ensures PathsByDifference(EntryAt(k, q, d, trig), d, trig)
  {
    var e := EntryAt(k, q, d, trig);
    var diff := Differences(q)[k];
    assert e.angularDifference == diff;
    if diff < 90.0 && d > 0.0 {
      DivisionPositive(d, Max(trig.cos(ToRadians(diff, trig.pi)), 0.001));
    }
  }

  lemma DivisionPositive(x: real, y: real)
    requires x > 0.0 && y > 0.0
    ensures x / y > 0.0
  {
  }

  /** The specified table satisfies `CompassTable.Valid`. */
  lemma CompassTableValid(location: Location, q: real, d: real, trig: Trig)
    requires IsBearing(q)
    ensures CompassTableSpec(location, q, d, trig).Valid()
  {
    CompassTableDifferences(location, q, d, trig);
    CompassTableOptimal(location, q, d, trig);
  }

  // ---------------------------------------------------------------------------
  // Compass table: the calculator's two passes

  /**
   * The first pass of `calculate_compass_table`: a scan from `f64::MAX` that
   * replaces the candidate only on a strictly smaller angular difference, so
   * the name found is that of the first point with the smallest difference.
   */
  method FindOptimalDirection(q: real) returns (optimalDirectionName: string)
    requires IsBearing(q)
    ensures optimalDirectionName == COMPASS_POINTS[ArgMin(Differences(q))].0
  {
    ghost var diffs := Differences(q);
    var minAngularDiff := F64_MAX;
    optimalDirectionName := "";
    for i := 0 to |COMPASS_POINTS|
      invariant i == 0 ==> minAngularDiff == F64_MAX
      invariant 0 < i ==> minAngularDiff == diffs[ArgMin(diffs[..i])]
      invariant 0 < i ==> optimalDirectionName == COMPASS_POINTS[ArgMin(diffs[..i])].0
    {
      var (direction, bearing) := COMPASS_POINTS[i];
      var angularDiff := Abs(bearing - q);
      if angularDiff > 180.0 {
        angularDiff := 360.0 - angularDiff;
      }
      assert angularDiff == diffs[i];
      if i == 0 {
        CompassPointsLayout();
        AngularDifferenceSpec(bearing, q);
        ArgMinStart(diffs);
      } else {
        ArgMinExtend(diffs, i);
      }
      if angularDiff < minAngularDiff {
        minAngularDiff := angularDiff;
        optimalDirectionName := direction;
      }
    }
    assert diffs[..|COMPASS_POINTS|] == diffs;
  }

  /**
   * A row built from point k's own difference and short path, and marked when
   * its name is that of the first closest point, is the specified row k.
   */
  lemma EntryAtMarked(k: nat, q: real, d: real, trig: Trig, angularDiff: real, shortDistance: real, longDistance: real)
    requires k < |COMPASS_POINTS|
    requires angularDiff == Differences(q)[k]
    requires shortDistance == ShortPathDistance(angularDiff, d, trig)
    requires longDistance == LongPathDistance(d, trig)
    ensures EntryAt(k, q, d, trig)
         == CompassEntry(COMPASS_POINTS[k].0, COMPASS_POINTS[k].1, angularDiff, shortDistance, longDistance,
                         COMPASS_POINTS[k].0 == COMPASS_POINTS[ArgMin(Differences(q))].0)
  {
    CompassNamesDistinct(k, ArgMin(Differences(q)));
  }

  /**
   * `calculate_compass_table` with the Qibla bearing `q` and the direct
   * distance `d` already computed: after the first pass, a second pass
   * pushes one row per compass point, marking the row whose name is the one
   * found.
   */
  method BuildCompassTable(location: Location, q: real, d: real, trig: Trig) returns (table: CompassTable)
    requires IsBearing(q)
    ensures table == CompassTableSpec(location, q, d, trig)
    ensures table.Valid()
  {
    var optimalDirectionName := FindOptimalDirection(q);

    var entries: seq<CompassEntry> := [];
    for i := 0 to |COMPASS_POINTS|
      invariant |entries| == i
      invariant forall j :: 0 <= j < i ==> entries[j] == EntryAt(j, q, d, trig)
    {
      var (direction, bearing) := COMPASS_POINTS[i];
      var angularDiff := Abs(bearing - q);
      if angularDiff > 180.0 {
        angularDiff := 360.0 - angularDiff;
      }
      var shortDistance;
      if angularDiff < 90.0 {
        var cosine := Max(trig.cos(ToRadians(angularDiff, trig.pi)), 0.001);
        shortDistance := d / cosine;
      } else if angularDiff > 90.0 {
        shortDistance := EARTH_RADIUS_KM * 2.0 * trig.pi - d;
      } else {
        shortDistance := EARTH_RADIUS_KM * 2.0 * trig.pi;
      }
      var longDistance := EARTH_RADIUS_KM * 2.0 * trig.pi - d;
      var isOptimal := direction == optimalDirectionName;
      var entry := CompassEntry(direction, bearing, angularDiff, shortDistance, longDistance, isOptimal);
      assert angularDiff == Differences(q)[i];
      EntryAtMarked(i, q, d, trig, angularDiff, shortDistance, longDistance);
      entries := entries + [entry];
    }

    table := CompassTable(location, q, d, entries);
    CompassTableValid(location, q, d, trig);
  }

  /**
   * The calculator's `calculate_compass_table`: the Qibla bearing and distance
   * for the location, then the two passes. The result is a valid table for
   * every location.
   */
  method CalculateCompassTable(trig: Trig, location: Location) returns (table: CompassTable)
    ensures var qibla := CalculateQibla(trig, location);
      table == CompassTableSpec(location, qibla.bearing, qibla.distanceKm, trig)
    ensures table.Valid()
  {
    var qibla := CalculateQibla(trig, location);
    table := BuildCompassTable(location, qibla.bearing, qibla.distanceKm, trig);
  }
}
