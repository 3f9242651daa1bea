/**
 * The plain records exchanged by the Qibla calculator and the coordinate
 * parser (src/interfaces.rs), with the invariants that their field comments
 * and the crate's tests state. Floating-point fields are modelled as
 * mathematical reals.
 */
module Interfaces {

  /** A point on Earth in decimal degrees. */
  datatype Location = Location(latitude: real, longitude: real) {

    /**
     * The range `parse_coordinates` accepts (src/geocoding.rs:62-68):
     * latitude in [-90, 90], longitude in [-180, 180].
     */
    predicate Valid() {
      ValidLatitude(latitude) && ValidLongitude(longitude)
    }
  }

  /** The inclusive range test `(-90.0..=90.0).contains(&latitude)`. */
  predicate ValidLatitude(latitude: real) {
    -90.0 <= latitude <= 90.0
  }

  /** The inclusive range test `(-180.0..=180.0).contains(&longitude)`. */
  predicate ValidLongitude(longitude: real) {
    -180.0 <= longitude <= 180.0
  }

  /** The eight cardinal and intercardinal labels, clockwise from North. */
  const CARDINAL_LABELS: seq<string> := ["N", "NE", "E", "SE", "S", "SW", "W", "NW"]

  /** A bearing in degrees clockwise from North, in [0, 360). */
  predicate IsBearing(b: real) {
    0.0 <= b < 360.0
  }

  predicate IsCardinalLabel(s: string) {
    s in CARDINAL_LABELS
  }

  /** The answer for one location: bearing, its label and the distance to the Kaaba. */
  datatype QiblaDirection = QiblaDirection(bearing: real, direction: string, distanceKm: real) {

    /** The ranges the field comments give: a bearing in [0, 360) and one of the eight labels. */
    predicate Valid() {
      IsBearing(bearing) && IsCardinalLabel(direction)
    }
  }

  /** One row of the compass table. */
  datatype CompassEntry = CompassEntry(
    direction: string,
    bearing: real,
    angularDifference: real,
    shortPathDistanceKm: real,
    longPathDistanceKm: real,
    isOptimalDirection: bool)

  /** How many entries are marked optimal (the tests' `filter(..).count()`). */
  function CountOptimal(entries: seq<CompassEntry>): (n: nat)
    ensures n <= |entries|
  {
    if entries == [] then 0
    else (if entries[0].isOptimalDirection then 1 else 0) + CountOptimal(entries[1..])
  }

  /** The origin, the Qibla bearing and distance, and the compass rows. */
  datatype CompassTable = CompassTable(
    location: Location,
    qiblaBearing: real,
    directDistanceKm: real,
    entries: seq<CompassEntry>) {

    /**
     * The table's invariants. The Qibla bearing lies in [0, 360), as
     * `QiblaDirection.bearing` does; every angular difference lies in
     * [0, 180] and exactly one entry is marked optimal, as the compass-table
     * test asserts (src/tests.rs:154-155, 160); and the marked entry is the
     * closest to the Qibla direction, as the comment on
     * `is_optimal_direction` says (src/interfaces.rs:25).
     */
    predicate Valid() {
      && IsBearing(qiblaBearing)
      && (forall k :: 0 <= k < |entries| ==> 0.0 <= entries[k].angularDifference <= 180.0)
      && CountOptimal(entries) == 1
      && (forall k, j :: 0 <= k < |entries| && 0 <= j < |entries| && entries[k].isOptimalDirection ==>
            entries[k].angularDifference <= entries[j].angularDifference)
    }
  }
}
