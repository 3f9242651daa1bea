# Qibla calculator — Dafny model

This project models the computational core of `meccz`, a small Rust tool that
gives the Qibla: the great-circle bearing and distance from a point on Earth
to the Kaaba (21.4225° N, 39.8262° E). It also builds a 16-point compass
table that compares each standard heading with that bearing.

The model has four modules:

- `Interfaces` (`interfaces.dfy`) holds the records `Location`,
  `QiblaDirection`, `CompassEntry` and `CompassTable`. It also holds the
  invariants that their field comments and the crate's tests state:
  - a bearing in [0, 360) and one of eight labels (src/interfaces.rs:13-14);
  - an angular difference in [0, 180] (src/tests.rs:160);
  - exactly one optimal entry (src/tests.rs:154-155), which is the closest
    one (src/interfaces.rs:25).
- `Qibla` (`qibla.dfy`) holds the calculator:
  - degree/radian conversion;
  - `normalize_bearing`, with Rust's truncated float remainder written out;
  - the eight-sector direction label;
  - `calculate_qibla`;
  - `calculate_compass_table`, as two imperative passes.
- `Geocoding` (`geocoding.dfy`) holds `parse_coordinates`: split on `,`,
  trim, convert, then range-check.
- `Wrappers` (`wrappers.dfy`) holds `Option` and `Result`.

Floating-point numbers are modelled as mathematical reals. `PI`, `sin`,
`cos`, `asin`, `sqrt` and `atan2` are not interpreted. They arrive as a
`Trig` value, and the model assumes only that PI is positive. The text-to-f64
conversion `str::parse::<f64>` is likewise a parameter
`parseNumber: string -> Option<real>`.

`calculate_compass_table` is factored in two:

- `BuildCompassTable` takes the Qibla bearing `q` and the direct distance
  `d` as parameters, so the trigonometry stays out of it.
- `CalculateCompassTable` first computes them with `CalculateQibla`, as the
  source does.

`BuildCompassTable` requires `0 <= q < 360`. Its one caller,
`CalculateCompassTable`, always meets this, because `CalculateQibla`
normalises the bearing. `CalculateCompassTable` has no precondition.

The first pass is modelled as `FindOptimalDirection`. It keeps
`min_angular_diff` and `optimal_direction_name`, starts from `f64::MAX`, and
replaces the candidate only on a strictly smaller difference. It is proved to
return the name of `ArgMin`, the first index of a minimum. The second pass
pushes one entry per compass point. It marks the entry whose name equals that
name. Because the sixteen names are distinct (`CompassNamesDistinct`), exactly
that one entry is marked.

Some behaviours of the code are worth stating plainly, because a reader
might expect otherwise:

- The direction label has eight 45° sectors (src/qibla.rs:30-42).
- A compass row's short path depends on its angular difference
  (src/qibla.rs:144-153). Below 90° it is `d / max(cos(diff), 0.001)`. Above
  90° it is the long path. At exactly 90° it is `2πR`.
- The long path is always `2πR − d` (src/qibla.rs:155).
- The haversine central angle is `2·asin(√a)` (src/qibla.rs:55).
- Bearings are normalised with Rust's truncated `%` by 360, then 360 is added
  if the result is negative (src/qibla.rs:23-26).

## Model

| member | source | states |
|---|---|---|
| `Interfaces.Location.Valid` | src/geocoding.rs:62-68 | No contract of its own: latitude in [-90, 90] and longitude in [-180, 180], the ranges `parse_coordinates` accepts (src/interfaces.rs:5-9 holds no range). `ParseCoordinates` proves every accepted location meets it. |
| `Interfaces.QiblaDirection.Valid` | src/interfaces.rs:11-16 | No contract of its own: a bearing in [0, 360) and one of the eight labels, as the field comments say. `CalculateQibla` proves every answer meets it. |
| `Interfaces.CompassTable.Valid` | src/interfaces.rs:18-34 | No contract of its own: the Qibla bearing in [0, 360); every difference in [0, 180] (src/tests.rs:160); exactly one optimal row (src/tests.rs:154-155), and that row the closest (src/interfaces.rs:25). `CompassTableValid` and `BuildCompassTable` prove the table meets it. |
| `Qibla.DegreesRadiansRoundTrip` | src/qibla.rs:14-20 | For any nonzero PI, converting degrees to radians and back gives the angle back, and so does the reverse. |
| `Qibla.ToRadians` | src/qibla.rs:14-16 | No contract of its own: degrees times PI over 180. `DegreesRadiansRoundTrip` proves that `ToDegrees` undoes it. |
| `Qibla.ToDegrees` | src/qibla.rs:18-20 | No contract of its own: radians times 180 over PI, for a nonzero PI. `DegreesRadiansRoundTrip` proves that `ToRadians` undoes it. |
| `Qibla.TruncRem360` | src/qibla.rs:23 | Rust's float `%` by 360 is a truncated remainder. It is in [0, 360) for a non-negative input and in (−360, 0] for a negative one. It differs from the input by whole turns. |
| `Qibla.NormalizeBearingSpec` | src/qibla.rs:22-28 | For every real input, the normalised bearing lies in [0, 360) and differs from the input by an integer multiple of 360. |
| `Qibla.NormalizeBearing` | src/qibla.rs:22-28 | The result is always a bearing in [0, 360). `NormalizeBearingSpec`, `NormalizeBearingUnique`, `NormalizeBearingIdempotent` and `NormalizeBearingPeriodic` carry the rest. |
| `Qibla.NormalizeBearingUnique` | src/qibla.rs:22-28 | The normalised bearing is the only value in [0, 360) that is a whole number of turns away from the input. |
| `Qibla.NormalizeBearingIdempotent` | src/qibla.rs:23-27 | Normalisation is the identity on [0, 360), so applying it twice is the same as once. |
| `Qibla.NormalizeBearingPeriodic` | src/qibla.rs:22-28 | Adding any integer multiple of 360 to the input does not change the normalised bearing. |
| `Qibla.BearingToDirection` | src/qibla.rs:30-42 | The label is always one of the eight: N, NE, E, SE, S, SW, W, NW. |
| `Qibla.FallbackUnreachable` | src/qibla.rs:31-40 | Every real satisfies one of the eight guards, so the fallback arm is never taken. |
| `Qibla.BearingToDirectionBySector` | src/qibla.rs:32-39 | On [0, 360), the label is the one of the nearest multiple of 45°. An independent reference, `floor((b + 22.5) / 45) mod 8`, makes each lower sector bound inclusive. |
| `Qibla.NorthSector` | src/qibla.rs:32 | "N" is returned exactly for bearings ≥ 337.5 or < 22.5, for any real. |
| `Qibla.DirectionSamples` | src/tests.rs:106-116 | The (bearing, label) pairs that the direction-mapping test lists get those labels: 0→N, 45→NE, …, 315→NW, 359→N. The Rust test only lists them; its loop at src/tests.rs:118-128 checks nothing. |
| `Qibla.CalculateQibla` | src/qibla.rs:63-89 | Whatever the trig functions return: the bearing is normalised into [0, 360); the label is that bearing's label and one of the eight; the distance is the haversine distance to the Kaaba. |
| `Qibla.CalculateDistance` | src/qibla.rs:44-58 | None; see Left out. |
| `Qibla.CompassPointsLayout` | src/qibla.rs:93-110 | The fixed table has 16 points. Point k has bearing k·22.5, which lies in [0, 360). |
| `Qibla.CompassNamesDistinct` | src/qibla.rs:93-110 | No two of the 16 compass names are equal, so comparing names identifies the point. |
| `Qibla.AngularDifferenceSpec` | src/qibla.rs:120-123 | For two bearings in [0, 360), the folded difference is the minimum of the clockwise and counter-clockwise angles. It lies in [0, 180] and is symmetric. |
| `Qibla.AngularDifference` | src/qibla.rs:120-123 | No contract of its own: the absolute difference, folded to 360 minus it above 180. `AngularDifferenceSpec` carries its properties. The same fold is at src/qibla.rs:133-136. |
| `Qibla.ArgMin` | src/qibla.rs:115-128 | It returns the first index at which a non-empty sequence takes its minimum. |
| `Qibla.FirstMinimumUnique` | src/qibla.rs:124-127 | A sequence has only one first minimum, so the tie-break by enumeration order is deterministic. |
| `Qibla.FindOptimalDirection` | src/qibla.rs:115-128 | The strict-`<` scan from `f64::MAX` returns the name of the first compass point whose angular difference is minimal. |
| `Qibla.BuildCompassTable` | src/qibla.rs:91-175 | The two passes build exactly the specified table: 16 entries in enumeration order from the given location, bearing and distance. The table satisfies `CompassTable.Valid`. |
| `Qibla.CalculateCompassTable` | src/qibla.rs:91-175 | For every location, the table is the specified one for that location's Qibla bearing and distance, and it is valid. |
| `Qibla.CompassTableShape` | src/qibla.rs:159-174 | The table has 16 entries named N, NNE, …, NNW in order. Entry k has bearing k·22.5, in [0, 360). The location, the Qibla bearing and the direct distance are copied unchanged. |
| `Qibla.EntryAt` | src/qibla.rs:159-166 | No contract of its own: row k as the second pass pushes it, marked when k is the first minimum. `CompassTableShape`, `CompassTableDifferences`, `CompassTableOptimal` and `CompassTablePaths` carry its properties. |
| `Qibla.CompassTableSpec` | src/qibla.rs:169-174 | No contract of its own: the table of the sixteen rows with the location, bearing and distance. `BuildCompassTable` is proved equal to it, and `CompassTableValid` proves it valid. |
| `Qibla.CompassTableDifferences` | src/qibla.rs:133-136 | When the Qibla bearing is in [0, 360), every entry's angular difference lies in [0, 180]. It is the smaller of the two angles between the entry's bearing and the Qibla bearing. |
| `Qibla.CompassTableOptimal` | src/qibla.rs:115-157 | Exactly one entry is marked optimal. An entry is marked if and only if its difference is ≤ every entry's and strictly below every earlier entry's. |
| `Qibla.CountOptimalSingle` | src/tests.rs:154-155 | When exactly one position of a row sequence is marked, the marked-row count is 1. |
| `Interfaces.CountOptimal` | src/tests.rs:154 | The number of marked rows never exceeds the number of rows. |
| `Qibla.CompassTablePaths` | src/qibla.rs:144-155 | Every entry's long path is 2πR − d. Above 90° the short path equals the long path, and at exactly 90° it is 2πR. Below 90° it is `d / max(cos(diff), 0.001)`, which is positive whenever d is. |
| `Qibla.CompassTablePositivePaths` | src/tests.rs:161-162 | When the direct distance lies strictly between 0 and 2πR, every row's short and long path is positive. |
| `Qibla.LongPathDistance` | src/qibla.rs:155 | No contract of its own: `2πR − d`. `CompassTablePaths` states it for every row. |
| `Qibla.ShortPathDistance` | src/qibla.rs:144-153 | No contract of its own: the three-way split at 90°. `CompassTablePaths` states each case for every row, and positivity below 90° when d > 0. |
| `Qibla.CompassTableValid` | src/interfaces.rs:18-34 | When the Qibla bearing is in [0, 360), the table meets `CompassTable.Valid`: differences in [0, 180], one optimal entry, and that entry the closest. |
| `Geocoding.TrimStart` | src/geocoding.rs:59-60 | It returns a suffix of the text. Only whitespace is removed, and the suffix does not start with whitespace. |
| `Geocoding.TrimEnd` | src/geocoding.rs:59-60 | It returns a prefix of the text. Only whitespace is removed, and the prefix does not end with whitespace. |
| `Geocoding.TrimPadded` | src/geocoding.rs:59-60 | Whitespace added around a text does not change its trimmed form. |
| `Geocoding.TrimIdempotent` | src/geocoding.rs:59-60 | Trimming twice is the same as trimming once. |
| `Geocoding.Trim` | src/geocoding.rs:59-60 | The trimmed text is no longer than the text, and it neither starts nor ends with whitespace. `TrimIsSlice` states that only surrounding whitespace is removed. |
| `Geocoding.TrimIsSlice` | src/geocoding.rs:59-60 | The trimmed text is a slice of the text with only whitespace before it and after it. |
| `Geocoding.Split` | src/geocoding.rs:54 | Splitting gives one part more than there are separators. No part contains the separator, and joining the parts gives the text back. |
| `Geocoding.SplitJoin` | src/geocoding.rs:54 | Splitting undoes joining, for parts that do not contain the separator. |
| `Geocoding.ParseCoordinates` | src/geocoding.rs:53-71 | The input is rejected as malformed exactly when it does not have one comma, i.e. two parts. Every accepted location is in range. |
| `Geocoding.ParseParts` | src/geocoding.rs:59-70 | After the split, the result is never the format error, and every accepted location is in range. |
| `Geocoding.ParseTwoParts` | src/geocoding.rs:54-60 | For "lat,lon" with comma-free texts, the result depends only on the two trimmed texts. |
| `Geocoding.ParseIgnoresPadding` | src/geocoding.rs:59-60 | Whitespace around either number does not change the result. |
| `Geocoding.ParseRejectsInvalidNumber` | src/geocoding.rs:59-60 | If either trimmed part fails number conversion, the result is a number error, whatever the other part is. |
| `Geocoding.ParseRejectsLatitude` | src/geocoding.rs:62-64 | A latitude outside [-90, 90] gives the latitude error, even when the longitude is out of range too. |
| `Geocoding.ParseRejectsLongitude` | src/geocoding.rs:66-68 | With the latitude in range, a longitude outside [-180, 180] gives the longitude error. |
| `Geocoding.ParseAccepts` | src/geocoding.rs:70 | Two in-range numbers give exactly the location made of those two numbers. |
| `Geocoding.ParseRejectsThreeParts` | src/geocoding.rs:54-57 | Three comma-free parts joined by two commas are always rejected as malformed. |
| `Geocoding.ParseOnePartSample` | src/tests.rs:24 | "48.8566" (one part) is rejected as malformed. |
| `Geocoding.ParseThreePartsSample` | src/tests.rs:25 | "48.8566, 2.3522, 100" (three parts) is rejected as malformed. |

## Left out

- Floating point: reals replace f64. Rounding, NaN and infinities are not modelled. For example:
  - `normalize_bearing` can return exactly 360.0 in f64 for a tiny negative input. Over the reals it cannot.
  - The fallback arm of `bearing_to_direction` is reached in f64 only by NaN.
- `f64::MAX` is written as its shortest decimal form `1.7976931348623157e308`. The model only uses the fact that it exceeds every angular difference.
- Trigonometry: PI, `sin`, `cos`, `asin`, `sqrt` and `atan2` are uninterpreted, apart from PI > 0. So `CalculateDistance` (the haversine formula, src/qibla.rs:44-58) has no proved property: symmetry, zero distance for a point and itself, and the π·R upper bound all need trig identities. For the same reason, these claims cannot be stated and are not proved:
  - the concrete city bearings and distances (Paris, New York, Guam, London);
  - the test that bearings fall in each quadrant;
  - that short and long paths are positive for every location. That needs only `0 < d < 2πR`, which is a fact about the haversine; `CompassTablePositivePaths` proves positivity under it.
- `str::parse::<f64>` is a parameter `parseNumber`. Which texts it accepts, for example "invalid" being rejected, is part of it and not of this model.
- `NominatimGeocoder` (src/geocoding.rs:6-51): an HTTP request and JSON decoding. This is network I/O.
- src/ffi.rs: C-ABI wrappers and raw-pointer memory management. Their coordinate range check repeats the one in `parse_coordinates`.
- src/main.rs: command-line parsing, printing, JSON output and the display-only sort of the compass table.
- src/core.rs: an async wrapper that chooses between parsing and geocoding and then delegates.
- src/lib.rs: module re-exports only.
- The error messages of `parse_coordinates` are modelled as the four kinds of `CoordinateError`, not as text.
