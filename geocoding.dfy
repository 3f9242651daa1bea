/**
 * The coordinate parser of the geocoding layer (`parse_coordinates` in
 * src/geocoding.rs): "latitude,longitude" split on the comma, each part
 * trimmed and converted to a number, then range-checked, latitude first.
 *
 * The floating-point conversion (`str::parse::<f64>`) is not interpreted: it
 * arrives as a function from text to an optional real.
 */
module Geocoding {
  import opened Wrappers
  import opened Interfaces

  /** Why a coordinate text was rejected. */
  datatype CoordinateError =
    | WrongFormat          // not exactly two comma-separated parts
    | InvalidNumber        // a part is not a floating-point number
    | LatitudeOutOfRange   // latitude outside [-90, 90]
    | LongitudeOutOfRange  // longitude outside [-180, 180]

  // ---------------------------------------------------------------------------
  // Trimming

  /** Rust's `char::is_whitespace`: the Unicode White_Space property. */
  predicate IsWhitespace(c: char) {
    || ('\t' <= c <= '\r')
    || c == ' '
    || c == '\U{85}'
    || c == '\U{A0}'
    || c == '\U{1680}'
    || ('\U{2000}' <= c <= '\U{200A}')
    || c == '\U{2028}'
    || c == '\U{2029}'
    || c == '\U{202F}'
    || c == '\U{205F}'
    || c == '\U{3000}'
  }

  predicate AllWhitespace(s: string) {
    forall i :: 0 <= i < |s| ==> IsWhitespace(s[i])
  }

  lemma WhitespaceCons(c: char, s: string)
    requires IsWhitespace(c) && AllWhitespace(s)
    ensures AllWhitespace([c] + s)
  {
    forall i | 0 <= i < |[c] + s| ensures IsWhitespace(([c] + s)[i]) {
      if i > 0 {
        assert ([c] + s)[i] == s[i - 1];
      }
    }
  }

  /** What TrimStart leaves of `s` after its leading whitespace character, it leaves of `s`. */
  lemma TrimStartStep(s: string, r: string)
    requires |s| > 0 && IsWhitespace(s[0])
    requires |r| <= |s| - 1 && r == s[1..][|s| - 1 - |r|..]
    requires AllWhitespace(s[1..][..|s| - 1 - |r|])
    ensures r == s[|s| - |r|..]
    ensures AllWhitespace(s[..|s| - |r|])
  {
    var cut := s[1..][..|s| - 1 - |r|];
    assert s[..|s| - |r|] == [s[0]] + cut;
    WhitespaceCons(s[0], cut);
  }

  /** Leading whitespace removed: a suffix of `s`, cut only at whitespace, not starting with whitespace. */
  function TrimStart(s: string): (r: string)
    ensures |r| <= |s| && r == s[|s| - |r|..]
    ensures AllWhitespace(s[..|s| - |r|])
    ensures r == [] || !IsWhitespace(r[0])
  {
    if |s| > 0 && IsWhitespace(s[0]) then
      var r := TrimStart(s[1..]);
      TrimStartStep(s, r);
      r
    else
      s
  }

  /** Trailing whitespace removed: a prefix of `s`, cut only at whitespace, not ending with whitespace. */
  function TrimEnd(s: string): (r: string)
    ensures |r| <= |s| && r == s[..|r|]
    ensures AllWhitespace(s[|r|..])
    ensures r == [] || !IsWhitespace(r[|r| - 1])
  {
    if |s| > 0 && IsWhitespace(s[|s| - 1]) then
      var r := TrimEnd(s[..|s| - 1]);
      var cut := s[..|s| - 1][|r|..];
      assert s[..|s| - 1][..|r|] == s[..|r|];
      assert s[|r|..] == cut + [s[|s| - 1]];
      assert forall i :: 0 <= i < |cut| ==> (cut + [s[|s| - 1]])[i] == cut[i];
      r
    else
      s
  }

  /** A prefix `b` of a suffix `a` of `s` is a slice of `s`, and what follows `b` in `a` is what follows it in `s`. */
  lemma SliceOfSuffix(s: string, a: string, b: string)
    requires |a| <= |s| && a == s[|s| - |a|..]
    requires |b| <= |a| && b == a[..|b|]
    ensures b == s[|s| - |a|..|s| - |a| + |b|]
    ensures a[|b|..] == s[|s| - |a| + |b|..]
  {
  }

  /** `str::trim`: both ends. */
  function Trim(s: string): (r: string)
    ensures |r| <= |s|
    ensures r == [] || (!IsWhitespace(r[0]) && !IsWhitespace(r[|r| - 1]))
  {
    TrimEnd(TrimStart(s))
  }

  /** What Trim leaves is a slice of the text with only whitespace before and after it. */
  lemma TrimIsSlice(s: string)
    ensures exists i, j :: 0 <= i <= j <= |s| && Trim(s) == s[i..j] && AllWhitespace(s[..i]) && AllWhitespace(s[j..])
  {
    var a := TrimStart(s);
    var b := TrimEnd(a);
    SliceOfSuffix(s, a, b);
    var i, j := |s| - |a|, |s| - |a| + |b|;
    assert Trim(s) == s[i..j];
    assert AllWhitespace(s[..i]) && AllWhitespace(s[j..]);
  }

  /** Whitespace in front does not change what TrimStart leaves. */
  lemma {:induction false} TrimStartPadded(pre: string, s: string)
    requires AllWhitespace(pre)
    ensures TrimStart(pre + s) == TrimStart(s)
  {
    if pre != [] {
      var t := pre + s;
      assert t[0] == pre[0];
      assert TrimStart(t) == TrimStart(t[1..]);
      assert t[1..] == pre[1..] + s;
      TrimStartPadded(pre[1..], s);
    } else {
      assert pre + s == s;
    }
  }

  /** Whitespace behind does not change what TrimEnd leaves. */
  lemma {:induction false} TrimEndPadded(s: string, post: string)
    requires AllWhitespace(post)
    ensures TrimEnd(s + post) == TrimEnd(s)
  {
    if post != [] {
      var n := |post| - 1;
      var t := s + post;
      assert t[|t| - 1] == post[n];
      assert TrimEnd(t) == TrimEnd(t[..|t| - 1]);
      assert t[..|t| - 1] == s + post[..n];
      TrimEndPadded(s, post[..n]);
    } else {
      assert s + post == s;
    }
  }

  /** Once a non-whitespace character is met, TrimStart keeps everything after it. */
  lemma {:induction false} TrimStartAppend(s: string, post: string)
    requires TrimStart(s) != []
    ensures TrimStart(s + post) == TrimStart(s) + post
  {
    if IsWhitespace(s[0]) {
      assert (s + post)[1..] == s[1..] + post;
      TrimStartAppend(s[1..], post);
    }
  }

  /** A text of whitespace only trims to nothing. */
  lemma {:induction false} TrimStartAllWhitespace(s: string)
    requires AllWhitespace(s)
    ensures TrimStart(s) == []
  {
    if s != [] {
      assert AllWhitespace(s[1..]) by {
        forall i | 0 <= i < |s| - 1 ensures IsWhitespace(s[1..][i]) {
          assert s[1..][i] == s[i + 1];
        }
      }
      TrimStartAllWhitespace(s[1..]);
    }
  }

  /** Whitespace behind a text ends up behind what TrimStart leaves, where TrimEnd removes it again. */
  lemma TrimPaddedEnd(s: string, post: string)
    requires AllWhitespace(post)
    ensures TrimEnd(TrimStart(s + post)) == TrimEnd(TrimStart(s))
  {
    if TrimStart(s) == [] {
      assert s[..|s|] == s;
      assert AllWhitespace(s + post) by {
        forall i | 0 <= i < |s + post| ensures IsWhitespace((s + post)[i]) {
          if i < |s| {
            assert (s + post)[i] == s[i];
          } else {
            assert (s + post)[i] == post[i - |s|];
          }
        }
      }
      TrimStartAllWhitespace(s + post);
    } else {
      TrimStartAppend(s, post);
      TrimEndPadded(TrimStart(s), post);
    }
  }

  /** Whitespace around a text does not change its trimmed form. */
  lemma TrimPadded(pre: string, s: string, post: string)
    requires AllWhitespace(pre) && AllWhitespace(post)
    ensures Trim(pre + s + post) == Trim(s)
  {
    var rest := s + post;
    assert pre + s + post == pre + rest;
    calc {
      Trim(pre + s + post);
      TrimEnd(TrimStart(pre + rest));
      { TrimStartPadded(pre, rest); }
      TrimEnd(TrimStart(rest));
      { TrimPaddedEnd(s, post); }
      TrimEnd(TrimStart(s));
    }
  }

  /** Trimming twice is trimming once. */
  lemma TrimIdempotent(s: string)
    ensures Trim(Trim(s)) == Trim(s)
  {
    var t := Trim(s);
    if t != [] {
      assert TrimStart(t) == t;
    }
  }

  // ---------------------------------------------------------------------------
  // Splitting

  function CountChar(s: string, c: char): (n: nat)
    ensures n <= |s|
  {
    if s == [] then 0 else (if s[0] == c then 1 else 0) + CountChar(s[1..], c)
  }

  /** The parts joined back together with the separator between them. */
  function Join(parts: seq<string>, sep: char): string {
    if parts == [] then []
    else if |parts| == 1 then parts[0]
    else parts[0] + [sep] + Join(parts[1..], sep)
  }

  /**
   * `str::split(sep)` collected into a vector: one part more than there are
   * separators, no part containing the separator, and joining the parts
   * gives back the text (so the empty text is one empty part).
   */
  function Split(s: string, sep: char): (parts: seq<string>)
    ensures |parts| == CountChar(s, sep) + 1
    ensures forall i :: 0 <= i < |parts| ==> sep !in parts[i]
    ensures Join(parts, sep) == s
  {
    if s == [] then [[]]
    else
      var rest := Split(s[1..], sep);
      if s[0] == sep then [[]] + rest
      else [[s[0]] + rest[0]] + rest[1..]
  }

  /** A text without separator is a single part. */
  lemma {:induction false} SplitNoSeparator(s: string, sep: char)
    requires sep !in s
    ensures Split(s, sep) == [s]
  {
    if s != [] {
      SplitNoSeparator(s[1..], sep);
    }
  }

  /** A part followed by the separator splits off first. */
  lemma {:induction false} SplitFirstPart(x: string, sep: char, rest: string)
    requires sep !in x
    ensures Split(x + [sep] + rest, sep) == [x] + Split(rest, sep)
  {
    if x == [] {
      assert ([sep] + rest)[1..] == rest;
    } else {
      assert (x + [sep] + rest)[1..] == x[1..] + [sep] + rest;
      SplitFirstPart(x[1..], sep, rest);
      assert [x[0]] + x[1..] == x;
    }
  }

  /** Splitting undoes joining parts that do not contain the separator. */
  lemma {:induction false} SplitJoin(parts: seq<string>, sep: char)
    requires |parts| > 0
    requires forall i :: 0 <= i < |parts| ==> sep !in parts[i]
    ensures Split(Join(parts, sep), sep) == parts
  {
    if |parts| == 1 {
      SplitNoSeparator(parts[0], sep);
    } else {
      SplitFirstPart(parts[0], sep, Join(parts[1..], sep));
      SplitJoin(parts[1..], sep);
      assert [parts[0]] + parts[1..] == parts;
    }
  }

  // ---------------------------------------------------------------------------
  // Parsing

  /**
   * `parse_coordinates`: exactly two comma-separated parts, each trimmed and
   * converted by `parseNumber` (latitude first), then the latitude range and
   * then the longitude range are checked.
   */
  function ParseCoordinates(input: string, parseNumber: string -> Option<real>): (r: Result<Location, CoordinateError>)
    ensures r == Failure(WrongFormat) <==> CountChar(input, ',') != 1
    ensures r.Success? ==> r.value.Valid()
  {
    var parts := Split(input, ',');
    if |parts| != 2 then Failure(WrongFormat)
    else ParseParts(Trim(parts[0]), Trim(parts[1]), parseNumber)
  }

  /**
   * The part of `parse_coordinates` after the split, on the two trimmed
   * texts: convert the latitude, then the longitude, then check the latitude
   * range, then the longitude range.
   */
  function ParseParts(latText: string, lonText: string, parseNumber: string -> Option<real>): (r: Result<Location, CoordinateError>)
    ensures r != Failure(WrongFormat)
    ensures r.Success? ==> r.value.Valid()
  {
    match parseNumber(latText)
    case None => Failure(InvalidNumber)
    case Some(latitude) =>
      match parseNumber(lonText)
      case None => Failure(InvalidNumber)
      case Some(longitude) =>
        if !ValidLatitude(latitude) then Failure(LatitudeOutOfRange)
        else if !ValidLongitude(longitude) then Failure(LongitudeOutOfRange)
        else Success(Location(latitude, longitude))
  }

  /** "lat,lon" splits into exactly the two texts around the comma. */
  lemma SplitCoordinates(latText: string, lonText: string)
    requires ',' !in latText && ',' !in lonText
    ensures Split(latText + "," + lonText, ',') == [latText, lonText]
  {
    SplitFirstPart(latText, ',', lonText);
    SplitNoSeparator(lonText, ',');
  }

  /** Whitespace around a text without a comma adds no comma. */
  lemma PaddedHasNoComma(pre: string, x: string, post: string)
    requires ',' !in x && AllWhitespace(pre) && AllWhitespace(post)
    ensures ',' !in pre + x + post
  {
    forall i | 0 <= i < |pre + x + post| ensures (pre + x + post)[i] != ',' {
      if i < |pre| {
        assert (pre + x + post)[i] == pre[i];
      } else if i < |pre| + |x| {
        assert (pre + x + post)[i] == x[i - |pre|];
      } else {
        assert (pre + x + post)[i] == post[i - |pre| - |x|];
      }
    }
  }

  /** Whitespace around either number does not change the outcome. */
  lemma ParseIgnoresPadding(latText: string, lonText: string, p1: string, p2: string, p3: string, p4: string,
                            parseNumber: string -> Option<real>)
    requires ',' !in latText && ',' !in lonText
    requires AllWhitespace(p1) && AllWhitespace(p2) && AllWhitespace(p3) && AllWhitespace(p4)
    ensures ParseCoordinates(p1 + latText + p2 + "," + p3 + lonText + p4, parseNumber)
         == ParseCoordinates(latText + "," + lonText, parseNumber)
  {
    var padLat, padLon := p1 + latText + p2, p3 + lonText + p4;
    PaddedHasNoComma(p1, latText, p2);
    PaddedHasNoComma(p3, lonText, p4);
    assert p1 + latText + p2 + "," + p3 + lonText + p4 == padLat + "," + padLon;
    TrimPadded(p1, latText, p2);
    TrimPadded(p3, lonText, p4);
    ParseSameTrimmed(padLat, padLon, latText, lonText, parseNumber);
  }

  /** Two comma-free pairs that trim alike parse alike. */
  lemma ParseSameTrimmed(latText: string, lonText: string, latText': string, lonText': string,
                         parseNumber: string -> Option<real>)
    requires ',' !in latText && ',' !in lonText && ',' !in latText' && ',' !in lonText'
    requires Trim(latText) == Trim(latText') && Trim(lonText) == Trim(lonText')
    ensures ParseCoordinates(latText + "," + lonText, parseNumber)
         == ParseCoordinates(latText' + "," + lonText', parseNumber)
  {
    ParseTwoParts(latText, lonText, parseNumber);
    ParseTwoParts(latText', lonText', parseNumber);
  }

  /** "lat,lon" is decided by its two trimmed texts alone. */
  lemma ParseTwoParts(latText: string, lonText: string, parseNumber: string -> Option<real>)
    requires ',' !in latText && ',' !in lonText
    ensures ParseCoordinates(latText + "," + lonText, parseNumber)
         == ParseParts(Trim(latText), Trim(lonText), parseNumber)
  {
    SplitCoordinates(latText, lonText);
  }

  /** A part that is not a number is rejected, whatever the other part holds. */
  lemma ParseRejectsInvalidNumber(latText: string, lonText: string, parseNumber: string -> Option<real>)
    requires ',' !in latText && ',' !in lonText
    requires parseNumber(Trim(latText)).None? || parseNumber(Trim(lonText)).None?
    ensures ParseCoordinates(latText + "," + lonText, parseNumber) == Failure(InvalidNumber)
  {
    ParseTwoParts(latText, lonText, parseNumber);
  }

  /**
   * A latitude outside [-90, 90] is rejected as such, even when the longitude
   * is out of range too: the latitude is checked first.
   */
  lemma ParseRejectsLatitude(latText: string, lonText: string, parseNumber: string -> Option<real>, latitude: real, longitude: real)
    requires ',' !in latText && ',' !in lonText
    requires parseNumber(Trim(latText)) == Some(latitude) && parseNumber(Trim(lonText)) == Some(longitude)
    requires !ValidLatitude(latitude)
    ensures ParseCoordinates(latText + "," + lonText, parseNumber) == Failure(LatitudeOutOfRange)
  {
    ParseTwoParts(latText, lonText, parseNumber);
  }

  /** With the latitude in range, a longitude outside [-180, 180] is rejected. */
  lemma ParseRejectsLongitude(latText: string, lonText: string, parseNumber: string -> Option<real>, latitude: real, longitude: real)
    requires ',' !in latText && ',' !in lonText
    requires parseNumber(Trim(latText)) == Some(latitude) && parseNumber(Trim(lonText)) == Some(longitude)
    requires ValidLatitude(latitude)
    requires !ValidLongitude(longitude)
    ensures ParseCoordinates(latText + "," + lonText, parseNumber) == Failure(LongitudeOutOfRange)
  {
    ParseTwoParts(latText, lonText, parseNumber);
  }

  /** Two in-range numbers give the location made of exactly those numbers. */
  lemma ParseAccepts(latText: string, lonText: string, parseNumber: string -> Option<real>, latitude: real, longitude: real)
    requires ',' !in latText && ',' !in lonText
    requires parseNumber(Trim(latText)) == Some(latitude) && parseNumber(Trim(lonText)) == Some(longitude)
    requires ValidLatitude(latitude) && ValidLongitude(longitude)
    ensures ParseCoordinates(latText + "," + lonText, parseNumber) == Success(Location(latitude, longitude))
  {
    ParseTwoParts(latText, lonText, parseNumber);
  }

  /** Three comma-free parts are one comma too many. */
  lemma ParseRejectsThreeParts(a: string, b: string, c: string, parseNumber: string -> Option<real>)
    requires ',' !in a && ',' !in b && ',' !in c
    ensures ParseCoordinates(a + "," + b + "," + c, parseNumber) == Failure(WrongFormat)
  {
    SplitCoordinates(b, c);
    SplitFirstPart(a, ',', b + "," + c);
    assert a + "," + b + "," + c == a + [','] + (b + "," + c);
  }

  /** The one-part input of the parser's tests is malformed. */
  lemma ParseOnePartSample(parseNumber: string -> Option<real>)
    ensures ParseCoordinates("48.8566", parseNumber) == Failure(WrongFormat)
  {
    SplitNoSeparator("48.8566", ',');
  }

  /** The three-part input of the parser's tests is malformed. */
  lemma ParseThreePartsSample(parseNumber: string -> Option<real>)
    ensures ParseCoordinates("48.8566, 2.3522, 100", parseNumber) == Failure(WrongFormat)
  {
    var lat, lon, extra := "48.8566", " 2.3522", " 100";
    assert lat + "," + lon + "," + extra == "48.8566, 2.3522, 100";
    ParseRejectsThreeParts(lat, lon, extra, parseNumber);
  }
}
