/**
 * Turning the EXIF GPS block into decimal coordinates: `convert_to_degrees`
 * and the tail of `extract_gps_from_exif` that picks the latitude and
 * longitude out of the decoded GPS tags. Arithmetic is exact (`real`).
 */
module Gps {
  import opened Wrappers

  /** An EXIF rational: numerator and denominator, as stored in the image. */
  datatype Ratio = Ratio(num: int, den: int)

  /** A coordinate in degrees, minutes and seconds, each an EXIF rational. */
  datatype Dms = Dms(degrees: Ratio, minutes: Ratio, seconds: Ratio)

  /** Latitude and longitude in decimal degrees. */
  type Coords = (real, real)

  function Value(q: Ratio): real
    requires q.den != 0
  {
    q.num as real / q.den as real
  }

  /** Every division in the conversion has a nonzero denominator. */
  predicate Divisible(v: Dms) {
    v.degrees.den != 0 && v.minutes.den != 0 && v.seconds.den != 0
  }

  /**
   * `d + m/60 + s/3600`; `None` stands for the `ZeroDivisionError` a zero
   * denominator raises.
   */
  function ConvertToDegrees(v: Dms): (r: Option<real>)
    ensures r.Some? <==> Divisible(v)
  {
    if Divisible(v) then
      Some(Value(v.degrees) + Value(v.minutes) / 60.0 + Value(v.seconds) / 3600.0)
    else None
  }

  /** No hemisphere sign is applied: non-negative parts give a non-negative result. */
  lemma ConvertNonNegative(v: Dms)
    requires v.degrees.num >= 0 && v.minutes.num >= 0 && v.seconds.num >= 0
    requires v.degrees.den > 0 && v.minutes.den > 0 && v.seconds.den > 0
    ensures ConvertToDegrees(v).Some? && ConvertToDegrees(v).value >= 0.0
  {
  }

  /**
   * The decimal value gives back the DMS triple it came from when the degrees
   * and minutes are whole and minutes and seconds are below 60: the whole part
   * is the degrees, the whole part of the remaining fraction times 60 is the
   * minutes, and what is left, times 60, is the seconds.
   */
  lemma ConvertRecoversDms(v: Dms)
    requires v.degrees.den == 1 && v.minutes.den == 1 && v.seconds.den != 0
    requires 0 <= v.minutes.num < 60
    requires 0.0 <= Value(v.seconds) < 60.0
    ensures ConvertToDegrees(v).Some?
    ensures ConvertToDegrees(v).value.Floor == v.degrees.num
    ensures ((ConvertToDegrees(v).value - v.degrees.num as real) * 60.0).Floor == v.minutes.num
    ensures ((ConvertToDegrees(v).value - v.degrees.num as real) * 60.0 - v.minutes.num as real) * 60.0
            == Value(v.seconds)
  {
  }

  /** The worked example: 48° 51' 29" is 48 + 51/60 + 29/3600, about 48.8581. */
  lemma ConvertExample()
    ensures ConvertToDegrees(Dms(Ratio(48, 1), Ratio(51, 1), Ratio(29, 1))) == Some(175889.0 / 3600.0)
    ensures 48.858 < 175889.0 / 3600.0 < 48.8581
  {
  }

  /**
   * The decoded GPS tags yield coordinates exactly when both `GPSLatitude` and
   * `GPSLongitude` are present and convert; a failed conversion is swallowed
   * into `None`, as is a missing tag. The reference tags (N/S, E/W) are not
   * consulted.
   */
  function CoordsFromGpsInfo(gpsInfo: map<string, Dms>): (r: Option<Coords>)
    ensures r.Some? <==>
              && "GPSLatitude" in gpsInfo && "GPSLongitude" in gpsInfo
              && Divisible(gpsInfo["GPSLatitude"]) && Divisible(gpsInfo["GPSLongitude"])
    ensures r.Some? ==> Some(r.value.0) == ConvertToDegrees(gpsInfo["GPSLatitude"])
    ensures r.Some? ==> Some(r.value.1) == ConvertToDegrees(gpsInfo["GPSLongitude"])
  {
    if "GPSLatitude" in gpsInfo && "GPSLongitude" in gpsInfo then
      var lat := ConvertToDegrees(gpsInfo["GPSLatitude"]);
      var lon := ConvertToDegrees(gpsInfo["GPSLongitude"]);
      if lat.Some? && lon.Some? then Some((lat.value, lon.value)) else None
    else None
  }
}
