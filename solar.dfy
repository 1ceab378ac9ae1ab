/** The sun's altitude and azimuth for a civil time and a position on Earth
    (DaySync.CalculateSunPosition): the Julian Day, the NOAA / Meeus chapter 25
    low-precision solar series, the true solar time and hour angle, then
    altitude and azimuth through clamped inverse trigonometry. */
module Solar {
  import opened Numerics
  import opened Calendar

  /** A sine or cosine value. */
  type SinCos = x: real | -1.0 <= x <= 1.0

  /** An arcsine, in degrees. */
  type AsinDegrees = x: real | -90.0 <= x <= 90.0

  /** An arccosine, in degrees. */
  type AcosDegrees = x: real | 0.0 <= x <= 180.0

  /** Unity's Mathf.Sin, Cos, Tan, Asin and Acos, together with the DegToRad
      and RadToDeg conversions DaySync wraps around every call: arguments
      and results are in degrees. Nothing is known of them but their ranges. */
  datatype Trig = Trig(
    sin: real -> SinCos,
    cos: real -> SinCos,
    tan: real -> real,
    asin: SinCos -> AsinDegrees,
    acos: SinCos -> AcosDegrees)

  /** Mathf.PI, the single-precision value of pi. */
  const PI: real := 3.14159274101257324

  const RAD_TO_DEG: real := 180.0 / PI

  /** The product of two sines or cosines is again in [-1, 1]. */
  function SinCosProduct(a: SinCos, b: SinCos): SinCos {
    ProductBound(a, b);
    a * b
  }

  lemma ProductBound(a: SinCos, b: SinCos)
    ensures -1.0 <= a * b <= 1.0
  {
    if a >= 0.0 && b >= 0.0 {
      MagnitudeBound(a, b);
    } else if a < 0.0 && b >= 0.0 {
      MagnitudeBound(-a, b);
      assert (-a) * b == -(a * b);
    } else if a >= 0.0 {
      MagnitudeBound(a, -b);
      assert a * (-b) == -(a * b);
    } else {
      MagnitudeBound(-a, -b);
      assert (-a) * (-b) == a * b;
    }
  }

  lemma MagnitudeBound(x: real, y: real)
    requires 0.0 <= x <= 1.0 && 0.0 <= y <= 1.0
    ensures 0.0 <= x * y <= 1.0
  {
    assert 0.0 <= x * y by {
      if x > 0.0 && y > 0.0 {
        assert x * y > 0.0 * y;
      }
    }
    assert x * y <= 1.0 * y by {
      assert (1.0 - x) * y >= 0.0 * y;
    }
  }

  /** The quantities of the solar series that the rest of the computation
      uses, in degrees and (for the equation of time) minutes. */
  datatype Coordinates = Coordinates(meanLongitude: real, declination: real, equationOfTime: real)

  /** DaySync.cs lines 80-104. The mean longitude is reduced by C#'s `% 360`, which keeps
      its sign, and the mean anomaly is not reduced at all. */
  function SunCoordinates(trig: Trig, julianCentury: real): (c: Coordinates)
    ensures -360.0 < c.meanLongitude < 360.0
    ensures -90.0 <= c.declination <= 90.0
  {
    var jc := julianCentury;
    var meanLong := FloatRem(280.46646 + jc * (36000.76983 + jc * 0.0003032), 360.0);
    var meanAnom := 357.52911 + jc * (35999.05029 - 0.0001537 * jc);
    var eccent := 0.016708634 - jc * (0.000042037 + 0.0000001267 * jc);
    var eqOfCtr := trig.sin(meanAnom) * (1.914602 - jc * (0.004817 + 0.000014 * jc))
                   + trig.sin(2.0 * meanAnom) * (0.019993 - 0.000101 * jc)
                   + trig.sin(3.0 * meanAnom) * 0.000289;
    var trueLong := meanLong + eqOfCtr;
    var appLong := trueLong - 0.00569 - 0.00478 * trig.sin(125.04 - 1934.136 * jc);
    var meanObliq := 23.0 + (26.0 + (21.448 - jc * (46.815 + jc * (0.00059 - jc * 0.001813))) / 60.0) / 60.0;
    var obliqCorr := meanObliq + 0.00256 * trig.cos(125.04 - 1934.136 * jc);
    var declination := trig.asin(SinCosProduct(trig.sin(obliqCorr), trig.sin(appLong)));
    var tanHalf := trig.tan(obliqCorr / 2.0);
    var varY := tanHalf * tanHalf;
    var equationOfTime := 4.0 * (varY * trig.sin(2.0 * meanLong)
                                 - 2.0 * eccent * trig.sin(meanAnom)
                                 + 4.0 * eccent * varY * trig.sin(meanAnom) * trig.cos(2.0 * meanLong)
                                 - 0.5 * varY * varY * trig.sin(4.0 * meanLong)
                                 - 1.25 * eccent * eccent * trig.sin(2.0 * meanAnom)) * RAD_TO_DEG;
    Coordinates(meanLong, declination, equationOfTime)
  }

  /** DaySync.cs line 107: minutes past true solar midnight, reduced by C#'s `% 1440`,
      so negative when the unreduced sum is. */
  function TrueSolarTime(hours: real, equationOfTime: real, longitude: real): (tst: real)
    ensures -1440.0 < tst < 1440.0
    ensures (tst < 0.0) ==> hours * 60.0 + equationOfTime + 4.0 * longitude < 0.0
    ensures hours * 60.0 + equationOfTime + 4.0 * longitude <= 0.0 ==> tst <= 0.0
    ensures 0.0 <= hours * 60.0 + equationOfTime + 4.0 * longitude < 1440.0
            ==> tst == hours * 60.0 + equationOfTime + 4.0 * longitude
    ensures var sum := hours * 60.0 + equationOfTime + 4.0 * longitude;
            ((sum - tst) / 1440.0).Floor as real == (sum - tst) / 1440.0
  {
    FloatRem(hours * 60.0 + equationOfTime + 4.0 * longitude, 1440.0)
  }

  /** DaySync.cs lines 110-111: a quarter of the true solar time, less 180 degrees, with
      one +360 fix-up. The fix-up fires exactly when the true solar time is
      negative, and on what `% 1440` produces the result lies in [-180, 180). */
  function HourAngle(trueSolarTime: real): (ha: real)
    ensures ha == trueSolarTime / 4.0 - 180.0 || ha == trueSolarTime / 4.0 + 180.0
    ensures ha == trueSolarTime / 4.0 + 180.0 <==> trueSolarTime < 0.0
    ensures -1440.0 < trueSolarTime < 1440.0 ==> -180.0 <= ha < 180.0
  {
    var ha := trueSolarTime / 4.0 - 180.0;
    if ha < -180.0 then ha + 360.0 else ha
  }

  /** DaySync.cs line 119: the sine of the altitude from the spherical law of cosines. */
  function SinAltitude(trig: Trig, latitude: real, declination: real, hourAngle: real): (s: real)
    ensures -2.0 <= s <= 2.0
  {
    SinCosProduct(trig.sin(latitude), trig.sin(declination))
    + SinCosProduct(SinCosProduct(trig.cos(latitude), trig.cos(declination)), trig.cos(hourAngle))
  }

  /** DaySync.cs line 120: the argument is clamped to [-1, 1] before Mathf.Asin, so the
      altitude is always an angle in [-90, 90]; out-of-range sines give the
      zenith or nadir value. */
  function Altitude(trig: Trig, sinAltitude: real): (alt: real)
    ensures -90.0 <= alt <= 90.0
    ensures sinAltitude >= 1.0 ==> alt == trig.asin(1.0)
    ensures sinAltitude <= -1.0 ==> alt == trig.asin(-1.0)
    ensures -1.0 <= sinAltitude <= 1.0 ==> alt == trig.asin(sinAltitude)
  {
    trig.asin(Clamp(sinAltitude, -1.0, 1.0))
  }

  /** Mathf.Acos on a possibly non-finite value: NaN in, NaN out. */
  function AcosFloat(trig: Trig, x: Float): (r: Float)
    requires x.NaN? || (x.Num? && -1.0 <= x.v <= 1.0)
    ensures r.NaN? <==> x.NaN?
    ensures r.Num? ==> 0.0 <= r.v <= 180.0
  {
    if x.NaN? then NaN else Num(trig.acos(x.v))
  }

  /** DaySync.cs line 123: the numerator of the azimuth's cosine. It uses the unclamped
      sine of the altitude. */
  function AzimuthNumerator(trig: Trig, latitude: real, declination: real, sinAltitude: real): (n: real)
    ensures -1.0 <= sinAltitude <= 1.0 ==> -2.0 <= n <= 2.0
    ensures trig.sin(latitude) == 0.0 ==> n == trig.sin(declination)
  {
    var p := trig.sin(latitude) * sinAltitude;
    assert -1.0 <= sinAltitude <= 1.0 ==> -1.0 <= p <= 1.0 by {
      if -1.0 <= sinAltitude <= 1.0 {
        ProductBound(trig.sin(latitude), sinAltitude);
      }
    }
    trig.sin(declination) - p
  }

  /** DaySync.cs line 123: the denominator, which is not guarded against zero.
      It is zero exactly when the latitude or the altitude is at a right angle
      for Mathf.Cos. */
  function AzimuthDenominator(trig: Trig, latitude: real, altitude: real): (d: real)
    ensures -1.0 <= d <= 1.0
    ensures d == 0.0 <==> trig.cos(latitude) == 0.0 || trig.cos(altitude) == 0.0
  {
    SinCosProduct(trig.cos(latitude), trig.cos(altitude))
  }

  /** DaySync.cs lines 123-128. The clamped quotient goes through Mathf.Acos, and the
      result is mirrored to 360 - azimuth on the afternoon side (hour angle
      above zero). The azimuth is NaN exactly when numerator and denominator
      are both zero; otherwise it is a number in [0, 360], at most 180 in the
      morning and at least 180 in the afternoon. */
  function Azimuth(trig: Trig, latitude: real, declination: real,
                   sinAltitude: real, altitude: real, hourAngle: real): (az: Float)
    ensures az.NaN? <==> AzimuthNumerator(trig, latitude, declination, sinAltitude) == 0.0
                         && AzimuthDenominator(trig, latitude, altitude) == 0.0
    ensures az.Num? <==> !az.NaN?
    ensures az.Num? ==> 0.0 <= az.v <= 360.0
    ensures az.Num? && hourAngle <= 0.0 ==> az.v <= 180.0
    ensures az.Num? && hourAngle > 0.0 ==> az.v >= 180.0
  {
    var quotient := Divide(AzimuthNumerator(trig, latitude, declination, sinAltitude),
                           AzimuthDenominator(trig, latitude, altitude));
    var cosAzimuth := ClampFloat(quotient, -1.0, 1.0);
    var azimuth := AcosFloat(trig, cosAzimuth);
    if hourAngle > 0.0 then SubtractFrom(360.0, azimuth) else azimuth
  }

  /** 360 itself is reached, so the range is [0, 360] and not [0, 360): in the
      afternoon, when the quotient is at least 1 and Mathf.Acos(1) is 0. */
  lemma AzimuthReaches360(trig: Trig, latitude: real, declination: real,
                          sinAltitude: real, altitude: real, hourAngle: real)
    requires trig.acos(1.0) == 0.0 && hourAngle > 0.0
    requires AzimuthDenominator(trig, latitude, altitude) != 0.0
    requires AzimuthNumerator(trig, latitude, declination, sinAltitude)
             / AzimuthDenominator(trig, latitude, altitude) >= 1.0
    ensures Azimuth(trig, latitude, declination, sinAltitude, altitude, hourAngle) == Num(360.0)
  {
  }

  /** What CalculateSunPosition feeds to Quaternion.Euler, with the hour angle
      that decided the azimuth's side. */
  datatype Horizontal = Horizontal(altitude: real, azimuth: Float, hourAngle: real)

  /** DaySync.cs lines 58-128 for a time, a latitude and a longitude in degrees. */
  function SolarAngles(trig: Trig, dateTime: DateTime, latitude: real, longitude: real): (h: Horizontal)
    requires WellFormed(dateTime)
    ensures -90.0 <= h.altitude <= 90.0
    ensures -180.0 <= h.hourAngle < 180.0
    ensures h.azimuth.Num? || h.azimuth.NaN?
    ensures h.azimuth.Num? ==> 0.0 <= h.azimuth.v <= 360.0
    ensures h.azimuth.Num? ==> (h.hourAngle > 0.0 <==> h.azimuth.v > 180.0) || h.azimuth.v == 180.0
  {
    var julianCentury := JulianCentury(JulianDay(dateTime));
    var c := SunCoordinates(trig, julianCentury);
    var tst := TrueSolarTime(DecimalHours(dateTime), c.equationOfTime, longitude);
    var hourAngle := HourAngle(tst);
    var sinAltitude := SinAltitude(trig, latitude, c.declination, hourAngle);
    var altitude := Altitude(trig, sinAltitude);
    Horizontal(altitude, Azimuth(trig, latitude, c.declination, sinAltitude, altitude, hourAngle), hourAngle)
  }
}
