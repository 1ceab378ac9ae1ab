# DaySync sun model

DaySync is a VRChat (UdonSharp) behaviour that turns a directional light, the
"sun", so that it matches where the real sun stands in the sky above a chosen
latitude and longitude. It reads one of two clocks every frame:

- the local wall clock;
- the network clock shifted by a whole-hour `timeZone`.

From that time it computes the following:

1. the Julian Day (Meeus, *Astronomical Algorithms*, formula 7.1) and the
   Julian Century;
2. the low-precision solar series (mean longitude, anomaly, declination,
   equation of time);
3. the true solar time and the hour angle;
4. the altitude and azimuth.

It then sets the sun's rotation to `Quaternion.Euler(altitude, azimuth, 0)`,
either at once or by `Slerp` at `deltaTime * lerpSpeed`.

The project has four modules:

- `Numerics` (`numerics.dfy`) holds the C# and Unity arithmetic the
  computation depends on:
  - integer `/`, which truncates toward zero;
  - float `%`, which keeps the sign of the dividend;
  - `Mathf.Clamp`;
  - the non-finite results (infinities, NaN) of the one unguarded division.
- `Calendar` (`calendar.dfy`) holds the proleptic Gregorian date-time that
  .NET's `DateTime` represents (years 1 to 9999), the Julian Day of
  `DaySync.cs` lines 59-78 computed exactly, and `DateTime.AddHours`,
  modelled by stepping one hour at a time.
- `Solar` (`solar.dfy`) holds lines 80-128 as pure functions. `Mathf.Sin`,
  `Cos`, `Tan`, `Asin` and `Acos` (with the degree/radian conversions around
  them) are a record of functions passed in as a parameter, and only their
  ranges are known.
- `Component` (`day_sync.dfy`) holds the `DaySync` class with the fields the
  behaviour has, and `Awake`, `GetTime` and `Update`. The clocks,
  `Quaternion.Euler` and `Quaternion.Slerp` are parameters.

## Model

| member | source | states |
|---|---|---|
| `Numerics.TruncDiv` | Runtime/DaySync.cs:69-70 | C# integer division by a positive divisor: equals Euclidean division on non-negative dividends, and the remainder is in [0, b) for non-negative dividends and in (-b, 0] for negative ones (truncation toward zero) |
| `Numerics.FloatRem` | Runtime/DaySync.cs:107 | C# float `%`: the result is in (-m, m), has the sign of the dividend, equals the dividend when that is already in (-m, m), and differs from it by a whole multiple of m |
| `Numerics.Clamp` | Runtime/DaySync.cs:120 | `Mathf.Clamp`: result within [min, max]; the value itself when inside; min below; max above |
| `Numerics.Divide` | Runtime/DaySync.cs:123 | float division: finite exactly when the denominator is non-zero (and then times the denominator gives the numerator); NaN exactly for 0/0; +Infinity exactly for a positive numerator over zero |
| `Numerics.ClampFloat` | Runtime/DaySync.cs:124 | `Mathf.Clamp` on a possibly non-finite value: NaN stays NaN, every other input becomes a number within the bounds; +Infinity becomes max and -Infinity min; a finite value is clamped exactly as `Mathf.Clamp` does (kept inside, nearer bound outside) |
| `Numerics.SubtractFrom` | Runtime/DaySync.cs:128 | `360 - azimuth` on a possibly non-finite value: NaN stays NaN, a number gives the number that adds back to c, +Infinity becomes -Infinity and -Infinity becomes +Infinity |
| `Calendar.ShiftYearStart` | Runtime/DaySync.cs:64-67 | for a month in 1..12 the adjusted month is in [3, 14]; year*12+month is unchanged (the same absolute month); March to December are left alone |
| `Calendar.YearTermIsFloor` | Runtime/DaySync.cs:71 | the integer year term `(1461 (y + 4716)) / 4` of `DayNumber` is exactly floor(365.25 (y + 4716)) |
| `Calendar.MonthTermIsFloor` | Runtime/DaySync.cs:71 | the integer month term `(306001 (m + 1)) / 10000` of `DayNumber` is exactly floor(30.6001 (m + 1)) |
| `Calendar.JulianCenturyScale` | Runtime/DaySync.cs:78 | `JulianCentury` advances by days/36525 for every span of days (one per 36525 days) and is 0 at Julian Day 2451545 |
| `Calendar.DecimalHours` | Runtime/DaySync.cs:74 | for a well-formed time the decimal hour is in [0, 24) and its integer part is the hour |
| `Calendar.MidnightIsHalfDay` | Runtime/DaySync.cs:69-75 | at 00:00:00 the Julian Day is a half-integer |
| `Calendar.TimeOfDayFraction` | Runtime/DaySync.cs:73-75 | the time of day adds a fraction in [0, 1) to the Julian Day of the same date's midnight, and the civil day (Julian Day + 0.5, floored) does not change |
| `Calendar.J2000Epoch` | Runtime/DaySync.cs:69-78 | 2000-01-01 12:00:00 has Julian Day 2451545 and Julian Century 0 |
| `Calendar.YearTermStep` | Runtime/DaySync.cs:71 | floor(365.25 (y + 4716)) grows by 366 into a year y + 1 divisible by 4, by 365 otherwise |
| `Calendar.MonthTermStep` | Runtime/DaySync.cs:71 | between consecutive counting months 3..14, floor(30.6001 (m + 1)) grows by the length of the month that ends |
| `Calendar.CenturyTermStep` | Runtime/DaySync.cs:69-70 | the Gregorian correction `2 - a + a/4` drops by one exactly at century years not divisible by 400, and is otherwise the same as the year before |
| `Calendar.MarchFollowsFebruary` | Runtime/DaySync.cs:64-71 | the day-number terms of March 1 exceed those of the last day of February by one: the length of the counting year, less the century correction, absorbs February's 28 or 29 days |
| `Calendar.NextDayNumber` | Runtime/DaySync.cs:59-71 | consecutive calendar days (within a month, at month ends, on February 28/29 and on December 31) get consecutive day numbers, from year 1 on |
| `Calendar.NextDayJulianDay` | Runtime/DaySync.cs:59-75 | the same time of day on the next calendar day has a Julian Day exactly 1 larger |
| `Calendar.PrevDay` | Runtime/DaySync.cs:40-41 | the day before a date is a valid date whose next day is that date, in the same or the previous year |
| `Calendar.PrevHour` | Runtime/DaySync.cs:40-41 | the hour before is well formed, keeps minute and second, and the hour after it is the starting time |
| `Calendar.PrevHourOfNextHour` | Runtime/DaySync.cs:40-41 | stepping one hour forward and one back returns the starting time |
| `Calendar.AddHours` | Runtime/DaySync.cs:40-41 | `DateTime.AddHours`: there is a result exactly when the time shifted by h hours lies in years 1 to 9999 (otherwise .NET throws), and the result is that shifted time, a valid DateTime with the same minute and second |
| `Calendar.EarlierOfLater` | Runtime/DaySync.cs:40-41 | going k hours back undoes going k hours forward |
| `Calendar.LaterOfEarlier` | Runtime/DaySync.cs:40-41 | going k hours forward undoes going k hours back |
| `Calendar.NextHourIndex` | Runtime/DaySync.cs:40-41 | one hour forward raises the hour count (day number * 24 + hour) by one, including across day, month and year ends |
| `Calendar.EarlierIndex` | Runtime/DaySync.cs:40-41 | k hours back that stay in years from 1 on lower the hour count by k |
| `Calendar.LaterIndex` | Runtime/DaySync.cs:40-41 | k hours forward from year 1 on raise the hour count by k |
| `Calendar.ShiftHoursIndex` | Runtime/DaySync.cs:40-41 | a shift by h hours, forward or back, changes the hour count by exactly h |
| `Calendar.AddHoursShift` | Runtime/DaySync.cs:40-41 | when AddHours succeeds, the result is exactly h hours later: the hour count grows by h and the Julian Day by h/24 |
| `Calendar.AddHoursRoundTrip` | Runtime/DaySync.cs:40-41 | adding -h hours to the result of adding h hours gives back the original time |
| `Solar.ProductBound` | Runtime/DaySync.cs:94 | the product of two sines stays in [-1, 1], so the unclamped `Asin` argument of the declination is in its domain |
| `Solar.SunCoordinates` | Runtime/DaySync.cs:80-104 | the mean longitude after C#'s `% 360` is in (-360, 360) and may be negative; the declination is in [-90, 90] |
| `Solar.TrueSolarTime` | Runtime/DaySync.cs:107 | C#'s `% 1440` of the minute sum: the result is in (-1440, 1440), differs from the sum by a whole multiple of 1440, is negative only when the sum is and at most 0 whenever the sum is (the sign of the dividend, not floor-mod), and equals the sum when the sum already lies in [0, 1440) |
| `Solar.HourAngle` | Runtime/DaySync.cs:109-111 | the hour angle is tst/4 - 180 or tst/4 + 180; the +360 fix-up fires exactly when the true solar time is negative; for every true solar time that `% 1440` produces, the result is in [-180, 180) |
| `Solar.SinAltitude` | Runtime/DaySync.cs:119 | the spherical-law-of-cosines sum is in [-2, 2] (the reason for the clamp that follows) |
| `Solar.Altitude` | Runtime/DaySync.cs:120 | the altitude is in [-90, 90] for every input; above 1 it is asin(1), below -1 it is asin(-1), inside [-1, 1] it is asin of the sine itself |
| `Solar.AcosFloat` | Runtime/DaySync.cs:125 | `Mathf.Acos` on a clamped value: NaN exactly when the input is NaN, otherwise in [0, 180] |
| `Solar.AzimuthNumerator` | Runtime/DaySync.cs:123 | the numerator sin(dec) - sin(lat) sinAltitude is in [-2, 2] whenever the sine of the altitude is in [-1, 1], and is sin(dec) at the equator |
| `Solar.AzimuthDenominator` | Runtime/DaySync.cs:123 | the denominator cos(lat) cos(altitude) is in [-1, 1] and is zero exactly when one of the two cosines is (a pole, or the sun at zenith or nadir) |
| `Solar.Azimuth` | Runtime/DaySync.cs:122-128 | NaN exactly when the numerator and the denominator of line 123 are both zero, otherwise a number in [0, 360]; at most 180 when the hour angle is at most 0, at least 180 when it is above 0 |
| `Solar.AzimuthReaches360` | Runtime/DaySync.cs:123-128 | in the afternoon, with a quotient of at least 1 and acos(1) = 0, the azimuth is exactly 360, so the range is [0, 360] and not [0, 360) |
| `Solar.SolarAngles` | Runtime/DaySync.cs:58-128 | for any well-formed time, latitude and longitude: altitude in [-90, 90], hour angle in [-180, 180), azimuth a number in [0, 360] or NaN, and on the afternoon side (hour angle above 0) exactly when it is above 180, unless it is 180 |
| `Component.InterpolationFactor` | Runtime/DaySync.cs:50 | the Slerp factor `Time.deltaTime * lerpSpeed` is 0 in a frame of no time, never negative for non-negative inputs, and at least 1 once the frame lasts 1/lerpSpeed or more |
| `Component.DaySync.CalculateSunPosition` | Runtime/DaySync.cs:58-132 | the target is `Quaternion.Euler` of an altitude in [-90, 90], an azimuth in [0, 360] or NaN, and roll 0 |
| `Component.DaySync.constructor` | Runtime/DaySync.cs:9-25 | a new component has the field initialisers: lerp on, latitude 48.8566, longitude 2.3522, lerpSpeed 2, timeZone 0, enabled |
| `Component.DaySync.Awake` | Runtime/DaySync.cs:30-34 | without a sun the component is disabled; with one, `enabled` keeps its value; nothing else changes |
| `Component.DaySync.GetTime` | Runtime/DaySync.cs:36-42 | Local mode returns the local clock unchanged and ignores timeZone; Reference mode returns the network clock exactly timeZone hours later (hour count + timeZone, same minute and second, Julian Day + timeZone/24), and fails exactly when that leaves years 1 to 9999; with timeZone 0 it returns the network clock itself; only Reference mode can fail |
| `Component.DaySync.Update` | Runtime/DaySync.cs:44-52 | without a sun nothing changes; when GetTime fails the sun is untouched; with lerp off the sun's rotation becomes exactly Euler(altitude, azimuth, 0) for the current time; with lerp on it becomes Slerp(previous rotation, that target, deltaTime * lerpSpeed); only the sun's transform is written |

## Left out

- `Editor/SyncEditor.cs` (the inspector: sliders, the `+0;-0;0` offset format, `SetDirty`, `Repaint`) is not part of this model; it has no effect on the computation.
- The clocks `DateTime.Now`, `Networking.GetNetworkDateTime()` and `Time.deltaTime` are inputs (`Clocks`), read once per call; milliseconds and the `DateTimeKind` are not modelled, because the source never reads them.
- `Quaternion.Euler`, `Quaternion.Slerp` and the quaternion inside a `Transform` are Unity library code: they are parameters with no known properties, so nothing is proved about convergence of the interpolation.
- Component.InterpolationFactor: a factor of 1 or more lands on the target only because Unity clamps `t` to [0, 1] inside `Quaternion.Slerp`; the model does not capture that clamp, so it does not claim that the sun reaches the target in such a frame.
- `Mathf.Sin`, `Cos`, `Tan`, `Asin`, `Acos` are known only by their ranges, so astronomical accuracy (the sun's actual position on a given day) is not stated.
- Single-precision floating point is not modelled; all arithmetic is on exact reals and integers. In particular, the sum at line 75 (a Julian Day near 2.46 million in `float`) rounds the time of day to a quarter day in the original. Above about year 6768 (after the January/February shift), `365.25f * (year + 4716)` can round up to the next integer before `Mathf.Floor`, so the exact `YearTerm` differs from the float result there.
- Numerics.Divide: the sign of a zero denominator is not modelled (it is taken as +0), so `n / -0` gives the infinity of the sign of n.
- Solar.Azimuth: with exact trigonometry the denominator at line 123 is zero at latitudes of ±90 and when the sun is at the zenith or nadir; whether single-precision `Mathf.Cos` ever returns exactly zero there is not modelled, so the NaN case is a possibility of the exact model rather than a claim about the float program.
- `Debug.LogError` in `Awake` is not modelled (output only).
- Component.DaySync.Awake: Unity's `if (sun)` is also false for a destroyed object; the model only knows an absent sun (`null`).
- Component.DaySync.Update: Unity calls `Update` only while the component is enabled; the model does not include the engine's scheduling, so `Update` does not read `enabled`. When `AddHours` throws, the model abandons the frame with nothing changed; the Udon runtime's halting of the whole behaviour after an uncaught exception is not modelled.
- Calendar.AddHours: .NET adds ticks and checks the range once; the model steps one hour at a time and checks the year of the result, which agrees for whole-hour offsets but says nothing about fractional hours (the source only passes an `int`).
- Calendar.ShiftHoursIndex and Calendar.NextDayNumber: stated from year 1 on, where C#'s truncating `year / 100` and the Gregorian correction agree; DateTime never holds an earlier year.
- The hour angle is in [-180, 180) and the azimuth in [0, 360] and possibly NaN, as the code computes them; a half-open (-180, 180] hour angle, an azimuth in [0, 360) and a guarded division are not what lines 107-128 do.
- A simplified day-of-year sun formula is not present in these files and is not modelled.
