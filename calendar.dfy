/** The civil date-time that DaySync reads its year, month, day, hour, minute
    and second from, and the Julian Day it derives from them (Meeus,
    Astronomical Algorithms, formula 7.1). Also the part of .NET's DateTime
    that the component relies on: the proleptic Gregorian calendar, the range
    of years 1 to 9999, and AddHours. */
module Calendar {
  import opened Numerics

  datatype Option<T> = None | Some(value: T)

  predicate IsLeapYear(year: int) {
    year % 4 == 0 && (year % 100 != 0 || year % 400 == 0)
  }

  function DaysInMonth(year: int, month: int): (n: int)
    requires 1 <= month <= 12
    ensures 28 <= n <= 31
    ensures month == 2 ==> (n == 29 <==> IsLeapYear(year))
  {
    if month == 2 then (if IsLeapYear(year) then 29 else 28)
    else if month == 4 || month == 6 || month == 9 || month == 11 then 30
    else 31
  }

  datatype Date = Date(year: int, month: int, day: int)

  /** A day of the proleptic Gregorian calendar. */
  predicate IsDate(d: Date) {
    1 <= d.month <= 12 && 1 <= d.day <= DaysInMonth(d.year, d.month)
  }

  /** Whole seconds only: DaySync never reads DateTime.Millisecond. */
  datatype DateTime = DateTime(date: Date, hour: int, minute: int, second: int)

  predicate WellFormed(t: DateTime) {
    IsDate(t.date) && 0 <= t.hour < 24 && 0 <= t.minute < 60 && 0 <= t.second < 60
  }

  const MIN_YEAR := 1
  const MAX_YEAR := 9999

  /** A value a .NET DateTime can hold. */
  predicate Valid(t: DateTime) {
    WellFormed(t) && MIN_YEAR <= t.date.year <= MAX_YEAR
  }

  // ---------------------------------------------------------------------
  // Julian Day (DaySync.cs lines 59-78)
  // ---------------------------------------------------------------------

  /** January and February are counted as months 13 and 14 of the previous
      year, so that the leap day falls at the end of the counting year. */
  function ShiftYearStart(year: int, month: int): (r: (int, int))
    ensures 12 * r.0 + r.1 == 12 * year + month
    ensures 1 <= month <= 12 ==> 3 <= r.1 <= 14
    ensures month >= 3 ==> r == (year, month)
  {
    if month <= 2 then (year - 1, month + 12) else (year, month)
  }

  /** floor(365.25 * (y + 4716)), computed exactly. */
  function YearTerm(y: int): int {
    (1461 * (y + 4716)) / 4
  }

  /** floor(30.6001 * (m + 1)), computed exactly. */
  function MonthTerm(m: int): int {
    (306001 * (m + 1)) / 10000
  }

  /** The integer year term is the floor of 365.25 (y + 4716) that line 71
      of DaySync.cs takes. */
  lemma YearTermIsFloor(y: int)
    ensures YearTerm(y) as real <= 365.25 * (y + 4716) as real < YearTerm(y) as real + 1.0
  {
    var n := y + 4716;
    var q := YearTerm(y);
    assert 4 * q <= 1461 * n < 4 * q + 4;
    assert 365.25 * n as real == (1461 * n) as real / 4.0;
  }

  /** The integer month term is the floor of 30.6001 (m + 1) that line 71
      of DaySync.cs takes. */
  lemma MonthTermIsFloor(m: int)
    ensures MonthTerm(m) as real <= 30.6001 * (m + 1) as real < MonthTerm(m) as real + 1.0
  {
    var q := MonthTerm(m);
    assert 10000 * q <= 306001 * (m + 1) < 10000 * q + 10000;
    assert 30.6001 * (m + 1) as real == (306001 * (m + 1)) as real / 10000.0;
  }

  /** The Gregorian correction b = 2 - a + a / 4 with a = y / 100, both
      divisions being C#'s truncating integer division. */
  function CenturyTerm(y: int): int {
    var a := TruncDiv(y, 100);
    2 - a + TruncDiv(a, 4)
  }

  /** The integer part of the Julian Day sum: everything on line 71 except
      the constant 1524.5. */
  function DayNumber(d: Date): int {
    var (y, m) := ShiftYearStart(d.year, d.month);
    YearTerm(y) + MonthTerm(m) + d.day + CenturyTerm(y)
  }

  /** The time of day in hours: hour + minute / 60 + second / 3600. */
  function DecimalHours(t: DateTime): (h: real)
    ensures WellFormed(t) ==> 0.0 <= h < 24.0
    ensures WellFormed(t) ==> h.Floor == t.hour
  {
    t.hour as real + t.minute as real / 60.0 + t.second as real / 3600.0
  }

  function JulianDay(t: DateTime): real {
    DayNumber(t.date) as real - 1524.5 + DecimalHours(t) / 24.0
  }

  /** Julian centuries of 36525 days since the J2000.0 epoch. */
  function JulianCentury(julianDay: real): real {
    (julianDay - 2451545.0) / 36525.0
  }

  /** The Julian Century advances by exactly one every 36525 days and is 0
      at the J2000.0 epoch, Julian Day 2451545. */
  lemma JulianCenturyScale(julianDay: real, days: real)
    ensures JulianCentury(julianDay + days) == JulianCentury(julianDay) + days / 36525.0
    ensures JulianCentury(2451545.0) == 0.0
  {
  }

  function Midnight(t: DateTime): (u: DateTime)
    ensures u.date == t.date && u.hour == 0 && u.minute == 0 && u.second == 0
  {
    DateTime(t.date, 0, 0, 0)
  }

  /** Julian Days begin at noon, so a civil midnight falls half-way through one. */
  lemma MidnightIsHalfDay(t: DateTime)
    requires t.hour == 0 && t.minute == 0 && t.second == 0
    ensures (JulianDay(t) + 0.5).Floor as real == JulianDay(t) + 0.5
  {
    assert JulianDay(t) + 0.5 == (DayNumber(t.date) - 1524) as real;
  }

  /** The time of day adds a fraction in [0, 1) to the Julian Day of midnight,
      so it never spills into the next civil day. */
  lemma TimeOfDayFraction(t: DateTime)
    requires WellFormed(t)
    ensures 0.0 <= JulianDay(t) - JulianDay(Midnight(t)) < 1.0
    ensures (JulianDay(t) + 0.5).Floor == (JulianDay(Midnight(t)) + 0.5).Floor
  {
    var n := DayNumber(t.date) - 1524;
    var f := DecimalHours(t) / 24.0;
    assert 0.0 <= f < 1.0;
    assert DecimalHours(Midnight(t)) == 0.0;
    assert JulianDay(Midnight(t)) + 0.5 == n as real;
    assert JulianDay(t) + 0.5 == n as real + f;
    FloorOfFraction(n, f);
  }

  lemma FloorOfFraction(n: int, f: real)
    requires 0.0 <= f < 1.0
    ensures (n as real + f).Floor == n
  {
  }

  /** 2000-01-01 12:00:00 is the J2000.0 epoch: Julian Day 2451545, century 0. */
  lemma J2000Epoch()
    ensures JulianDay(DateTime(Date(2000, 1, 1), 12, 0, 0)) == 2451545.0
    ensures JulianCentury(JulianDay(DateTime(Date(2000, 1, 1), 12, 0, 0))) == 0.0
  {
    assert DayNumber(Date(2000, 1, 1)) == 2452653 + 428 + 1 - 13;
  }

  // ---------------------------------------------------------------------
  // Consecutive days are one Julian Day apart
  // ---------------------------------------------------------------------

  function NextDay(d: Date): (n: Date)
    requires IsDate(d)
    ensures IsDate(n)
  {
    if d.day < DaysInMonth(d.year, d.month) then Date(d.year, d.month, d.day + 1)
    else if d.month < 12 then Date(d.year, d.month + 1, 1)
    else Date(d.year + 1, 1, 1)
  }

  function PrevDay(d: Date): (p: Date)
    requires IsDate(d)
    ensures IsDate(p)
    ensures NextDay(p) == d
    ensures p.year == d.year || p.year == d.year - 1
  {
    if d.day > 1 then Date(d.year, d.month, d.day - 1)
    else if d.month > 1 then Date(d.year, d.month - 1, DaysInMonth(d.year, d.month - 1))
    else Date(d.year - 1, 12, 31)
  }

  lemma PrevDayOfNextDay(d: Date)
    requires IsDate(d)
    ensures PrevDay(NextDay(d)) == d
  {
  }

  /** 1461 * n / 4 splits into 365 whole days per year plus a leap day every
      fourth year. */
  lemma YearTermStep(y: int)
    ensures YearTerm(y + 1) - YearTerm(y) == if (y + 1) % 4 == 0 then 366 else 365
  {
    var n := y + 4716;
    assert 1461 * n == 4 * (365 * n) + n;
    assert 1461 * (n + 1) == 4 * (365 * n + 365) + (n + 1);
    assert YearTerm(y) == 365 * n + n / 4;
    assert YearTerm(y + 1) == 365 * n + 365 + (n + 1) / 4;
  }

  /** Between March (3) and January (13) of a counting year, the month term
      grows by the length of the month that ends. */
  lemma MonthTermStep(m: int)
    requires 3 <= m <= 13
    ensures MonthTerm(m + 1) - MonthTerm(m) == DaysInMonth(0, if m <= 12 then m else m - 12)
  {
    if m == 3 { assert MonthTerm(3) == 122 && MonthTerm(4) == 153; }
    else if m == 4 { assert MonthTerm(4) == 153 && MonthTerm(5) == 183; }
    else if m == 5 { assert MonthTerm(5) == 183 && MonthTerm(6) == 214; }
    else if m == 6 { assert MonthTerm(6) == 214 && MonthTerm(7) == 244; }
    else if m == 7 { assert MonthTerm(7) == 244 && MonthTerm(8) == 275; }
    else if m == 8 { assert MonthTerm(8) == 275 && MonthTerm(9) == 306; }
    else if m == 9 { assert MonthTerm(9) == 306 && MonthTerm(10) == 336; }
    else if m == 10 { assert MonthTerm(10) == 336 && MonthTerm(11) == 367; }
    else if m == 11 { assert MonthTerm(11) == 367 && MonthTerm(12) == 397; }
    else if m == 12 { assert MonthTerm(12) == 397 && MonthTerm(13) == 428; }
    else { assert MonthTerm(13) == 428 && MonthTerm(14) == 459; }
  }

  /** The Gregorian correction drops by one exactly at a century year that is
      not a multiple of 400. */
  lemma CenturyTermStep(y: int)
    requires y >= 1
    ensures CenturyTerm(y) - CenturyTerm(y - 1) == if y % 100 == 0 && y % 400 != 0 then -1 else 0
  {
    var a, a' := y / 100, (y - 1) / 100;
    if y % 100 == 0 {
      assert a == a' + 1;
      assert a % 4 == 0 <==> y % 400 == 0;
    } else {
      assert a == a';
    }
  }

  /** Crossing from February to March: one counting year ends, and its length
      (365 or 366 days, less the Gregorian correction) absorbs February. */
  lemma MarchFollowsFebruary(year: int)
    requires year >= 1
    ensures YearTerm(year) + MonthTerm(3) + CenturyTerm(year)
         == YearTerm(year - 1) + MonthTerm(14) + DaysInMonth(year, 2) + CenturyTerm(year - 1)
  {
    YearTermStep(year - 1);
    CenturyTermStep(year);
    assert MonthTerm(3) == 122 && MonthTerm(14) == 459;
    var years := YearTerm(year) - YearTerm(year - 1);
    var century := CenturyTerm(year) - CenturyTerm(year - 1);
    var february := DaysInMonth(year, 2);
    DivisibilityChain(year);
    assert years - 337 + century == february;
  }

  /** Multiples of 400 are multiples of 100, which are multiples of 4. */
  lemma DivisibilityChain(year: int)
    ensures year % 400 == 0 ==> year % 100 == 0
    ensures year % 100 == 0 ==> year % 4 == 0
  {
  }

  /** Consecutive calendar days map to consecutive day numbers, across month
      ends, February 29 and December 31 alike. */
  lemma NextDayNumber(d: Date)
    requires IsDate(d) && d.year >= 1
    ensures DayNumber(NextDay(d)) == DayNumber(d) + 1
  {
    if d.day < DaysInMonth(d.year, d.month) {
      WithinMonth(d);
    } else if d.month == 2 {
      EndOfFebruary(d);
    } else if d.month < 12 {
      EndOfMonth(d);
    } else {
      EndOfYear(d);
    }
  }

  lemma WithinMonth(d: Date)
    requires IsDate(d) && d.day < DaysInMonth(d.year, d.month)
    ensures DayNumber(NextDay(d)) == DayNumber(d) + 1
  {
    assert NextDay(d) == d.(day := d.day + 1);
  }

  lemma EndOfFebruary(d: Date)
    requires IsDate(d) && d.year >= 1 && d.month == 2 && d.day == DaysInMonth(d.year, 2)
    ensures DayNumber(NextDay(d)) == DayNumber(d) + 1
  {
    var y := d.year;
    assert NextDay(d) == Date(y, 3, 1);
    assert DayNumber(Date(y, 3, 1)) == YearTerm(y) + MonthTerm(3) + 1 + CenturyTerm(y);
    assert DayNumber(d) == YearTerm(y - 1) + MonthTerm(14) + DaysInMonth(y, 2) + CenturyTerm(y - 1);
    MarchFollowsFebruary(y);
  }

  /** The last day of a month other than February and December. */
  lemma EndOfMonth(d: Date)
    requires IsDate(d) && d.month < 12 && d.month != 2 && d.day == DaysInMonth(d.year, d.month)
    ensures DayNumber(NextDay(d)) == DayNumber(d) + 1
  {
    assert NextDay(d) == Date(d.year, d.month + 1, 1);
    if d.month == 1 {
      MonthTermStep(13);
    } else {
      MonthTermStep(d.month);
    }
  }

  lemma EndOfYear(d: Date)
    requires IsDate(d) && d.month == 12 && d.day == 31
    ensures DayNumber(NextDay(d)) == DayNumber(d) + 1
  {
    assert NextDay(d) == Date(d.year + 1, 1, 1);
    MonthTermStep(12);
  }

  /** The same time of day on the next calendar day is exactly one Julian Day later. */
  lemma NextDayJulianDay(t: DateTime)
    requires WellFormed(t) && t.date.year >= 1
    ensures JulianDay(DateTime(NextDay(t.date), t.hour, t.minute, t.second)) == JulianDay(t) + 1.0
  {
    NextDayNumber(t.date);
  }

  // ---------------------------------------------------------------------
  // DateTime.AddHours, stepping one hour at a time
  // ---------------------------------------------------------------------

  /** Hours elapsed on the same scale as the Julian Day. */
  function HourIndex(t: DateTime): int {
    DayNumber(t.date) * 24 + t.hour
  }

  function NextHour(t: DateTime): (u: DateTime)
    requires WellFormed(t)
    ensures WellFormed(u) && u.minute == t.minute && u.second == t.second
    ensures u.date.year == t.date.year || u.date.year == t.date.year + 1
  {
    if t.hour < 23 then t.(hour := t.hour + 1)
    else DateTime(NextDay(t.date), 0, t.minute, t.second)
  }

  function PrevHour(t: DateTime): (u: DateTime)
    requires WellFormed(t)
    ensures WellFormed(u) && u.minute == t.minute && u.second == t.second
    ensures NextHour(u) == t
    ensures u.date.year == t.date.year || u.date.year == t.date.year - 1
  {
    if t.hour > 0 then t.(hour := t.hour - 1)
    else DateTime(PrevDay(t.date), 23, t.minute, t.second)
  }

  lemma PrevHourOfNextHour(t: DateTime)
    requires WellFormed(t)
    ensures PrevHour(NextHour(t)) == t
  {
    if t.hour == 23 {
      PrevDayOfNextDay(t.date);
    }
  }

  /** k hours later, with no range check. */
  function Later(t: DateTime, k: nat): (u: DateTime)
    requires WellFormed(t)
    ensures WellFormed(u) && u.minute == t.minute && u.second == t.second
    decreases k
  {
    if k == 0 then t else NextHour(Later(t, k - 1))
  }

  /** k hours earlier, with no range check. */
  function Earlier(t: DateTime, k: nat): (u: DateTime)
    requires WellFormed(t)
    ensures WellFormed(u) && u.minute == t.minute && u.second == t.second
    decreases k
  {
    if k == 0 then t else PrevHour(Earlier(t, k - 1))
  }

  /** h hours later (earlier when h is negative), with no range check. */
  function ShiftHours(t: DateTime, h: int): (u: DateTime)
    requires WellFormed(t)
    ensures WellFormed(u) && u.minute == t.minute && u.second == t.second
  {
    if h >= 0 then Later(t, h) else Earlier(t, -h)
  }

  /** DateTime.AddHours: the shifted time, or None where .NET throws
      ArgumentOutOfRangeException because the result leaves years 1 to 9999. */
  function AddHours(t: DateTime, h: int): (r: Option<DateTime>)
    requires WellFormed(t)
    ensures r.Some? <==> MIN_YEAR <= ShiftHours(t, h).date.year <= MAX_YEAR
    ensures r.Some? ==> r.value == ShiftHours(t, h)
    ensures r.Some? ==> Valid(r.value) && r.value.minute == t.minute && r.value.second == t.second
  {
    var u := ShiftHours(t, h);
    if MIN_YEAR <= u.date.year <= MAX_YEAR then Some(u) else None
  }

  /** The first of k steps forward is one NextHour. */
  lemma {:induction false} LaterFirst(t: DateTime, k: nat)
    requires WellFormed(t) && k > 0
    ensures Later(t, k) == Later(NextHour(t), k - 1)
    decreases k
  {
    if k > 1 {
      LaterFirst(t, k - 1);
    }
  }

  /** The first of k steps back is one PrevHour. */
  lemma {:induction false} EarlierFirst(t: DateTime, k: nat)
    requires WellFormed(t) && k > 0
    ensures Earlier(t, k) == Earlier(PrevHour(t), k - 1)
    decreases k
  {
    if k > 1 {
      EarlierFirst(t, k - 1);
    }
  }

  /** Going k hours back undoes going k hours forward. */
  lemma {:induction false} EarlierOfLater(t: DateTime, k: nat)
    requires WellFormed(t)
    ensures Earlier(Later(t, k), k) == t
    decreases k
  {
    if k > 0 {
      var w := Later(t, k - 1);
      EarlierFirst(NextHour(w), k);
      PrevHourOfNextHour(w);
      EarlierOfLater(t, k - 1);
    }
  }

  /** Going k hours forward undoes going k hours back. */
  lemma {:induction false} LaterOfEarlier(t: DateTime, k: nat)
    requires WellFormed(t)
    ensures Later(Earlier(t, k), k) == t
    decreases k
  {
    if k > 0 {
      var w := Earlier(t, k - 1);
      LaterFirst(PrevHour(w), k);
      LaterOfEarlier(t, k - 1);
    }
  }

  lemma NextHourIndex(t: DateTime)
    requires WellFormed(t) && t.date.year >= 1
    ensures HourIndex(NextHour(t)) == HourIndex(t) + 1
  {
    if t.hour == 23 {
      NextDayNumber(t.date);
    }
  }

  lemma PrevHourIndex(t: DateTime)
    requires WellFormed(t) && PrevHour(t).date.year >= 1
    ensures HourIndex(PrevHour(t)) == HourIndex(t) - 1
  {
    NextHourIndex(PrevHour(t));
  }

  /** k hours back that stay in years from 1 on lower the hour index by k. */
  lemma {:induction false} EarlierIndex(t: DateTime, k: nat)
    requires WellFormed(t) && Earlier(t, k).date.year >= 1
    ensures HourIndex(Earlier(t, k)) == HourIndex(t) - k
    decreases k
  {
    if k > 0 {
      var u := Earlier(t, k - 1);
      EarlierIndex(t, k - 1);
      PrevHourIndex(u);
    }
  }

  /** k hours forward from year 1 on raise the hour index by k: read back
      from the end, they are k hours back to the start. */
  lemma LaterIndex(t: DateTime, k: nat)
    requires WellFormed(t) && t.date.year >= 1
    ensures HourIndex(Later(t, k)) == HourIndex(t) + k
  {
    EarlierOfLater(t, k);
    EarlierIndex(Later(t, k), k);
  }

  /** Shifting by h hours moves the hour index by exactly h, as long as no
      year before 1 is involved. */
  lemma ShiftHoursIndex(t: DateTime, h: int)
    requires WellFormed(t) && t.date.year >= 1 && ShiftHours(t, h).date.year >= 1
    ensures HourIndex(ShiftHours(t, h)) == HourIndex(t) + h
  {
    if h >= 0 {
      LaterIndex(t, h);
    } else {
      EarlierIndex(t, -h);
    }
  }

  /** The Julian Day of a time, read off its hour index. */
  lemma JulianDayByHours(t: DateTime)
    ensures JulianDay(t) == HourIndex(t) as real / 24.0 - 1524.5
                            + (t.minute as real / 60.0 + t.second as real / 3600.0) / 24.0
  {
  }

  /** AddHours moves a valid time by exactly h hours: h / 24 of a Julian Day. */
  lemma AddHoursShift(t: DateTime, h: int)
    requires Valid(t) && AddHours(t, h).Some?
    ensures HourIndex(AddHours(t, h).value) == HourIndex(t) + h
    ensures JulianDay(AddHours(t, h).value) == JulianDay(t) + h as real / 24.0
  {
    var u := AddHours(t, h).value;
    ShiftHoursIndex(t, h);
    JulianDayByHours(t);
    JulianDayByHours(u);
  }

  /** Adding -h hours undoes adding h hours. */
  lemma AddHoursRoundTrip(t: DateTime, h: int)
    requires Valid(t) && AddHours(t, h).Some?
    ensures AddHours(AddHours(t, h).value, -h) == Some(t)
  {
    if h > 0 {
      EarlierOfLater(t, h);
    } else if h < 0 {
      LaterOfEarlier(t, -h);
    }
  }
}
