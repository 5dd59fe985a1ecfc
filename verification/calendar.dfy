/**
 * Civil (proleptic Gregorian) dates and POSIX time.
 *
 * Following "Seconds Since the Epoch" (IEEE Std 1003.1-2017, XBD section
 * 4.16), a calendar day is numbered by the days elapsed since 1970-01-01,
 * every day has 86400 seconds, and the number of days before a year is
 * 365 per year plus one per leap year, with the POSIX divisions taken as
 * floor divisions so that the same count holds before 1970 as well.
 * `datetime.fromtimestamp` is modelled as this conversion applied to the
 * timestamp shifted by a fixed UTC offset.
 */
module Calendar {

  const SecondsPerDay := 86400

  datatype Date = Date(year: int, month: int, day: int)

  predicate IsLeapYear(y: int) {
    y % 4 == 0 && (y % 100 != 0 || y % 400 == 0)
  }

  function YearLength(y: int): int {
    if IsLeapYear(y) then 366 else 365
  }

  function DaysInMonth(y: int, m: int): int
    requires 1 <= m <= 12
  {
    if m == 2 then (if IsLeapYear(y) then 29 else 28)
    else if m == 4 || m == 6 || m == 9 || m == 11 then 30
    else 31
  }

  predicate ValidDate(d: Date) {
    1 <= d.month <= 12 && 1 <= d.day <= DaysInMonth(d.year, d.month)
  }

  /** Days from 1970-01-01 to January 1st of year y (negative before 1970). */
  function DaysBeforeYear(y: int): int {
    365 * (y - 1970) + (y - 1969) / 4 - (y - 1901) / 100 + (y - 1601) / 400
  }

  /** Days from January 1st of year y to the first day of month m; m == 13 gives the year length. */
  function DaysBeforeMonth(y: int, m: int): int
    requires 1 <= m <= 13
  {
    var common :=
      if m == 1 then 0 else if m == 2 then 31 else if m == 3 then 59
      else if m == 4 then 90 else if m == 5 then 120 else if m == 6 then 151
      else if m == 7 then 181 else if m == 8 then 212 else if m == 9 then 243
      else if m == 10 then 273 else if m == 11 then 304 else if m == 12 then 334
      else 365;
    if m > 2 && IsLeapYear(y) then common + 1 else common
  }

  /** The day number (days since the epoch) of a civil date. */
  function DaysFromCivil(d: Date): int
    requires 1 <= d.month <= 12
  {
    DaysBeforeYear(d.year) + DaysBeforeMonth(d.year, d.month) + d.day - 1
  }

  /** The year whose days contain day z, searching upwards from year y. */
  function YearSearchUp(z: int, y: int): (r: int)
    requires DaysBeforeYear(y) <= z
    ensures y <= r
    ensures DaysBeforeYear(r) <= z < DaysBeforeYear(r + 1)
    decreases z - DaysBeforeYear(y)
  {
    YearStep(y);
    if z < DaysBeforeYear(y + 1) then y else YearSearchUp(z, y + 1)
  }

  /** The year whose days contain day z, searching downwards from year y. */
  function YearSearchDown(z: int, y: int): (r: int)
    requires z < DaysBeforeYear(y + 1)
    ensures r <= y
    ensures DaysBeforeYear(r) <= z < DaysBeforeYear(r + 1)
    decreases DaysBeforeYear(y + 1) - z
  {
    YearStep(y);
    if DaysBeforeYear(y) <= z then y else YearSearchDown(z, y - 1)
  }

  /** The calendar year containing day number z. */
  function YearOfDay(z: int): (y: int)
    ensures DaysBeforeYear(y) <= z < DaysBeforeYear(y + 1)
  {
    if z >= 0 then YearSearchUp(z, 1970) else YearSearchDown(z, 1969)
  }

  /** The month containing the doy-th day (from 0) of year y, searching from month m. */
  function MonthSearch(y: int, doy: int, m: int): (r: int)
    requires 1 <= m <= 12
    requires DaysBeforeMonth(y, m) <= doy < YearLength(y)
    ensures m <= r <= 12
    ensures DaysBeforeMonth(y, r) <= doy < DaysBeforeMonth(y, r + 1)
    decreases 12 - m
  {
    if doy < DaysBeforeMonth(y, m + 1) then m else MonthSearch(y, doy, m + 1)
  }

  /** The civil date of day number z: what `datetime.date` shows for it. */
  function CivilFromDays(z: int): (d: Date)
    ensures ValidDate(d)
    ensures DaysFromCivil(d) == z
  {
    var y := YearOfDay(z);
    var doy := z - DaysBeforeYear(y);
    YearStep(y);
    var m := MonthSearch(y, doy, 1);
    MonthStep(y, m);
    Date(y, m, doy - DaysBeforeMonth(y, m) + 1)
  }

  /** The day number of the local calendar day of POSIX time t at a fixed UTC offset. */
  function LocalDay(t: int, utcOffset: int): (d: int)
    ensures d * SecondsPerDay <= t + utcOffset < d * SecondsPerDay + SecondsPerDay
  {
    (t + utcOffset) / SecondsPerDay
  }

  /** The first day of the month after (year, month). */
  function FirstDayOfNextMonth(year: int, month: int): int
    requires 1 <= month <= 12
  {
    DaysBeforeYear(year) + DaysBeforeMonth(year, month + 1)
  }

  // ---------------------------------------------------------------------
  // Lemmas

  /** A year has as many days as the distance between consecutive new years. */
  lemma YearStep(y: int)
    ensures DaysBeforeYear(y + 1) == DaysBeforeYear(y) + YearLength(y)
    ensures DaysBeforeMonth(y, 13) == YearLength(y)
  {
    LeapDays(y);
  }

  /** Crossing the new year of y + 1 adds one leap day exactly when y is a leap year. */
  lemma LeapDays(y: int)
    ensures ((y - 1968) / 4 - (y - 1969) / 4) - ((y - 1900) / 100 - (y - 1901) / 100)
      + ((y - 1600) / 400 - (y - 1601) / 400) == YearLength(y) - 365
  {
    LeapStep(y);
    CenturyStep(y);
    QuadCenturyStep(y);
  }

  /** The count of fourth years before y grows by one exactly when y is divisible by 4. */
  lemma LeapStep(y: int)
    ensures (y - 1968) / 4 - (y - 1969) / 4 == if y % 4 == 0 then 1 else 0
  {
    var q := (y - 1969) / 4;
    assert y - 1969 == 4 * q + (y - 1969) % 4;
  }

  lemma CenturyStep(y: int)
    ensures (y - 1900) / 100 - (y - 1901) / 100 == if y % 100 == 0 then 1 else 0
  {
    var q := (y - 1901) / 100;
    assert y - 1901 == 100 * q + (y - 1901) % 100;
  }

  lemma QuadCenturyStep(y: int)
    ensures (y - 1600) / 400 - (y - 1601) / 400 == if y % 400 == 0 then 1 else 0
  {
    var q := (y - 1601) / 400;
    assert y - 1601 == 400 * q + (y - 1601) % 400;
  }

  /** Consecutive month starts are a month length apart. */
  lemma MonthStep(y: int, m: int)
    requires 1 <= m <= 12
    ensures DaysBeforeMonth(y, m + 1) == DaysBeforeMonth(y, m) + DaysInMonth(y, m)
  {
  }

  /** New years are strictly increasing. */
  lemma {:induction false} YearsIncrease(a: int, b: int)
    requires a < b
    ensures DaysBeforeYear(a + 1) <= DaysBeforeYear(b)
    decreases b - a
  {
    if a + 1 < b {
      YearsIncrease(a, b - 1);
      YearStep(b - 1);
    }
  }

  /** Month starts within a year are strictly increasing. */
  lemma MonthsIncrease(y: int, a: int, b: int)
    requires 1 <= a < b <= 13
    ensures DaysBeforeMonth(y, a + 1) <= DaysBeforeMonth(y, b)
  {
  }

  /** Exactly one year contains a given day. */
  lemma YearUnique(z: int, y: int)
    requires DaysBeforeYear(y) <= z < DaysBeforeYear(y + 1)
    ensures YearOfDay(z) == y
  {
    var r := YearOfDay(z);
    if r < y {
      YearsIncrease(r, y);
    } else if y < r {
      YearsIncrease(y, r);
    }
  }

  /** Exactly one month of a year contains a given day of that year. */
  lemma MonthUnique(y: int, doy: int, m: int)
    requires 1 <= m <= 12
    requires DaysBeforeMonth(y, m) <= doy < DaysBeforeMonth(y, m + 1)
    ensures DaysBeforeMonth(y, 1) <= doy < YearLength(y)
    ensures MonthSearch(y, doy, 1) == m
  {
    YearStep(y);
    MonthsIncrease(y, m, 13);
    var r := MonthSearch(y, doy, 1);
    if r < m {
      MonthsIncrease(y, r, m);
    } else if m < r {
      MonthsIncrease(y, m, r);
    }
  }

  /** Converting a valid date to its day number and back gives the date again. */
  lemma CivilRoundTrip(d: Date)
    requires ValidDate(d)
    ensures CivilFromDays(DaysFromCivil(d)) == d
  {
    var z := DaysFromCivil(d);
    MonthStep(d.year, d.month);
    MonthUnique(d.year, z - DaysBeforeYear(d.year), d.month);
    YearStep(d.year);
    YearUnique(z, d.year);
  }

  /**
   * Day z falls in (year, month) exactly when it lies between the first day of
   * that month (included) and the first day of the next month (excluded).
   */
  lemma MonthWindow(z: int, year: int, month: int)
    requires 1 <= month <= 12
    ensures (CivilFromDays(z).year == year && CivilFromDays(z).month == month)
        <==> DaysFromCivil(Date(year, month, 1)) <= z < FirstDayOfNextMonth(year, month)
  {
    var d := CivilFromDays(z);
    MonthStep(d.year, d.month);
    if DaysFromCivil(Date(year, month, 1)) <= z < FirstDayOfNextMonth(year, month) {
      YearStep(year);
      MonthsIncrease(year, month, 13);
      YearUnique(z, year);
      MonthUnique(year, z - DaysBeforeYear(year), month);
    }
  }

  /** The first day of the month after December is New Year's Day of the next year. */
  lemma NextMonthOfDecember(year: int)
    ensures FirstDayOfNextMonth(year, 12) == DaysFromCivil(Date(year + 1, 1, 1))
  {
    YearStep(year);
  }

  /** Day numbers agree with POSIX time at 00:00:00 UTC, e.g. 2001-01-01 is day 11323. */
  lemma EpochAnchors()
    ensures DaysFromCivil(Date(1970, 1, 1)) == 0
    ensures DaysFromCivil(Date(2001, 1, 1)) * SecondsPerDay == 978307200
  {
  }

  /** The day before the epoch is 1969-12-31. */
  lemma DayBeforeEpoch()
    ensures CivilFromDays(-1) == Date(1969, 12, 31)
  {
    assert DaysFromCivil(Date(1969, 12, 31)) == -1;
    CivilRoundTrip(Date(1969, 12, 31));
  }
}
