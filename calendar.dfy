/** The part of Python's `datetime` that minutize.py uses: constructing a
    date-time from its five fields, and stepping it back by one minute, in
    the proleptic Gregorian calendar over years 1 to 9999. */
module Calendar {
  import opened Wrappers

  datatype DateTime = DateTime(year: int, month: int, day: int, hour: int, minute: int)

  const MinYear: int := 1
  const MaxYear: int := 9999

  predicate IsLeapYear(y: int) {
    y % 4 == 0 && (y % 100 != 0 || y % 400 == 0)
  }

  function DaysInMonth(y: int, m: int): int
    requires 1 <= m <= 12
  {
    if m == 2 then (if IsLeapYear(y) then 29 else 28)
    else if m == 4 || m == 6 || m == 9 || m == 11 then 30
    else 31
  }

  function DaysInYear(y: int): int {
    if IsLeapYear(y) then 366 else 365
  }

  /** The fields `datetime.datetime(year, month, day, hour, minute)` accepts
      without raising ValueError. */
  predicate Valid(dt: DateTime) {
    MinYear <= dt.year <= MaxYear &&
    1 <= dt.month <= 12 &&
    1 <= dt.day <= DaysInMonth(dt.year, dt.month) &&
    0 <= dt.hour < 24 &&
    0 <= dt.minute < 60
  }

  /** Days from 0001-01-01 to the first of January of year `y`. */
  function DaysBeforeYear(y: int): int
    requires y >= 1
  {
    if y == 1 then 0 else DaysBeforeYear(y - 1) + DaysInYear(y - 1)
  }

  /** Days from the first of January of year `y` to the first of month `m`
      (month 13 stands for the next first of January). */
  function DaysBeforeMonth(y: int, m: int): int
    requires 1 <= m <= 13
  {
    var common :=
      if m == 1 then 0 else if m == 2 then 31 else if m == 3 then 59
      else if m == 4 then 90 else if m == 5 then 120 else if m == 6 then 151
      else if m == 7 then 181 else if m == 8 then 212 else if m == 9 then 243
      else if m == 10 then 273 else if m == 11 then 304 else if m == 12 then 334
      else 365;
    if m > 2 && IsLeapYear(y) then common + 1 else common
  }

  /** Days elapsed since 0001-01-01 (day 0). */
  function DayNumber(y: int, m: int, d: int): int
    requires y >= 1 && 1 <= m <= 12
  {
    DaysBeforeYear(y) + DaysBeforeMonth(y, m) + d - 1
  }

  /** Minutes elapsed since 0001-01-01 00:00, the earliest `datetime`. */
  function ToMinutes(dt: DateTime): int
    requires Valid(dt)
  {
    (DayNumber(dt.year, dt.month, dt.day) * 24 + dt.hour) * 60 + dt.minute
  }

  lemma DaysBeforeMonthStep(y: int, m: int)
    requires 1 <= m <= 12
    ensures DaysBeforeMonth(y, m + 1) == DaysBeforeMonth(y, m) + DaysInMonth(y, m)
    ensures DaysBeforeMonth(y, 1) == 0 && DaysBeforeMonth(y, 13) == DaysInYear(y)
  {
  }

  /** Crossing a multiple of `d` adds one to the quotient by `d`. */
  lemma QuotientStep(y: int, d: int)
    requires y >= 1 && (d == 4 || d == 100 || d == 400)
    ensures y / d - (y - 1) / d == if y % d == 0 then 1 else 0
  {
    if d == 4 {
      assert y / 4 - (y - 1) / 4 == if y % 4 == 0 then 1 else 0;
    } else if d == 100 {
      assert y / 100 - (y - 1) / 100 == if y % 100 == 0 then 1 else 0;
    } else {
      assert y / 400 - (y - 1) / 400 == if y % 400 == 0 then 1 else 0;
    }
  }

  /** A multiple of 400 is a multiple of 100, and a multiple of 100 one of 4. */
  lemma CenturyDivisors(y: int)
    ensures y % 400 == 0 ==> y % 100 == 0
    ensures y % 100 == 0 ==> y % 4 == 0
  {
    if y % 400 == 0 {
      var k := y / 400;
      assert y == 400 * k;
      assert y / 100 == 4 * k;
    }
    if y % 100 == 0 {
      var k := y / 100;
      assert y == 100 * k;
      assert y / 4 == 25 * k;
    }
  }

  /** The closed form `datetime` itself uses: 365 days a year, plus one per
      multiple of 4, minus one per multiple of 100, plus one per multiple of
      400 among the years before. */
  lemma {:induction false} DaysBeforeYearFormula(y: int)
    requires y >= 1
    ensures DaysBeforeYear(y) == 365 * (y - 1) + (y - 1) / 4 - (y - 1) / 100 + (y - 1) / 400
  {
    if y > 1 {
      DaysBeforeYearFormula(y - 1);
      QuotientStep(y - 1, 4);
      QuotientStep(y - 1, 100);
      QuotientStep(y - 1, 400);
      CenturyDivisors(y - 1);
    }
  }

  lemma {:induction false} DaysBeforeYearMonotone(y1: int, y2: int)
    requires 1 <= y1 <= y2
    ensures DaysBeforeYear(y1) + 365 * (y2 - y1) <= DaysBeforeYear(y2)
    decreases y2 - y1
  {
    if y1 < y2 {
      DaysBeforeYearMonotone(y1, y2 - 1);
    }
  }

  lemma ToMinutesNonNegative(dt: DateTime)
    requires Valid(dt)
    ensures ToMinutes(dt) >= 0
  {
    DaysBeforeYearMonotone(1, dt.year);
  }

  /** Every valid date-time lies at or after the earliest one, and only the
      earliest one, 0001-01-01 00:00, is at minute 0. */
  lemma ToMinutesOrigin(dt: DateTime)
    requires Valid(dt)
    ensures ToMinutes(dt) >= 0
    ensures ToMinutes(dt) == 0 <==> dt == DateTime(MinYear, 1, 1, 0, 0)
  {
    DaysBeforeYearMonotone(1, dt.year);
  }

  lemma FirstOfMonthStep(y: int, m: int)
    requires MinYear <= y <= MaxYear && 2 <= m <= 12
    ensures DayNumber(y, m - 1, DaysInMonth(y, m - 1)) + 1 == DayNumber(y, m, 1)
  {
    DaysBeforeMonthStep(y, m - 1);
  }

  lemma NewYearStep(y: int)
    requires MinYear < y <= MaxYear
    ensures DayNumber(y - 1, 12, 31) + 1 == DayNumber(y, 1, 1)
  {
    DaysBeforeMonthStep(y - 1, 12);
  }

  /** The day before a valid date, as year, month and day: the previous day
      of the month, else the last day of the previous month, else 31
      December of the previous year; None before 0001-01-01. */
  function PrevDay(y: int, m: int, d: int): (r: Option<(int, int, int)>)
    requires MinYear <= y <= MaxYear && 1 <= m <= 12 && 1 <= d <= DaysInMonth(y, m)
    ensures r.None? <==> y == MinYear && m == 1 && d == 1
    ensures r.Some? ==>
      MinYear <= r.value.0 <= MaxYear && 1 <= r.value.1 <= 12 && 1 <= r.value.2 <= DaysInMonth(r.value.0, r.value.1) &&
      DayNumber(r.value.0, r.value.1, r.value.2) == DayNumber(y, m, d) - 1
  {
    if d > 1 then Some((y, m, d - 1))
    else if m > 1 then
      FirstOfMonthStep(y, m);
      Some((y, m - 1, DaysInMonth(y, m - 1)))
    else if y > MinYear then
      NewYearStep(y);
      Some((y - 1, 12, 31))
    else None
  }

  /** `dt - timedelta(minutes=1)`: rolls over the hour, the day, the month
      (to that month's last day) and the year; None is the OverflowError
      Python raises below 0001-01-01 00:00. */
  function PrevMinute(dt: DateTime): (r: Option<DateTime>)
    requires Valid(dt)
    ensures r.None? <==> ToMinutes(dt) == 0
    ensures r.Some? ==> Valid(r.value) && ToMinutes(r.value) == ToMinutes(dt) - 1
  {
    ToMinutesOrigin(dt);
    if dt.minute > 0 then Some(dt.(minute := dt.minute - 1))
    else if dt.hour > 0 then Some(dt.(hour := dt.hour - 1, minute := 59))
    else
      match PrevDay(dt.year, dt.month, dt.day)
      case None => None
      case Some((y, m, d)) => Some(DateTime(y, m, d, 23, 59))
  }

  /** The date-time `k` minutes before `dt`, reached by `k` single-minute steps. */
  function MinutesBefore(dt: DateTime, k: nat): (r: DateTime)
    requires Valid(dt) && k <= ToMinutes(dt)
    ensures Valid(r) && ToMinutes(r) == ToMinutes(dt) - k
    decreases k
  {
    if k == 0 then dt else PrevMinute(MinutesBefore(dt, k - 1)).value
  }

  lemma {:induction false} DayInYear(y: int, m: int, d: int)
    requires MinYear <= y <= MaxYear && 1 <= m <= 12 && 1 <= d <= DaysInMonth(y, m)
    ensures DaysBeforeMonth(y, m) <= DaysBeforeMonth(y, m) + d - 1 < DaysBeforeMonth(y, m + 1)
    ensures 0 <= DaysBeforeMonth(y, m) + d - 1 < DaysInYear(y)
  {
    DaysBeforeMonthStep(y, m);
  }

  /** A minute count splits uniquely into day, hour and minute. */
  lemma ClockUnique(d1: int, h1: int, m1: int, d2: int, h2: int, m2: int)
    requires 0 <= h1 < 24 && 0 <= m1 < 60 && 0 <= h2 < 24 && 0 <= m2 < 60
    requires (d1 * 24 + h1) * 60 + m1 == (d2 * 24 + h2) * 60 + m2
    ensures d1 == d2 && h1 == h2 && m1 == m2
  {
  }

  /** Every day of a year comes before the first day of any later year. */
  lemma DayNumberBelowLaterYear(y1: int, m: int, d: int, y2: int)
    requires MinYear <= y1 < y2 <= MaxYear && 1 <= m <= 12 && 1 <= d <= DaysInMonth(y1, m)
    ensures DayNumber(y1, m, d) < DaysBeforeYear(y2)
  {
    DayInYear(y1, m, d);
    DaysBeforeYearMonotone(y1 + 1, y2);
  }

  /** Two valid dates with the same day number are in the same year. */
  lemma YearOfDayNumber(y1: int, mo1: int, d1: int, y2: int, mo2: int, d2: int)
    requires MinYear <= y1 <= MaxYear && 1 <= mo1 <= 12 && 1 <= d1 <= DaysInMonth(y1, mo1)
    requires MinYear <= y2 <= MaxYear && 1 <= mo2 <= 12 && 1 <= d2 <= DaysInMonth(y2, mo2)
    requires DayNumber(y1, mo1, d1) == DayNumber(y2, mo2, d2)
    ensures y1 == y2
  {
    DayInYear(y1, mo1, d1);
    DayInYear(y2, mo2, d2);
    if y1 < y2 {
      DayNumberBelowLaterYear(y1, mo1, d1, y2);
      assert false;
    } else if y2 < y1 {
      DayNumberBelowLaterYear(y2, mo2, d2, y1);
      assert false;
    }
  }

  /** Within one year, a day number fixes the month and the day. */
  lemma MonthOfDayInYear(y: int, mo1: int, d1: int, mo2: int, d2: int)
    requires MinYear <= y <= MaxYear
    requires 1 <= mo1 <= 12 && 1 <= d1 <= DaysInMonth(y, mo1)
    requires 1 <= mo2 <= 12 && 1 <= d2 <= DaysInMonth(y, mo2)
    requires DaysBeforeMonth(y, mo1) + d1 == DaysBeforeMonth(y, mo2) + d2
    ensures mo1 == mo2 && d1 == d2
  {
    DayInYear(y, mo1, d1);
    DayInYear(y, mo2, d2);
  }

  /** Two valid date-times at the same minute count are the same date-time,
      so ToMinutes identifies a date-time. */
  lemma ToMinutesInjective(a: DateTime, b: DateTime)
    requires Valid(a) && Valid(b)
    requires ToMinutes(a) == ToMinutes(b)
    ensures a == b
  {
    ClockUnique(DayNumber(a.year, a.month, a.day), a.hour, a.minute,
                DayNumber(b.year, b.month, b.day), b.hour, b.minute);
    YearOfDayNumber(a.year, a.month, a.day, b.year, b.month, b.day);
    MonthOfDayInYear(a.year, a.month, a.day, b.month, b.day);
  }

  /** The leap day is kept: the minute before 1 March 2020 is on 29 February. */
  lemma LeapDayRollover()
    ensures PrevMinute(DateTime(2020, 3, 1, 0, 0)) == Some(DateTime(2020, 2, 29, 23, 59))
    ensures PrevMinute(DateTime(2019, 3, 1, 0, 0)) == Some(DateTime(2019, 2, 28, 23, 59))
    ensures PrevMinute(DateTime(2019, 1, 1, 0, 0)) == Some(DateTime(2018, 12, 31, 23, 59))
  {
  }
}
