/**
  The proleptic-Gregorian time arithmetic of ECMAScript (ECMA-262,
  section 21.4.1 "Overview of Date Objects and Definitions of Abstract
  Operations"): a time value counts milliseconds from 1970-01-01T00:00:00Z
  with no leap seconds, and the UTC field getters of a `Date` decompose it
  into year, month, day, hours, minutes and seconds.

  Division by a positive constant is written with Dafny's `/` and `%`,
  which on such divisors are exactly the floor and modulo the standard uses.
 */
module Calendar {
  import opened Arith

  const MsPerSecond: int := 1000
  const MsPerMinute: int := 60_000
  const MsPerHour: int := 3_600_000
  const MsPerDay: int := 86_400_000

  /** TimeClip (section 21.4.1.31): time values beyond this magnitude are invalid. */
  const MaxTimeValue: int := 8_640_000_000_000_000

  predicate IsLeapYear(y: int) {
    y % 4 == 0 && (y % 100 != 0 || y % 400 == 0)
  }

  function DaysInYear(y: int): int {
    if IsLeapYear(y) then 366 else 365
  }

  /** Day number of the first day of year y (section 21.4.1.3). */
  function DayFromYear(y: int): int {
    365 * (y - 1970) + (y - 1969) / 4 - (y - 1901) / 100 + (y - 1601) / 400
  }

  /** Consecutive years start DaysInYear apart: the closed form agrees with the leap-year rule. */
  lemma DayFromYearStep(y: int)
    ensures DayFromYear(y + 1) == DayFromYear(y) + DaysInYear(y)
  {
    var d4, d100, d400 := (y - 1968) / 4 - (y - 1969) / 4, (y - 1900) / 100 - (y - 1901) / 100, (y - 1600) / 400 - (y - 1601) / 400;
    assert DayFromYear(y + 1) == DayFromYear(y) + 365 + d4 - d100 + d400;
    FloorStep(y - 1969, 4, 492);
    FloorStep(y - 1901, 100, 19);
    FloorStep(y - 1601, 400, 4);
    assert d4 == if y % 4 == 0 then 1 else 0;
    assert d100 == if y % 100 == 0 then 1 else 0;
    assert d400 == if y % 400 == 0 then 1 else 0;
    DivisibleChain(y);
  }

  /** A multiple of 400 is a multiple of 100, and a multiple of 100 is a multiple of 4. */
  lemma DivisibleChain(y: int)
    ensures y % 400 == 0 ==> y % 100 == 0
    ensures y % 100 == 0 ==> y % 4 == 0
  {
    if y % 400 == 0 {
      DivModUnique(y, 100, y / 400 * 4, 0);
    }
    if y % 100 == 0 {
      DivModUnique(y, 4, y / 100 * 25, 0);
    }
  }

  /**
    Floor division by k goes up by one from x to x + 1 exactly when x + 1
    is a multiple of k, which for x + 1 == y - m * k means y is one.
   */
  lemma FloorStep(x: int, k: int, m: int)
    requires k > 0
    ensures (x + 1) / k - x / k == if (x + 1 + m * k) % k == 0 then 1 else 0
  {
    var q, r := x / k, x % k;
    if r == k - 1 {
      DivModUnique(x + 1, k, q + 1, 0);
      DivModUnique(x + 1 + m * k, k, q + 1 + m, 0);
    } else {
      DivModUnique(x + 1, k, q, r + 1);
      DivModUnique(x + 1 + m * k, k, q + m, r + 1);
    }
  }

  /** Later years start at least 365 days per year later. */
  lemma {:induction false} DayFromYearMonotone(a: int, b: int)
    requires a <= b
    ensures DayFromYear(a) + 365 * (b - a) <= DayFromYear(b)
    decreases b - a
  {
    if a < b {
      DayFromYearMonotone(a, b - 1);
      DayFromYearStep(b - 1);
    }
  }

  function ScanYearUp(y: int, day: int): (r: int)
    requires DayFromYear(y) <= day
    ensures DayFromYear(r) <= day < DayFromYear(r + 1)
    decreases day - DayFromYear(y)
  {
    DayFromYearStep(y);
    if day < DayFromYear(y + 1) then y else ScanYearUp(y + 1, day)
  }

  function ScanYearDown(y: int, day: int): (r: int)
    requires day < DayFromYear(y + 1)
    ensures DayFromYear(r) <= day < DayFromYear(r + 1)
    decreases DayFromYear(y + 1) - day
  {
    DayFromYearStep(y);
    if DayFromYear(y) <= day then y else ScanYearDown(y - 1, day)
  }

  /**
    YearFromTime (section 21.4.1.3) on a day number: the year whose first
    day is the last year start not after `day`.
   */
  function YearFromDay(day: int): (y: int)
    ensures DayFromYear(y) <= day < DayFromYear(y + 1)
  {
    if day >= 0 then ScanYearUp(1970, day) else ScanYearDown(1969, day)
  }

  /** Only one year brackets a given day, so YearFromDay is determined by its contract. */
  lemma YearFromDayUnique(day: int, y: int)
    requires DayFromYear(y) <= day < DayFromYear(y + 1)
    ensures YearFromDay(day) == y
  {
    var r := YearFromDay(day);
    YearStartsOrdered(r, y);
    YearStartsOrdered(y, r);
  }

  /** A later year starts no earlier than the end of an earlier one. */
  lemma YearStartsOrdered(a: int, b: int)
    ensures a < b ==> DayFromYear(a + 1) <= DayFromYear(b)
  {
    if a < b {
      DayFromYearMonotone(a + 1, b);
    }
  }

  /** Days in the year before month m (0-based), section 21.4.1.6. */
  function DaysBeforeMonth(m: int, leap: bool): int
    requires 0 <= m <= 12
  {
    [0, 31, 59, 90, 120, 151, 181, 212, 243, 273, 304, 334, 365][m]
    + (if leap && m >= 2 then 1 else 0)
  }

  /** Length of month m (1-based) of year y. */
  function DaysInMonth(y: int, m: int): (n: int)
    requires 1 <= m <= 12
    ensures 28 <= n <= 31
    ensures n == if m == 2 then (if IsLeapYear(y) then 29 else 28)
      else if m == 4 || m == 6 || m == 9 || m == 11 then 30 else 31
  {
    DaysBeforeMonth(m, IsLeapYear(y)) - DaysBeforeMonth(m - 1, IsLeapYear(y))
  }

  lemma DaysBeforeMonthFacts(leap: bool)
    ensures DaysBeforeMonth(12, leap) == if leap then 366 else 365
    ensures forall m :: 0 <= m < 12 ==> DaysBeforeMonth(m, leap) < DaysBeforeMonth(m + 1, leap)
  {
  }

  function ScanMonth(m: int, dayInYear: int, leap: bool): (r: int)
    requires 0 <= m <= 11
    requires DaysBeforeMonth(m, leap) <= dayInYear < DaysBeforeMonth(12, leap)
    ensures m <= r <= 11
    ensures DaysBeforeMonth(r, leap) <= dayInYear < DaysBeforeMonth(r + 1, leap)
    decreases 11 - m
  {
    if m == 11 || dayInYear < DaysBeforeMonth(m + 1, leap) then m
    else ScanMonth(m + 1, dayInYear, leap)
  }

  /** MonthFromTime (section 21.4.1.6) on a day within the year; 0-based. */
  function MonthFromDayInYear(dayInYear: int, leap: bool): (m: int)
    requires 0 <= dayInYear < DaysBeforeMonth(12, leap)
    ensures 0 <= m <= 11
    ensures DaysBeforeMonth(m, leap) <= dayInYear < DaysBeforeMonth(m + 1, leap)
  {
    ScanMonth(0, dayInYear, leap)
  }

  lemma {:induction false} ScanMonthUnique(m: int, dayInYear: int, leap: bool, k: int)
    requires 0 <= m <= k <= 11
    requires DaysBeforeMonth(m, leap) <= dayInYear < DaysBeforeMonth(12, leap)
    requires DaysBeforeMonth(k, leap) <= dayInYear < DaysBeforeMonth(k + 1, leap)
    ensures ScanMonth(m, dayInYear, leap) == k
    decreases 11 - m
  {
    DaysBeforeMonthFacts(leap);
    if m < k {
      assert DaysBeforeMonth(m + 1, leap) <= DaysBeforeMonth(k, leap) by {
        MonthStartsMonotone(m + 1, k, leap);
      }
      ScanMonthUnique(m + 1, dayInYear, leap, k);
    }
  }

  lemma {:induction false} MonthStartsMonotone(a: int, b: int, leap: bool)
    requires 0 <= a <= b <= 12
    ensures DaysBeforeMonth(a, leap) <= DaysBeforeMonth(b, leap)
    decreases b - a
  {
    if a < b {
      DaysBeforeMonthFacts(leap);
      MonthStartsMonotone(a, b - 1, leap);
    }
  }

  /** The UTC fields of a time value, with month and day 1-based as printed. */
  datatype Fields = Fields(year: int, month: int, day: int, hour: int, minute: int, second: int)

  predicate ValidFields(f: Fields) {
    && 1 <= f.month <= 12
    && 1 <= f.day <= DaysInMonth(f.year, f.month)
    && 0 <= f.hour < 24
    && 0 <= f.minute < 60
    && 0 <= f.second < 60
  }

  /** MakeDay(year, month - 1, day) of section 21.4.1.28 for a month in range. */
  function MakeDay(year: int, month: int, day: int): int
    requires 1 <= month <= 12
  {
    DayFromYear(year) + DaysBeforeMonth(month - 1, IsLeapYear(year)) + day - 1
  }

  /** MakeDate(MakeDay(..), MakeTime(h, m, s, 0)), sections 21.4.1.27-29. */
  function TimeFromFields(f: Fields): int
    requires 1 <= f.month <= 12
  {
    MakeDay(f.year, f.month, f.day) * MsPerDay
    + f.hour * MsPerHour + f.minute * MsPerMinute + f.second * MsPerSecond
  }

  lemma ClockArithmetic(t: int)
    ensures (t / MsPerDay) * MsPerDay + (t / MsPerHour) % 24 * MsPerHour
      + (t / MsPerMinute) % 60 * MsPerMinute + (t / MsPerSecond) % 60 * MsPerSecond
      == t - t % MsPerSecond
  {
    var s, ms := t / 1000, t % 1000;
    var m, sec := s / 60, s % 60;
    var h, min := m / 60, m % 60;
    var d, hr := h / 24, h % 24;
    DivModUnique(t, MsPerMinute, m, sec * 1000 + ms);
    DivModUnique(t, MsPerHour, h, min * MsPerMinute + sec * 1000 + ms);
    DivModUnique(t, MsPerDay, d, hr * MsPerHour + min * MsPerMinute + sec * 1000 + ms);
  }

  /** A calendar date: year, 1-based month, 1-based day of the month. */
  datatype Date = Date(year: int, month: int, day: int)

  predicate ValidDate(d: Date) {
    1 <= d.month <= 12 && 1 <= d.day <= DaysInMonth(d.year, d.month)
  }

  /**
    YearFromTime, MonthFromTime + 1 and DateFromTime (sections 21.4.1.3-7)
    on a day number: a date valid for its month that MakeDay maps back to
    the same day.
   */
  function DateFromDay(day: int): (d: Date)
    ensures ValidDate(d)
    ensures MakeDay(d.year, d.month, d.day) == day
  {
    var year := YearFromDay(day);
    var leap := IsLeapYear(year);
    DayFromYearStep(year);
    DaysBeforeMonthFacts(leap);
    var dayInYear := day - DayFromYear(year);
    var month := MonthFromDayInYear(dayInYear, leap);
    Date(year, month + 1, dayInYear - DaysBeforeMonth(month, leap) + 1)
  }

  /** A valid date is recovered from the day number it denotes. */
  lemma DateFromDayOfDate(d: Date)
    requires ValidDate(d)
    ensures DateFromDay(MakeDay(d.year, d.month, d.day)) == d
  {
    var e := DateFromDay(MakeDay(d.year, d.month, d.day));
    MakeDayInjective(e, d);
  }

  /** Distinct valid dates have distinct day numbers. */
  lemma MakeDayInjective(a: Date, b: Date)
    requires ValidDate(a) && ValidDate(b)
    requires MakeDay(a.year, a.month, a.day) == MakeDay(b.year, b.month, b.day)
    ensures a == b
  {
    YearOfDate(a);
    YearOfDate(b);
    assert a.year == b.year;
    var leap := IsLeapYear(a.year);
    MakeDaySameYear(a.year, a.month, a.day, b.month, b.day);
    MonthStartsOrdered(a.month - 1, b.month - 1, leap);
    MonthStartsOrdered(b.month - 1, a.month - 1, leap);
  }

  /** A later month starts no earlier than the end of an earlier one. */
  lemma MonthStartsOrdered(a: int, b: int, leap: bool)
    requires 0 <= a < 12 && 0 <= b < 12
    ensures a < b ==> DaysBeforeMonth(a + 1, leap) <= DaysBeforeMonth(b, leap)
  {
    if a < b {
      MonthStartsMonotone(a + 1, b, leap);
    }
  }

  /** Within one year, equal day numbers mean equal days of the year. */
  lemma MakeDaySameYear(y: int, m1: int, d1: int, m2: int, d2: int)
    requires 1 <= m1 <= 12 && 1 <= m2 <= 12 && MakeDay(y, m1, d1) == MakeDay(y, m2, d2)
    ensures DaysBeforeMonth(m1 - 1, IsLeapYear(y)) + d1 == DaysBeforeMonth(m2 - 1, IsLeapYear(y)) + d2
  {
  }

  /** The year of a valid date is the year its day number falls in. */
  lemma YearOfDate(d: Date)
    requires ValidDate(d)
    ensures YearFromDay(MakeDay(d.year, d.month, d.day)) == d.year
  {
    var leap := IsLeapYear(d.year);
    var day := MakeDay(d.year, d.month, d.day);
    MonthStartsMonotone(d.month, 12, leap);
    DaysBeforeMonthFacts(leap);
    DayFromYearStep(d.year);
    assert DayFromYear(d.year) <= day < DayFromYear(d.year + 1);
    YearFromDayUnique(day, d.year);
  }

  /**
    The UTC getters of a valid time value (getUTCFullYear, getUTCMonth() + 1,
    getUTCDate, getUTCHours, getUTCMinutes, getUTCSeconds). The fields are in
    range for their calendar month, and reassembling them loses exactly the
    milliseconds.
   */
  function UtcFields(t: int): (f: Fields)
    ensures ValidFields(f)
    ensures TimeFromFields(f) == t - t % MsPerSecond
  {
    var date := DateFromDay(t / MsPerDay);
    ClockArithmetic(t);
    Fields(date.year, date.month, date.day,
           (t / MsPerHour) % 24, (t / MsPerMinute) % 60, (t / MsPerSecond) % 60)
  }

  /** Dropping the milliseconds does not change the quotient by k whole seconds. */
  lemma WholeSecondsQuotient(t: int, k: int)
    requires k > 0
    ensures (t - t % MsPerSecond) / (k * MsPerSecond) == t / (k * MsPerSecond)
  {
    var q, r := t / MsPerSecond, t % MsPerSecond;
    var d, e := q / k, q % k;
    assert q == d * k + e;
    assert t == d * (k * MsPerSecond) + (e * MsPerSecond + r);
    assert e * MsPerSecond + r < k * MsPerSecond by {
      assert e <= k - 1;
      assert e * MsPerSecond <= (k - 1) * MsPerSecond;
    }
    DivModUnique(t, k * MsPerSecond, d, e * MsPerSecond + r);
    DivModUnique(t - r, k * MsPerSecond, d, e * MsPerSecond);
  }

  lemma WholeSecondsArithmetic(t: int)
    ensures (t - t % MsPerSecond) / MsPerDay == t / MsPerDay
    ensures (t - t % MsPerSecond) / MsPerHour == t / MsPerHour
    ensures (t - t % MsPerSecond) / MsPerMinute == t / MsPerMinute
    ensures (t - t % MsPerSecond) / MsPerSecond == t / MsPerSecond
  {
    WholeSecondsQuotient(t, 86400);
    WholeSecondsQuotient(t, 3600);
    WholeSecondsQuotient(t, 60);
    WholeSecondsQuotient(t, 1);
  }

  /** The fields of a time value depend only on its whole seconds. */
  lemma UtcFieldsIgnoreMilliseconds(t: int)
    ensures UtcFields(t - t % MsPerSecond) == UtcFields(t)
  {
    WholeSecondsArithmetic(t);
  }

  /** Valid fields are recovered from the time value they denote. */
  lemma UtcFieldsOfTime(f: Fields)
    requires ValidFields(f)
    ensures UtcFields(TimeFromFields(f)) == f
  {
    var t := TimeFromFields(f);
    var day := MakeDay(f.year, f.month, f.day);
    assert t == day * MsPerDay + f.hour * MsPerHour + f.minute * MsPerMinute + f.second * MsPerSecond;
    ClockOfTime(t, day, f.hour, f.minute, f.second);
    var d := Date(f.year, f.month, f.day);
    assert ValidDate(d);
    DateFromDayOfDate(d);
    assert DateFromDay(day) == d;
  }

  lemma ClockOfTime(t: int, day: int, hour: int, minute: int, second: int)
    requires 0 <= hour < 24 && 0 <= minute < 60 && 0 <= second < 60
    requires t == day * MsPerDay + hour * MsPerHour + minute * MsPerMinute + second * MsPerSecond
    ensures && t / MsPerDay == day
      && (t / MsPerHour) % 24 == hour
      && (t / MsPerMinute) % 60 == minute
      && (t / MsPerSecond) % 60 == second
  {
    DivModUnique(t, MsPerDay, day, hour * MsPerHour + minute * MsPerMinute + second * MsPerSecond);
    DivModUnique(t, MsPerHour, day * 24 + hour, minute * MsPerMinute + second * MsPerSecond);
    DivModUnique(day * 24 + hour, 24, day, hour);
    DivModUnique(t, MsPerMinute, day * 1440 + hour * 60 + minute, second * MsPerSecond);
    DivModUnique(day * 1440 + hour * 60 + minute, 60, day * 24 + hour, minute);
    DivModUnique(t, MsPerSecond, day * 86400 + hour * 3600 + minute * 60 + second, 0);
    DivModUnique(day * 86400 + hour * 3600 + minute * 60 + second, 60, day * 1440 + hour * 60 + minute, second);
  }
}
