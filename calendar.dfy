/**
 * The proleptic Gregorian day arithmetic behind JavaScript's `Date`:
 * `Date.UTC(y, m - 1, d)` (MakeDay/MakeDate) and the UTC getters
 * `getUTCFullYear`, `getUTCMonth() + 1` and `getUTCDate()` on a time value
 * in milliseconds since 1970-01-01T00:00:00Z. Months are numbered 1..12.
 */
module Calendar {

  const MsPerDay: int := 86400000

  predicate IsLeapYear(y: int) {
    y % 4 == 0 && (y % 100 != 0 || y % 400 == 0)
  }

  function DaysInYear(y: int): int {
    if IsLeapYear(y) then 366 else 365
  }

  /** Day number of January 1st of `y`, counted from 1970-01-01 (ECMAScript DayFromYear). */
  function DayFromYear(y: int): int {
    365 * (y - 1970) + (y - 1969) / 4 - (y - 1901) / 100 + (y - 1601) / 400
  }

  function DaysInMonth(y: int, m: int): int
    requires 1 <= m <= 12
  {
    if m == 2 then (if IsLeapYear(y) then 29 else 28)
    else if m == 4 || m == 6 || m == 9 || m == 11 then 30
    else 31
  }

  /** Days of year `y` before the first of month `m`; month 13 stands for the next January. */
  function DaysBeforeMonth(y: int, m: int): int
    requires 1 <= m <= 13
  {
    var leap := if IsLeapYear(y) && m > 2 then 1 else 0;
    [0, 31, 59, 90, 120, 151, 181, 212, 243, 273, 304, 334, 365][m - 1] + leap
  }

  /** ECMAScript MakeDay for a month in range: the day number of (y, m, date); `date` may overflow. */
  function MakeDay(y: int, m: int, date: int): int
    requires 1 <= m <= 12
  {
    DayFromYear(y) + DaysBeforeMonth(y, m) + date - 1
  }

  /** A calendar day in UTC. */
  datatype UtcDate = UtcDate(year: int, month: int, day: int)

  predicate ValidDate(d: UtcDate) {
    1 <= d.month <= 12 && 1 <= d.day <= DaysInMonth(d.year, d.month)
  }

  /** Consecutive years are `DaysInYear` apart. */
  lemma YearLength(y: int)
    ensures DayFromYear(y + 1) == DayFromYear(y) + DaysInYear(y)
  {
    Quarter(y);
    Century(y);
    Quadricentury(y);
    Multiples(y);
    var q4 := if y % 4 == 0 then 1 else 0;
    var q100 := if y % 100 == 0 then 1 else 0;
    var q400 := if y % 400 == 0 then 1 else 0;
    assert DayFromYear(y + 1) == DayFromYear(y) + 365 + q4 - q100 + q400;
    assert DaysInYear(y) == 365 + q4 - q100 + q400;
  }

  /** A multiple of 400 is a multiple of 100, which is a multiple of 4. */
  lemma Multiples(y: int)
    ensures y % 100 == 0 ==> y % 4 == 0
    ensures y % 400 == 0 ==> y % 100 == 0
  {
    if y % 100 == 0 {
      assert y == 4 * (25 * (y / 100));
    }
    if y % 400 == 0 {
      assert y == 100 * (4 * (y / 400));
    }
  }

  lemma Quarter(y: int)
    ensures (y - 1968) / 4 == (y - 1969) / 4 + (if y % 4 == 0 then 1 else 0)
  {
    var q, r := y / 4, y % 4;
    assert y == 4 * q + r && 0 <= r < 4;
    assert y - 1968 == 4 * (q - 492) + r;
    if r == 0 {
      assert y - 1969 == 4 * (q - 493) + 3;
    } else {
      assert y - 1969 == 4 * (q - 492) + (r - 1);
    }
  }

  lemma Century(y: int)
    ensures (y - 1900) / 100 == (y - 1901) / 100 + (if y % 100 == 0 then 1 else 0)
  {
    var q, r := y / 100, y % 100;
    assert y == 100 * q + r && 0 <= r < 100;
    assert y - 1900 == 100 * (q - 19) + r;
    if r == 0 {
      assert y - 1901 == 100 * (q - 20) + 99;
    } else {
      assert y - 1901 == 100 * (q - 19) + (r - 1);
    }
  }

  lemma Quadricentury(y: int)
    ensures (y - 1600) / 400 == (y - 1601) / 400 + (if y % 400 == 0 then 1 else 0)
  {
    var q, r := y / 400, y % 400;
    assert y == 400 * q + r && 0 <= r < 400;
    assert y - 1600 == 400 * (q - 4) + r;
    if r == 0 {
      assert y - 1601 == 400 * (q - 5) + 399;
    } else {
      assert y - 1601 == 400 * (q - 4) + (r - 1);
    }
  }

  /** Later years start later: every day of year `a` precedes January 1st of any `b > a`. */
  lemma {:induction false} YearsOrdered(a: int, b: int)
    requires a < b
    ensures DayFromYear(a) + DaysInYear(a) <= DayFromYear(b)
    decreases b - a
  {
    YearLength(a);
    if a + 1 < b {
      YearsOrdered(a + 1, b);
    }
  }

  /** Consecutive months of one year are `DaysInMonth` apart. */
  lemma MonthLength(y: int, m: int)
    requires 1 <= m <= 12
    ensures DaysBeforeMonth(y, m + 1) == DaysBeforeMonth(y, m) + DaysInMonth(y, m)
    ensures DaysBeforeMonth(y, 1) == 0 && DaysBeforeMonth(y, 13) == DaysInYear(y)
  {
  }

  /** Later months of one year start later. */
  lemma {:induction false} MonthsOrdered(y: int, a: int, b: int)
    requires 1 <= a < b <= 13
    ensures DaysBeforeMonth(y, a) + DaysInMonth(y, a) <= DaysBeforeMonth(y, b)
    decreases b - a
  {
    MonthLength(y, a);
    if a + 1 < b {
      MonthsOrdered(y, a + 1, b);
    }
  }

  /** A year lasts at least 365 days. */
  lemma YearStartsLater(y: int)
    ensures DayFromYear(y) + 365 <= DayFromYear(y + 1)
  {
    YearLength(y);
  }

  /** The year holding day `d`, searching forward from a year that starts on or before it. */
  function YearSearchUp(d: int, y: int): (r: int)
    requires DayFromYear(y) <= d
    ensures DayFromYear(r) <= d < DayFromYear(r + 1)
    decreases d - DayFromYear(y)
  {
    YearStartsLater(y);
    if d < DayFromYear(y + 1) then y else YearSearchUp(d, y + 1)
  }

  /** The year holding day `d`, searching backward from a year that ends after it. */
  function YearSearchDown(d: int, y: int): (r: int)
    requires d < DayFromYear(y + 1)
    ensures DayFromYear(r) <= d < DayFromYear(r + 1)
    decreases DayFromYear(y + 1) - d
  {
    YearStartsLater(y);
    if DayFromYear(y) <= d then y else YearSearchDown(d, y - 1)
  }

  /** ECMAScript YearFromTime on day numbers: the year whose days include `d`. */
  function YearFromDay(d: int): (r: int)
    ensures DayFromYear(r) <= d < DayFromYear(r + 1)
  {
    if d >= 0 then YearSearchUp(d, 1970) else YearSearchDown(d, 1969)
  }

  /** The month of year `y` holding day `k` of that year (0-based), searching from month `m`. */
  function MonthSearch(y: int, k: int, m: int): (r: int)
    requires 1 <= m <= 12 && DaysBeforeMonth(y, m) <= k < DaysInYear(y)
    ensures m <= r <= 12 && DaysBeforeMonth(y, r) <= k < DaysBeforeMonth(y, r + 1)
    decreases 12 - m
  {
    MonthLength(y, m);
    if k < DaysBeforeMonth(y, m + 1) then m else MonthSearch(y, k, m + 1)
  }

  /** The calendar date of day number `d`. */
  function DateOfDay(d: int): (r: UtcDate)
    ensures ValidDate(r) && MakeDay(r.year, r.month, r.day) == d
  {
    var y := YearFromDay(d);
    YearLength(y);
    MonthLength(y, 1);
    var m := MonthSearch(y, d - DayFromYear(y), 1);
    MonthLength(y, m);
    UtcDate(y, m, d - DayFromYear(y) - DaysBeforeMonth(y, m) + 1)
  }

  /** `getUTCFullYear()`, `getUTCMonth() + 1` and `getUTCDate()` of a time value. */
  function UtcDateOf(ms: int): (r: UtcDate)
    ensures ValidDate(r)
  {
    DateOfDay(ms / MsPerDay)
  }

  /** The decoded date's day is the one holding the instant. */
  lemma UtcDateOfDay(ms: int)
    ensures var r := UtcDateOf(ms);
            MakeDay(r.year, r.month, r.day) == ms / MsPerDay &&
            MakeDay(r.year, r.month, r.day) * MsPerDay <= ms < (MakeDay(r.year, r.month, r.day) + 1) * MsPerDay
  {
  }

  /** A valid date's day number falls inside its own year. */
  lemma DayInsideYear(t: UtcDate)
    requires ValidDate(t)
    ensures DayFromYear(t.year) <= MakeDay(t.year, t.month, t.day) < DayFromYear(t.year + 1)
    ensures DaysBeforeMonth(t.year, t.month) <= MakeDay(t.year, t.month, t.day) - DayFromYear(t.year)
                                              < DaysBeforeMonth(t.year, t.month + 1)
  {
    MonthLength(t.year, t.month);
    MonthsOrdered(t.year, t.month, 13);
    MonthLength(t.year, 12);
    YearLength(t.year);
  }

  /** Years do not overlap: a day lies inside at most one year. */
  lemma OneYearHoldsDay(a: int, b: int, d: int)
    requires DayFromYear(a) <= d < DayFromYear(a + 1)
    requires DayFromYear(b) <= d < DayFromYear(b + 1)
    ensures a == b
  {
    if a < b {
      YearsOrdered(a, b);
      YearLength(a);
    } else if a > b {
      YearsOrdered(b, a);
      YearLength(b);
    }
  }

  /** Months of one year do not overlap: a day of the year lies inside at most one month. */
  lemma OneMonthHoldsDay(y: int, a: int, b: int, k: int)
    requires 1 <= a <= 12 && 1 <= b <= 12
    requires DaysBeforeMonth(y, a) <= k < DaysBeforeMonth(y, a + 1)
    requires DaysBeforeMonth(y, b) <= k < DaysBeforeMonth(y, b + 1)
    ensures a == b
  {
    if a < b {
      MonthsOrdered(y, a, b);
      MonthLength(y, a);
    } else if a > b {
      MonthsOrdered(y, b, a);
      MonthLength(y, b);
    }
  }

  /** Distinct valid dates have distinct day numbers. */
  lemma DayNumberInjective(r: UtcDate, t: UtcDate)
    requires ValidDate(r) && ValidDate(t)
    requires MakeDay(r.year, r.month, r.day) == MakeDay(t.year, t.month, t.day)
    ensures r == t
  {
    var d := MakeDay(t.year, t.month, t.day);
    assert r.year == t.year by {
      DayInsideYear(t);
      DayInsideYear(r);
      OneYearHoldsDay(r.year, t.year, d);
    }
    assert r.month == t.month by {
      DayInsideYear(t);
      DayInsideYear(r);
      OneMonthHoldsDay(t.year, r.month, t.month, d - DayFromYear(t.year));
    }
  }

  /** Decoding the day number of a valid date gives the date back. */
  lemma DateOfDayRoundTrip(t: UtcDate)
    requires ValidDate(t)
    ensures DateOfDay(MakeDay(t.year, t.month, t.day)) == t
  {
    DayNumberInjective(DateOfDay(MakeDay(t.year, t.month, t.day)), t);
  }

  /** An instant between the start of day `d` and the start of the next one lies on day `d`. */
  lemma DayOfInstant(d: int, ms: int)
    requires d * MsPerDay <= ms < (d + 1) * MsPerDay
    ensures ms / MsPerDay == d
  {
  }

  /** Every instant of a valid date's day decodes to that date. */
  lemma UtcDateOfRoundTrip(t: UtcDate, ms: int)
    requires ValidDate(t)
    requires MakeDay(t.year, t.month, t.day) * MsPerDay <= ms < (MakeDay(t.year, t.month, t.day) + 1) * MsPerDay
    ensures UtcDateOf(ms) == t
  {
    DayOfInstant(MakeDay(t.year, t.month, t.day), ms);
    DateOfDayRoundTrip(t);
  }

  /**
   * The first day of (y, m) is on or before the day of a valid date `t`
   * exactly when (y, m) is not later than (t.year, t.month).
   */
  lemma MonthStartOrder(y: int, m: int, t: UtcDate)
    requires 1 <= m <= 12 && ValidDate(t)
    ensures MakeDay(y, m, 1) <= MakeDay(t.year, t.month, t.day)
            <==> y < t.year || (y == t.year && m <= t.month)
  {
    var start := MakeDay(y, m, 1);
    var day := MakeDay(t.year, t.month, t.day);
    if y < t.year {
      assert start < day by {
        DayInsideYear(t);
        DayInsideYear(UtcDate(y, m, 1));
        YearsOrdered(y, t.year);
        YearLength(y);
      }
    } else if y > t.year {
      assert day < start by {
        DayInsideYear(t);
        DayInsideYear(UtcDate(y, m, 1));
        YearsOrdered(t.year, y);
        YearLength(t.year);
      }
    } else if m < t.month {
      assert start < day by {
        MonthsOrdered(y, m, t.month);
      }
    } else if m > t.month {
      assert day < start by {
        MonthsOrdered(y, t.month, m);
      }
    }
  }
}
