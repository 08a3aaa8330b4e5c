/**
 * Year selection and the month window: `pickYearsForLast10` chooses the ten
 * years whose target month is analysed, and `monthBoundsUnix` gives, for one
 * (year, month), the half-open window [period1, period2) in Unix seconds that
 * is sent to the price source, clamped when it is the current UTC month.
 */
module Window {
  import opened Calendar

  /** `Date.UTC(y, m - 1, 1)`: the first instant of month `m` of year `y`, in milliseconds. */
  function MonthStartMs(y: int, m: int): int
    requires 1 <= m <= 12
  {
    MakeDay(y, m, 1) * MsPerDay
  }

  /** The month after (y, m), rolling December over into January of the next year. */
  function NextMonthStartMs(y: int, m: int): int
    requires 1 <= m <= 12
  {
    var nextMonth := if m == 12 then 1 else m + 1;
    var nextYear := if m == 12 then y + 1 else y;
    MonthStartMs(nextYear, nextMonth)
  }

  /** `Math.floor(ms / 1000)`. */
  function Seconds(ms: int): int {
    ms / 1000
  }

  /**
   * The handler's `today` (`new Date()`): its time value in milliseconds and
   * the UTC year, month and day that `getUTCFullYear()`, `getUTCMonth() + 1`
   * and `getUTCDate()` read from it.
   */
  datatype Today = Today(ms: int, date: UtcDate)

  /** The `Date` object of the time value `ms`. */
  function TodayOf(ms: int): (today: Today)
    ensures today.ms == ms && ValidDate(today.date)
  {
    Today(ms, UtcDateOf(ms))
  }

  /** Whether (year, month) is the UTC year and month of `today`. */
  predicate IsCurrentMonth(year: int, month: int, today: Today) {
    year == today.date.year && month == today.date.month
  }

  /**
   * `tomorrow` as the handler computes it: a copy of `today` whose UTC date is
   * set to `getUTCDate() + 1`, keeping the time of day (ECMAScript setUTCDate).
   */
  function TomorrowMs(today: Today): (t: int)
    requires 1 <= today.date.month <= 12
    ensures t % MsPerDay == today.ms % MsPerDay
  {
    MakeDay(today.date.year, today.date.month, today.date.day + 1) * MsPerDay + today.ms % MsPerDay
  }

  /** `setUTCDate(getUTCDate() + 1)` adds exactly one day, whatever the month length. */
  lemma TomorrowIsOneDayLater(todayMs: int)
    ensures TomorrowMs(TodayOf(todayMs)) == todayMs + MsPerDay
  {
    var today := UtcDateOf(todayMs);
    var d := MakeDay(today.year, today.month, today.day);
    UtcDateOfDay(todayMs);
    assert todayMs == d * MsPerDay + todayMs % MsPerDay;
  }

  /** The request window: `period1` and `period2` in Unix seconds. */
  datatype Bounds = Bounds(period1: int, period2: int)

  /** `monthBoundsUnix(year, month, today)`. */
  function MonthBoundsUnix(year: int, month: int, today: Today): (w: Bounds)
    requires 1 <= month <= 12
    ensures w.period1 == Seconds(MonthStartMs(year, month))
    ensures w.period2 <= Seconds(NextMonthStartMs(year, month))
    ensures !IsCurrentMonth(year, month, today) ==> w.period2 == Seconds(NextMonthStartMs(year, month))
  {
    var start := MonthStartMs(year, month);
    var theoreticalEnd := NextMonthStartMs(year, month);
    if IsCurrentMonth(year, month, today) then
      var tomorrow := TomorrowMs(today);
      var end := if tomorrow < theoreticalEnd then tomorrow else theoreticalEnd;
      Bounds(Seconds(start), Seconds(end))
    else
      Bounds(Seconds(start), Seconds(theoreticalEnd))
  }

  /**
   * The window starts at the month's first instant and ends no later than the
   * next month's; it ends exactly there unless the month is the current one,
   * whose window ends at the earlier of that instant and one day after `today`.
   */
  lemma MonthWindow(year: int, month: int, todayMs: int)
    requires 1 <= month <= 12
    ensures var today := TodayOf(todayMs);
            var w := MonthBoundsUnix(year, month, today);
            w.period1 == Seconds(MonthStartMs(year, month)) &&
            w.period2 <= Seconds(NextMonthStartMs(year, month)) &&
            (!IsCurrentMonth(year, month, today) ==> w.period2 == Seconds(NextMonthStartMs(year, month))) &&
            (IsCurrentMonth(year, month, today) ==>
               w.period2 <= Seconds(todayMs + MsPerDay) &&
               (w.period2 == Seconds(todayMs + MsPerDay) || w.period2 == Seconds(NextMonthStartMs(year, month))))
  {
    TomorrowIsOneDayLater(todayMs);
  }

  /** A month's first instant is a whole number of seconds. */
  lemma MonthStartWholeSeconds(y: int, m: int)
    requires 1 <= m <= 12
    ensures Seconds(MonthStartMs(y, m)) * 1000 == MonthStartMs(y, m)
  {
    var k := MakeDay(y, m, 1) * 86400;
    assert MonthStartMs(y, m) == k * 1000;
    WholeThousands(k);
  }

  lemma WholeThousands(k: int)
    ensures (k * 1000) / 1000 == k
  {
  }

  /** Every window is non-empty: it starts strictly before it ends. */
  lemma WindowNonEmpty(year: int, month: int, todayMs: int)
    requires 1 <= month <= 12
    ensures var w := MonthBoundsUnix(year, month, TodayOf(todayMs));
            w.period1 < w.period2
  {
    var start := MonthStartMs(year, month);
    MonthWindow(year, month, todayMs);
    MonthLength(year, month);
    MonthStartWholeSeconds(year, month);
    var nextMonth := if month == 12 then 1 else month + 1;
    var nextYear := if month == 12 then year + 1 else year;
    MonthStartWholeSeconds(nextYear, nextMonth);
    assert start + MsPerDay <= NextMonthStartMs(year, month) by {
      if month == 12 {
        YearLength(year);
      }
    }
    if IsCurrentMonth(year, month, TodayOf(todayMs)) {
      var today := UtcDateOf(todayMs);
      UtcDateOfDay(todayMs);
      MonthStartOrder(year, month, today);
      assert start <= todayMs;
    }
  }

  /** December's window ends at the first instant of January of the following year. */
  lemma DecemberRollsOver(year: int, todayMs: int)
    requires !IsCurrentMonth(year, 12, TodayOf(todayMs))
    ensures MonthBoundsUnix(year, 12, TodayOf(todayMs)).period2 == Seconds(MonthStartMs(year + 1, 1))
    ensures MonthStartMs(year + 1, 1) == DayFromYear(year + 1) * MsPerDay
  {
    MonthWindow(year, 12, todayMs);
  }

  /** `pickYearsForLast10(month, today)`: the ten target years, most recent first. */
  function PickYearsForLast10(month: int, today: Today): (years: seq<int>)
    ensures |years| == 10
    ensures forall i :: 0 < i < 10 ==> years[i] == years[i - 1] - 1
  {
    var startYear := if month > today.date.month then today.date.year - 1 else today.date.year;
    seq(10, i => startYear - i)
  }

  /**
   * The ten years are the ten most recent occurrences of the month that have
   * begun by `today`: each of them has begun, and the next one has not.
   */
  lemma PickedYearsAreLatestBegun(month: int, todayMs: int)
    requires 1 <= month <= 12
    ensures var years := PickYearsForLast10(month, TodayOf(todayMs));
            (forall i :: 0 <= i < 10 ==> MonthStartMs(years[i], month) <= todayMs) &&
            todayMs < MonthStartMs(years[0] + 1, month)
  {
    var years := PickYearsForLast10(month, TodayOf(todayMs));
    var today := UtcDateOf(todayMs);
    UtcDateOfDay(todayMs);
    forall i | 0 <= i < 10
      ensures MonthStartMs(years[i], month) <= todayMs
    {
      MonthStartOrder(years[i], month, today);
    }
    MonthStartOrder(years[0] + 1, month, today);
  }

  /**
   * The first picked year is the current one exactly when the target month is
   * not later in the year than the current month; for the current month its
   * window is the clamped one and ends no later than one day after `today`.
   */
  lemma CurrentYearPickedIffMonthBegun(month: int, todayMs: int)
    requires 1 <= month <= 12
    ensures var today := TodayOf(todayMs);
            (PickYearsForLast10(month, today)[0] == today.date.year <==> month <= today.date.month)
    ensures var today := TodayOf(todayMs);
            month == today.date.month ==>
              MonthBoundsUnix(PickYearsForLast10(month, today)[0], month, today).period2
                <= Seconds(todayMs + MsPerDay)
  {
    MonthWindow(PickYearsForLast10(month, TodayOf(todayMs))[0], month, todayMs);
  }
}
