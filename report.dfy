/**
 * One ticker's report: what each (ticker, year) attempt yields, how the
 * attempts are split between `perYear` and `yearErrors`, and how the
 * report object is assembled from them (the failure report when no year
 * succeeded, the statistics otherwise).
 */
module Report {
  import opened Common
  import opened Calendar
  import opened Window
  import opened Sorting
  import opened Months
  import opened Lows
  import opened Frequency
  import opened Vendor

  /** An entry of `perYear`: `{ year, lows }`. */
  datatype YearLows = YearLows(year: int, lows: seq<Low>)

  /** An entry of `yearErrors`: `{ year, error }`. */
  datatype YearError = YearError(year: int, error: string)

  /** Where one year's attempt ends: in `perYear` or in `yearErrors`. */
  datatype Outcome = Lowered(entry: YearLows) | Failed(failure: YearError)

  /** The `error` field of a ticker report: `null`, the failure sentence, or the list of year errors. */
  datatype ErrorField = NoError | Message(text: string) | Errors(list: seq<YearError>)

  /**
   * A ticker report. `yearErrors` is a separate field only in the failure
   * report; `freqDays` stands for `freqDays.sorted`.
   */
  datatype TickerReport = TickerReport(
    ticker: string,
    years: seq<int>,
    perYear: seq<YearLows>,
    freqDays: seq<FreqEntry>,
    bestDays: seq<int>,
    error: ErrorField,
    yearErrors: Option<seq<YearError>>)

  const NoRowInMonth: string := "aucune ligne dans le mois apr\U{E8}s filtrage"
  const NoYearFetched: string :=
    "Aucune ann\U{E9}e r\U{E9}cup\U{E9}r\U{E9}e depuis query1.finance.yahoo.com (IP bloqu\U{E9}e, ticker invalide ou march\U{E9} indisponible)."

  /** The chart request for one year: the ticker and the month window of that year. */
  function YearQuery(ticker: string, year: int, month: Month, today: Today): Query {
    Query(ticker, MonthBoundsUnix(year, month, today))
  }

  /** What one year's attempt yields from the vendor's reply. */
  function YearOutcome(year: int, month: Month, reply: Reply): (o: Outcome)
    ensures OutcomeYear(o) == year
    ensures o.Lowered? ==> 1 <= |o.entry.lows| <= 4
  {
    match ReadReply(reply)
    case Err(message) => Failed(YearError(year, message))
    case Ok(series) =>
      var rows := KeptRows(DecodedDates(series.timestamps), series.closes, year, month, |series.timestamps|);
      if rows == [] then Failed(YearError(year, NoRowInMonth))
      else Lowered(YearLows(year, ToLows(LowestFour(rows))))
  }

  function OutcomeYear(o: Outcome): int {
    if o.Lowered? then o.entry.year else o.failure.year
  }

  /**
   * The attempts for `years`, in order, the `k`-th made as call number
   * `start + k` to the vendor.
   */
  function Outcomes(ticker: string, years: seq<int>, month: Month, today: Today,
                    vendor: (nat, Query) -> Reply, start: nat): (outs: seq<Outcome>)
    ensures |outs| == |years|
  {
    seq(|years|, k requires 0 <= k < |years| =>
      YearOutcome(years[k], month, vendor(start + k, YearQuery(ticker, years[k], month, today))))
  }

  /** The successful years, in attempt order. */
  function PerYear(outs: seq<Outcome>): (entries: seq<YearLows>)
    ensures |entries| <= |outs|
    ensures forall e :: e in entries ==> Lowered(e) in outs
  {
    if outs == [] then []
    else
      var prev := PerYear(outs[..|outs| - 1]);
      var last := outs[|outs| - 1];
      if last.Lowered? then prev + [last.entry] else prev
  }

  /** The failed years, in attempt order. */
  function YearErrors(outs: seq<Outcome>): (errors: seq<YearError>)
    ensures |errors| <= |outs|
    ensures forall e :: e in errors ==> Failed(e) in outs
  {
    if outs == [] then []
    else
      var prev := YearErrors(outs[..|outs| - 1]);
      var last := outs[|outs| - 1];
      if last.Failed? then prev + [last.failure] else prev
  }

  /** `allDays`: the days of month of every selected low, year after year. */
  function AllDays(perYear: seq<YearLows>): seq<int> {
    if perYear == [] then []
    else AllDays(perYear[..|perYear| - 1]) + DaysOf(perYear[|perYear| - 1].lows)
  }

  function YearOf(y: YearLows): int {
    y.year
  }

  function ErrorYear(e: YearError): int {
    e.year
  }

  /** Sort key of `(a, b) => b.year - a.year`: descending years. */
  function LaterFirst(y: YearLows): int {
    -y.year
  }

  /** Sort key of `(a, b) => b - a`. */
  function Descending(x: int): int {
    -x
  }

  /** Every successful year has at least one low. */
  predicate HasLows(outs: seq<Outcome>) {
    forall k :: 0 <= k < |outs| && outs[k].Lowered? ==> outs[k].entry.lows != []
  }

  predicate AllHaveLows(perYear: seq<YearLows>) {
    forall i :: 0 <= i < |perYear| ==> perYear[i].lows != []
  }

  /** The report object built from the successful years and the year errors. */
  function ReportFrom(ticker: string, perYear: seq<YearLows>, yearErrors: seq<YearError>): (r: TickerReport)
    requires AllHaveLows(perYear)
    ensures r.ticker == ticker
    ensures |r.years| == |r.perYear| == |perYear|
    ensures r.yearErrors.Some? <==> perYear == []
  {
    if perYear == [] then
      TickerReport(ticker, [], [], [], [], Message(NoYearFetched), Some(yearErrors))
    else
      var days := AllDays(perYear);
      AllDaysNonEmpty(perYear);
      CountsNonEmpty(days);
      var counts := Counts(days);
      TickerReport(ticker, SortBy(Project(perYear, YearOf), Descending), SortBy(perYear, LaterFirst),
                   FreqTable(counts), BestDays(counts),
                   if yearErrors == [] then NoError else Errors(yearErrors), None)
  }

  /** The report pushed to `finalResults` for one ticker after all its years were attempted. */
  function TickerReportOf(ticker: string, outs: seq<Outcome>): (r: TickerReport)
    requires HasLows(outs)
    ensures r.ticker == ticker
    ensures |r.perYear| <= |outs|
  {
    PerYearHasLows(outs);
    ReportFrom(ticker, PerYear(outs), YearErrors(outs))
  }

  /** One more attempt adds its entry to exactly one of the two lists. */
  lemma ListsAppend(outs: seq<Outcome>, o: Outcome)
    ensures PerYear(outs + [o]) == PerYear(outs) + (if o.Lowered? then [o.entry] else [])
    ensures YearErrors(outs + [o]) == YearErrors(outs) + (if o.Failed? then [o.failure] else [])
  {
    assert (outs + [o])[..|outs|] == outs;
  }

  lemma AllDaysStep(perYear: seq<YearLows>, entry: YearLows)
    ensures AllDays(perYear + [entry]) == AllDays(perYear) + DaysOf(entry.lows)
  {
    assert (perYear + [entry])[..|perYear|] == perYear;
  }

  lemma {:induction false} PerYearHasLows(outs: seq<Outcome>)
    requires HasLows(outs)
    ensures AllHaveLows(PerYear(outs))
  {
    if outs != [] {
      PerYearHasLows(outs[..|outs| - 1]);
    }
  }

  lemma {:induction false} AllDaysNonEmpty(perYear: seq<YearLows>)
    requires perYear != [] && AllHaveLows(perYear)
    ensures AllDays(perYear) != []
  {
  }

  /**
   * A successful year holds the four lowest closes of the month (all of
   * them when fewer rows pass the filter), with ascending prices, each dated
   * in that year and month; every index of the series whose close is
   * present and whose date falls in the month, but whose low was not
   * selected, closes at or above the highest selected price.
   */
  lemma YearOutcomeLows(year: int, month: Month, reply: Reply)
    ensures var o := YearOutcome(year, month, reply);
            OutcomeYear(o) == year &&
            (o.Lowered? ==>
              var lows := o.entry.lows;
              var series := ReadReply(reply).value;
              var rows := KeptRows(DecodedDates(series.timestamps), series.closes, year, month, |series.timestamps|);
              1 <= |lows| <= 4 && |lows| == Min(4, |rows|) &&
              (forall i, j :: 0 <= i < j < |lows| ==> lows[i].price <= lows[j].price) &&
              (forall i :: 0 <= i < |lows| ==> ValidDate(lows[i].date) &&
                                               lows[i].date.year == year && lows[i].date.month == month) &&
              (forall i, d, p :: 0 <= i < |series.timestamps| && CloseAt(series.closes, i) == Some(p) &&
                                 DecodeTimestamp(series.timestamps[i]) == Some(d) &&
                                 d.year == year && d.month == month && Low(d, p) !in lows ==>
                                 lows[|lows| - 1].price <= p))
  {
    var o := YearOutcome(year, month, reply);
    if o.Lowered? {
      var series := ReadReply(reply).value;
      var rows := KeptRows(DecodedDates(series.timestamps), series.closes, year, month, |series.timestamps|);
      assert forall r :: r in rows ==> ValidDate(r.date) && r.date.year == year && r.date.month == month by {
        KeptRowsInMonth(series.timestamps, series.closes, year, month);
      }
      SelectedLows(rows, year, month);
      LeftOutIndicesCloseHigher(series.timestamps, series.closes, year, month);
    }
  }

  /** The lows selected from rows of one month: one to four, ascending, each dated in that month. */
  lemma SelectedLows(rows: seq<Row>, year: int, month: Month)
    requires rows != []
    requires forall r :: r in rows ==> ValidDate(r.date) && r.date.year == year && r.date.month == month
    ensures var lows := ToLows(LowestFour(rows));
            1 <= |lows| <= 4 && |lows| == Min(4, |rows|) &&
            (forall i, j :: 0 <= i < j < |lows| ==> lows[i].price <= lows[j].price) &&
            (forall i :: 0 <= i < |lows| ==> ValidDate(lows[i].date) &&
                                             lows[i].date.year == year && lows[i].date.month == month)
  {
    var sel := LowestFour(rows);
    var lows := ToLows(sel);
    assert SortedBy(sel, Close) && |sel| == Min(4, |rows|) by {
      LowestFourAreSmallest(rows);
    }
    forall i, j | 0 <= i < j < |lows| ensures lows[i].price <= lows[j].price {
      assert Close(sel[i]) <= Close(sel[j]);
    }
    forall i | 0 <= i < |lows|
      ensures ValidDate(lows[i].date) && lows[i].date.year == year && lows[i].date.month == month
    {
      LowestFourMembers(rows);
      assert sel[i] in rows;
    }
  }

  /** A year fails exactly when the reply is unusable or the filter keeps no row, with the matching message. */
  lemma YearOutcomeFailure(year: int, month: Month, reply: Reply)
    ensures var o := YearOutcome(year, month, reply);
            o.Failed? <==>
              ReadReply(reply).Err? ||
              KeptRows(DecodedDates(ReadReply(reply).value.timestamps), ReadReply(reply).value.closes,
                       year, month, |ReadReply(reply).value.timestamps|) == []
    ensures ReadReply(reply).Err? ==> YearOutcome(year, month, reply) == Failed(YearError(year, ReadReply(reply).message))
    ensures ReadReply(reply).Ok? && YearOutcome(year, month, reply).Failed? ==>
              YearOutcome(year, month, reply) == Failed(YearError(year, NoRowInMonth))
  {
  }

  /** Every attempt the vendor answers yields lows whenever it succeeds. */
  lemma OutcomesHaveLows(ticker: string, years: seq<int>, month: Month, today: Today,
                         vendor: (nat, Query) -> Reply, start: nat)
    ensures HasLows(Outcomes(ticker, years, month, today, vendor, start))
    ensures forall k :: 0 <= k < |years| ==> OutcomeYear(Outcomes(ticker, years, month, today, vendor, start)[k]) == years[k]
  {
    var outs := Outcomes(ticker, years, month, today, vendor, start);
    forall k | 0 <= k < |years|
      ensures (outs[k].Lowered? ==> outs[k].entry.lows != []) && OutcomeYear(outs[k]) == years[k]
    {
      YearOutcomeLows(years[k], month, vendor(start + k, YearQuery(ticker, years[k], month, today)));
    }
  }

  /**
   * Each attempt ends in exactly one of `perYear` and `yearErrors`: the two
   * lists together hold as many entries as there were attempts, and their
   * years are, as a multiset, the attempted years.
   */
  lemma {:induction false} EachYearOnce(outs: seq<Outcome>)
    ensures |PerYear(outs)| + |YearErrors(outs)| == |outs|
    ensures multiset(Project(PerYear(outs), YearOf)) + multiset(Project(YearErrors(outs), ErrorYear)) ==
            multiset(AttemptedYears(outs))
  {
    if outs != [] {
      var prefix := outs[..|outs| - 1];
      EachYearOnce(prefix);
      OneMoreOutcome(prefix, outs[|outs| - 1]);
      TakeOneMore(outs, |outs| - 1);
      assert outs[..|outs|] == outs;
    }
  }

  /** The step of `EachYearOnce`: one more attempt lands in exactly one list. */
  lemma OneMoreOutcome(outs: seq<Outcome>, o: Outcome)
    requires |PerYear(outs)| + |YearErrors(outs)| == |outs|
    requires multiset(Project(PerYear(outs), YearOf)) + multiset(Project(YearErrors(outs), ErrorYear)) ==
             multiset(AttemptedYears(outs))
    ensures |PerYear(outs + [o])| + |YearErrors(outs + [o])| == |outs| + 1
    ensures multiset(Project(PerYear(outs + [o]), YearOf)) + multiset(Project(YearErrors(outs + [o]), ErrorYear)) ==
            multiset(AttemptedYears(outs + [o]))
  {
    AttemptedYearsAppend(outs, o);
    var py, ey := Project(PerYear(outs), YearOf), Project(YearErrors(outs), ErrorYear);
    if o.Lowered? {
      OneMoreLowered(outs, o);
      MultisetStep(py, ey, AttemptedYears(outs), o.entry.year);
    } else {
      OneMoreFailed(outs, o);
      MultisetStep(ey, py, AttemptedYears(outs), o.failure.year);
    }
  }

  lemma AttemptedYearsAppend(outs: seq<Outcome>, o: Outcome)
    ensures AttemptedYears(outs + [o]) == AttemptedYears(outs) + [OutcomeYear(o)]
  {
    assert (outs + [o])[..|outs|] == outs;
  }

  lemma OneMoreLowered(outs: seq<Outcome>, o: Outcome)
    requires o.Lowered?
    ensures PerYear(outs + [o]) == PerYear(outs) + [o.entry]
    ensures YearErrors(outs + [o]) == YearErrors(outs)
    ensures Project(PerYear(outs + [o]), YearOf) == Project(PerYear(outs), YearOf) + [o.entry.year]
  {
    ListsAppend(outs, o);
    ProjectAppend(PerYear(outs), [o.entry], YearOf);
  }

  lemma OneMoreFailed(outs: seq<Outcome>, o: Outcome)
    requires o.Failed?
    ensures YearErrors(outs + [o]) == YearErrors(outs) + [o.failure]
    ensures PerYear(outs + [o]) == PerYear(outs)
    ensures Project(YearErrors(outs + [o]), ErrorYear) == Project(YearErrors(outs), ErrorYear) + [o.failure.year]
  {
    ListsAppend(outs, o);
    ProjectAppend(YearErrors(outs), [o.failure], ErrorYear);
  }

  /** Appending the same value to one side and to the total keeps a multiset sum. */
  lemma MultisetStep(a: seq<int>, b: seq<int>, c: seq<int>, y: int)
    requires multiset(a) + multiset(b) == multiset(c)
    ensures multiset(a + [y]) + multiset(b) == multiset(c + [y])
    ensures multiset(b) + multiset(a + [y]) == multiset(c + [y])
  {
    assert multiset(a + [y]) == multiset(a) + multiset{y};
    assert multiset(c + [y]) == multiset(c) + multiset{y};
  }

  /** The year of each attempt, in attempt order. */
  function AttemptedYears(outs: seq<Outcome>): (years: seq<int>)
    ensures |years| == |outs|
    ensures forall k :: 0 <= k < |outs| ==> years[k] == OutcomeYear(outs[k])
  {
    if outs == [] then []
    else AttemptedYears(outs[..|outs| - 1]) + [OutcomeYear(outs[|outs| - 1])]
  }

  /** No successful year at all exactly when every attempt failed; `yearErrors` then lists every attempt. */
  lemma {:induction false} NoYearIffAllFailed(outs: seq<Outcome>)
    ensures PerYear(outs) == [] <==> forall k :: 0 <= k < |outs| ==> outs[k].Failed?
    ensures YearErrors(outs) == [] <==> forall k :: 0 <= k < |outs| ==> outs[k].Lowered?
  {
    if outs != [] {
      var n := |outs| - 1;
      NoYearIffAllFailed(outs[..n]);
      assert forall k :: 0 <= k < n ==> outs[..n][k] == outs[k];
    }
  }

  /**
   * When no year succeeded the report carries no statistics, the failure
   * sentence as `error`, and every attempt's error in `yearErrors`.
   */
  lemma FailureReport(ticker: string, outs: seq<Outcome>)
    requires HasLows(outs)
    requires forall k :: 0 <= k < |outs| ==> outs[k].Failed?
    ensures var report := TickerReportOf(ticker, outs);
            report.years == [] && report.perYear == [] && report.freqDays == [] && report.bestDays == [] &&
            report.error == Message(NoYearFetched) &&
            report.yearErrors == Some(YearErrors(outs)) && |YearErrors(outs)| == |outs|
  {
    NoYearIffAllFailed(outs);
    EachYearOnce(outs);
  }

  /** `years` lists the years of the sorted `perYear`, in the same order. */
  lemma SortedYears(s: seq<YearLows>)
    ensures Project(SortBy(s, LaterFirst), YearOf) == SortBy(Project(s, YearOf), Descending)
  {
    ProjectSort(s, YearOf, LaterFirst, Descending);
  }

  /**
   * When some year succeeded: `perYear` holds exactly the successful years,
   * latest first; `years` lists their years in that same order; `error` is
   * `null` exactly when no attempt failed and otherwise the failed attempts;
   * there is no separate `yearErrors` field.
   */
  lemma SuccessReport(ticker: string, outs: seq<Outcome>)
    requires HasLows(outs)
    requires exists k :: 0 <= k < |outs| && outs[k].Lowered?
    ensures var report := TickerReportOf(ticker, outs);
            multiset(report.perYear) == multiset(PerYear(outs)) &&
            SortedBy(report.perYear, LaterFirst) &&
            report.years == Project(report.perYear, YearOf) &&
            (report.error == NoError <==> forall k :: 0 <= k < |outs| ==> outs[k].Lowered?) &&
            (report.error != NoError ==> report.error == Errors(YearErrors(outs))) &&
            report.yearErrors == None
  {
    NoYearIffAllFailed(outs);
    SortedYears(PerYear(outs));
  }

  /**
   * When some year succeeded the statistics are those of `allDays`, which
   * is not empty (see `Frequency.DayTable` and `Frequency.DayModes`).
   */
  lemma SuccessStatistics(ticker: string, outs: seq<Outcome>)
    requires HasLows(outs)
    requires exists k :: 0 <= k < |outs| && outs[k].Lowered?
    ensures var report := TickerReportOf(ticker, outs);
            var days := AllDays(PerYear(outs));
            days != [] && Counts(days) != map[] &&
            report.freqDays == FreqTable(Counts(days)) && report.bestDays == BestDays(Counts(days))
  {
    NoYearIffAllFailed(outs);
    PerYearHasLows(outs);
    AllDaysNonEmpty(PerYear(outs));
    CountsNonEmpty(AllDays(PerYear(outs)));
  }
}
