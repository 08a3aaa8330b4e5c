/**
 * The request handler: method and field checks, month parsing, the ticker
 * list, and for each ticker the loop over the ten years, each attempt
 * making one chart request and ending with exactly one entry in `perYear`
 * or `yearErrors` and exactly one pause.
 *
 * The vendor is a parameter: `vendor(n, q)` is the reply to the `n`-th
 * request of the handler call, made with query `q`. The requests made and
 * the pauses taken are recorded in ghost outputs.
 */
module Handler {
  import opened Common
  import opened Text
  import opened Months
  import opened Calendar
  import opened Window
  import opened Sorting
  import opened Lows
  import opened Frequency
  import opened Vendor
  import opened Report

  /** The JSON body: its `tickers` and `month` fields, each possibly missing. */
  datatype RequestBody = RequestBody(tickers: Option<string>, month: Option<MonthInput>)

  /** The request: its HTTP method and its body (`None` when `req.body` is missing). */
  datatype Request = Request(httpMethod: string, body: Option<RequestBody>)

  /** A rejection with its status and `error`, or the 200 answer `{ month, monthNum, results }`. */
  datatype Response = Rejected(status: int, error: string)
                    | Analysis(month: MonthInput, monthNum: Month, results: seq<TickerReport>)

  const MethodNotAllowed: string := "M\U{E9}thode non autoris\U{E9}e"
  const FieldsRequired: string := "tickers et month sont requis"

  /** Trims each piece and drops the empty ones: `.map((t) => t.trim()).filter(Boolean)`. */
  function TrimmedNonEmpty(pieces: seq<string>): (kept: seq<string>)
    ensures |kept| <= |pieces|
    ensures forall t :: t in kept ==> t != []
  {
    if pieces == [] then []
    else
      var t := Trim(pieces[0]);
      var rest := TrimmedNonEmpty(pieces[1..]);
      if t != [] then [t] + rest else rest
  }

  /** `tickers.split(",").map((t) => t.trim()).filter(Boolean)`. */
  function TickerList(tickers: string): (list: seq<string>)
    ensures forall t :: t in list ==> t != []
  {
    TrimmedNonEmpty(SplitComma(tickers))
  }

  /** Each piece trimmed: `.map((t) => t.trim())`. */
  function TrimEach(pieces: seq<string>): (r: seq<string>)
    ensures |r| == |pieces|
    ensures forall k :: 0 <= k < |pieces| ==> r[k] == Trim(pieces[k])
  {
    seq(|pieces|, k requires 0 <= k < |pieces| => Trim(pieces[k]))
  }

  /** The kept pieces are exactly the non-empty trims of the pieces. */
  lemma {:induction false} TrimmedNonEmptyMembers(pieces: seq<string>)
    ensures forall t :: t in TrimmedNonEmpty(pieces) <==> t != [] && t in TrimEach(pieces)
    ensures |TrimmedNonEmpty(pieces)| <= |pieces|
  {
    if pieces != [] {
      TrimmedNonEmptyMembers(pieces[1..]);
      assert TrimEach(pieces) == [Trim(pieces[0])] + TrimEach(pieces[1..]);
    }
  }

  /**
   * Every ticker is non-empty, has no whitespace at either end and no comma,
   * and is the trim of one comma-separated piece of the field; every piece
   * that trims to something non-empty is a ticker.
   */
  lemma TickerListEntries(tickers: string)
    ensures forall t :: t in TickerList(tickers) <==> t != [] && t in TrimEach(SplitComma(tickers))
    ensures forall t :: t in TickerList(tickers) ==>
                        t != [] && !IsWhitespace(t[0]) && !IsWhitespace(t[|t| - 1]) && ',' !in t
  {
    TrimmedNonEmptyMembers(SplitComma(tickers));
    TrimmedNonEmptyShape(SplitComma(tickers));
  }

  /** Pieces without commas leave tickers without commas and without whitespace at their ends. */
  lemma TrimmedNonEmptyShape(pieces: seq<string>)
    requires forall k :: 0 <= k < |pieces| ==> ',' !in pieces[k]
    ensures forall t :: t in TrimmedNonEmpty(pieces) ==>
                        t != [] && !IsWhitespace(t[0]) && !IsWhitespace(t[|t| - 1]) && ',' !in t
  {
    TrimmedNonEmptyMembers(pieces);
    forall t | t in TrimmedNonEmpty(pieces)
      ensures t != [] && !IsWhitespace(t[0]) && !IsWhitespace(t[|t| - 1]) && ',' !in t
    {
      var k :| 0 <= k < |pieces| && TrimEach(pieces)[k] == t;
      TrimmedPiece(pieces[k]);
    }
  }

  /** The non-empty trim of a piece without commas has no comma and no whitespace at its ends. */
  lemma TrimmedPiece(piece: string)
    requires ',' !in piece && Trim(piece) != []
    ensures var t := Trim(piece);
            !IsWhitespace(t[0]) && !IsWhitespace(t[|t| - 1]) && ',' !in t
  {
    var t := Trim(piece);
    TrimIsSlice(piece);
    var i, j :| 0 <= i <= j <= |piece| && t == piece[i..j];
    assert forall c :: c in t ==> c in piece;
  }

  /** One ticker's report, its years being requests `start` onwards. */
  function TickerAnalysis(ticker: string, years: seq<int>, month: Month, today: Today,
                          vendor: (nat, Query) -> Reply, start: nat): TickerReport
  {
    OutcomesHaveLows(ticker, years, month, today, vendor, start);
    TickerReportOf(ticker, Outcomes(ticker, years, month, today, vendor, start))
  }

  /** The reports of the analysis, the `i`-th ticker's years being requests `10 * i` to `10 * i + 9`. */
  function AnalysisOf(tickers: seq<string>, years: seq<int>, month: Month, today: Today,
                      vendor: (nat, Query) -> Reply): (results: seq<TickerReport>)
    ensures |results| == |tickers|
  {
    seq(|tickers|, i requires 0 <= i < |tickers| => TickerAnalysis(tickers[i], years, month, today, vendor, 10 * i))
  }

  /** `tickers` and `month` of `req.body || {}` are both present and truthy. */
  predicate HasFields(request: Request) {
    request.body.Some? &&
    request.body.value.tickers.Some? && request.body.value.tickers.value != [] &&
    request.body.value.month.Some? && !IsFalsy(request.body.value.month.value)
  }

  /** The response the handler sends for `request` at instant `todayMs`. */
  function ResponseOf(request: Request, todayMs: int, vendor: (nat, Query) -> Reply): (r: Response)
    ensures r.Rejected? <==>
            request.httpMethod != "POST" || !HasFields(request) || ParseMonth(request.body.value.month.value).Err?
    ensures r.Rejected? ==> r.status in {400, 405}
    ensures r.Analysis? ==> HasFields(request) && r.month == request.body.value.month.value &&
                            ParseMonth(r.month) == Ok(r.monthNum) &&
                            |r.results| == |TickerList(request.body.value.tickers.value)|
  {
    if request.httpMethod != "POST" then Rejected(405, MethodNotAllowed)
    else if !HasFields(request) then Rejected(400, FieldsRequired)
    else
      var body := request.body.value;
      match ParseMonth(body.month.value)
      case Err(message) => Rejected(400, message)
      case Ok(month) =>
        var today := TodayOf(todayMs);
        var years := PickYearsForLast10(month, today);
        Analysis(body.month.value, month, AnalysisOf(TickerList(body.tickers.value), years, month, today, vendor))
  }

  /**
   * The three refusals: 405 exactly for a method other than POST; 400 with
   * "tickers et month sont requis" for a POST missing a field; 400 with the
   * parser's message for a month that does not parse. Every other request
   * is answered with the analysis.
   */
  lemma Rejections(request: Request, todayMs: int, vendor: (nat, Query) -> Reply)
    ensures ResponseOf(request, todayMs, vendor).Rejected? && ResponseOf(request, todayMs, vendor).status == 405
            <==> request.httpMethod != "POST"
    ensures request.httpMethod == "POST" && !HasFields(request) ==>
            ResponseOf(request, todayMs, vendor) == Rejected(400, FieldsRequired)
    ensures request.httpMethod == "POST" && HasFields(request) && ParseMonth(request.body.value.month.value).Err? ==>
            ResponseOf(request, todayMs, vendor) == Rejected(400, ParseMonth(request.body.value.month.value).message)
    ensures ResponseOf(request, todayMs, vendor).Analysis? <==>
            request.httpMethod == "POST" && HasFields(request) && ParseMonth(request.body.value.month.value).Ok?
  {
  }

  /**
   * The analysis answers with the month as sent, the month it parses to,
   * and one report per listed ticker, in list order.
   */
  lemma AnalysisReports(request: Request, todayMs: int, vendor: (nat, Query) -> Reply)
    requires ResponseOf(request, todayMs, vendor).Analysis?
    ensures var response := ResponseOf(request, todayMs, vendor);
            var tickers := TickerList(request.body.value.tickers.value);
            response.month == request.body.value.month.value &&
            ParseMonth(response.month) == Ok(response.monthNum) &&
            |response.results| == |tickers| &&
            forall i :: 0 <= i < |tickers| ==> response.results[i].ticker == tickers[i]
  {
  }

  /**
   * One year's attempt from the vendor's reply: the reply checks, the row
   * filter, then the four lowest closes. Every exit pauses once before it
   * leaves, whichever way the year ends.
   */
  method AttemptYear(year: int, month: Month, reply: Reply) returns (outcome: Outcome, ghost paused: nat)
    ensures outcome == YearOutcome(year, month, reply)
    ensures paused == 1
  {
    paused := 0;
    var read := ReadReply(reply);
    if read.Err? {
      paused := paused + 1;
      return Failed(YearError(year, read.message)), paused;
    }
    var rows := CollectRows(read.value.timestamps, read.value.closes, year, month);
    if rows == [] {
      paused := paused + 1;
      return Failed(YearError(year, NoRowInMonth)), paused;
    }
    outcome := Lowered(YearLows(year, ToLows(LowestFour(rows))));
    paused := paused + 1;
  }

  /**
   * The year loop for one ticker: request each year's window in turn, put
   * the attempt into `perYear` or `yearErrors`, and pause once per year.
   */
  method AttemptYears(ticker: string, years: seq<int>, month: Month, today: Today,
                      vendor: (nat, Query) -> Reply, start: nat)
    returns (perYear: seq<YearLows>, allDays: seq<int>, yearErrors: seq<YearError>,
             ghost queries: seq<Query>, ghost pauses: nat)
    ensures queries == YearQueries(ticker, years, month, today)
    ensures pauses == |years|
    ensures perYear == PerYear(Outcomes(ticker, years, month, today, vendor, start))
    ensures yearErrors == YearErrors(Outcomes(ticker, years, month, today, vendor, start))
    ensures allDays == AllDays(perYear)
  {
    ghost var outs := Outcomes(ticker, years, month, today, vendor, start);
    ghost var all := YearQueries(ticker, years, month, today);
    perYear, allDays, yearErrors := [], [], [];
    queries, pauses := [], 0;
    for k := 0 to |years|
      invariant pauses == k
      invariant queries == all[..k]
      invariant perYear == PerYear(outs[..k]) && yearErrors == YearErrors(outs[..k])
      invariant allDays == AllDays(perYear)
    {
      var query, outcome, paused := AttemptNext(ticker, years, month, today, vendor, start, k);
      TakeOneMore(all, k);
      TakeOneMore(outs, k);
      queries := queries + [query];
      perYear, allDays, yearErrors := RecordOutcome(outcome, perYear, allDays, yearErrors, outs[..k]);
      pauses := pauses + paused;
    }
    assert all[..|years|] == all && outs[..|years|] == outs;
  }

  /** The request for year `k` and its attempt, the request being call number `start + k`. */
  method AttemptNext(ticker: string, years: seq<int>, month: Month, today: Today,
                     vendor: (nat, Query) -> Reply, start: nat, k: nat)
    returns (query: Query, outcome: Outcome, ghost paused: nat)
    requires k < |years|
    ensures query == YearQueries(ticker, years, month, today)[k]
    ensures outcome == Outcomes(ticker, years, month, today, vendor, start)[k]
    ensures paused == 1
  {
    query := YearQuery(ticker, years[k], month, today);
    outcome, paused := AttemptYear(years[k], month, vendor(start + k, query));
    OutcomeAt(ticker, years, month, today, vendor, start, k);
  }

  /** The `k`-th attempt is the outcome of the `k`-th year's reply to its own query. */
  lemma OutcomeAt(ticker: string, years: seq<int>, month: Month, today: Today,
                  vendor: (nat, Query) -> Reply, start: nat, k: nat)
    requires k < |years|
    ensures Outcomes(ticker, years, month, today, vendor, start)[k] ==
            YearOutcome(years[k], month, vendor(start + k, YearQuery(ticker, years[k], month, today)))
  {
  }

  /** Puts one attempt into `yearErrors`, or into `perYear` with its days appended to `allDays`. */
  method RecordOutcome(outcome: Outcome, perYear: seq<YearLows>, allDays: seq<int>, yearErrors: seq<YearError>,
                       ghost done: seq<Outcome>)
    returns (perYear': seq<YearLows>, allDays': seq<int>, yearErrors': seq<YearError>)
    requires perYear == PerYear(done) && yearErrors == YearErrors(done) && allDays == AllDays(perYear)
    ensures perYear' == PerYear(done + [outcome]) && yearErrors' == YearErrors(done + [outcome])
    ensures allDays' == AllDays(perYear')
  {
    ListsAppend(done, outcome);
    perYear', allDays', yearErrors' := perYear, allDays, yearErrors;
    if outcome.Failed? {
      yearErrors' := yearErrors + [outcome.failure];
    } else {
      AllDaysStep(perYear, outcome.entry);
      allDays' := allDays + DaysOf(outcome.entry.lows);
      perYear' := perYear + [outcome.entry];
    }
  }

  /** The report object: the failure report, or the statistics of `allDays` with both year lists sorted latest first. */
  method AssembleReport(ticker: string, perYear: seq<YearLows>, allDays: seq<int>, yearErrors: seq<YearError>)
    returns (report: TickerReport)
    requires AllHaveLows(perYear) && allDays == AllDays(perYear)
    ensures report == ReportFrom(ticker, perYear, yearErrors)
  {
    if |perYear| == 0 {
      return TickerReport(ticker, [], [], [], [], Message(NoYearFetched), Some(yearErrors));
    }
    AllDaysNonEmpty(perYear);
    CountsNonEmpty(allDays);
    var counts := CountDays(allDays);
    report := TickerReport(ticker, SortBy(Project(perYear, YearOf), Descending), SortBy(perYear, LaterFirst),
                           FreqTable(counts), BestDays(counts),
                           if |yearErrors| > 0 then Errors(yearErrors) else NoError, None);
  }

  /** One ticker: its ten attempts, then its report. */
  method AnalyzeTicker(ticker: string, years: seq<int>, month: Month, today: Today,
                       vendor: (nat, Query) -> Reply, start: nat)
    returns (report: TickerReport, ghost queries: seq<Query>, ghost pauses: nat)
    ensures queries == YearQueries(ticker, years, month, today)
    ensures pauses == |years|
    ensures report == TickerAnalysis(ticker, years, month, today, vendor, start)
  {
    OutcomesHaveLows(ticker, years, month, today, vendor, start);
    PerYearHasLows(Outcomes(ticker, years, month, today, vendor, start));
    var perYear, allDays, yearErrors;
    perYear, allDays, yearErrors, queries, pauses := AttemptYears(ticker, years, month, today, vendor, start);
    report := AssembleReport(ticker, perYear, allDays, yearErrors);
  }

  /** The requests for one ticker: one per year, in order. */
  function YearQueries(ticker: string, years: seq<int>, month: Month, today: Today): (queries: seq<Query>)
    ensures |queries| == |years|
    ensures forall k :: 0 <= k < |years| ==> queries[k] == YearQuery(ticker, years[k], month, today)
  {
    seq(|years|, k requires 0 <= k < |years| => YearQuery(ticker, years[k], month, today))
  }

  /** The requests for every ticker, ticker after ticker. */
  function AllQueries(tickers: seq<string>, years: seq<int>, month: Month, today: Today): seq<Query> {
    if tickers == [] then []
    else AllQueries(tickers[..|tickers| - 1], years, month, today) + YearQueries(tickers[|tickers| - 1], years, month, today)
  }

  /** With ten years, request `10 * i + k` is the `k`-th year of the `i`-th ticker. */
  lemma {:induction false} AllQueriesAt(tickers: seq<string>, years: seq<int>, month: Month, today: Today)
    requires |years| == 10
    ensures |AllQueries(tickers, years, month, today)| == 10 * |tickers|
    ensures forall i, k :: 0 <= i < |tickers| && 0 <= k < 10 ==>
              AllQueries(tickers, years, month, today)[10 * i + k] == YearQuery(tickers[i], years[k], month, today)
  {
    if tickers != [] {
      var n := |tickers| - 1;
      AllQueriesAt(tickers[..n], years, month, today);
      var prefix := AllQueries(tickers[..n], years, month, today);
      var last := YearQueries(tickers[n], years, month, today);
      var queries := AllQueries(tickers, years, month, today);
      assert queries == prefix + last;
      forall i, k | 0 <= i < |tickers| && 0 <= k < 10
        ensures queries[10 * i + k] == YearQuery(tickers[i], years[k], month, today)
      {
        if i < n {
          assert 10 * i + k < 10 * n;
          assert queries[10 * i + k] == prefix[10 * i + k];
          assert tickers[..n][i] == tickers[i];
        } else {
          assert 10 * i + k == |prefix| + k;
          assert queries[10 * i + k] == last[k];
        }
      }
    }
  }

  /** Analysing one more ticker appends its requests. */
  lemma AllQueriesStep(tickers: seq<string>, years: seq<int>, month: Month, today: Today, i: nat)
    requires i < |tickers|
    ensures AllQueries(tickers[..i + 1], years, month, today) ==
            AllQueries(tickers[..i], years, month, today) + YearQueries(tickers[i], years, month, today)
  {
    assert tickers[..i + 1][..i] == tickers[..i];
  }

  /** Every ticker in turn, the `i`-th one's years being requests `10 * i` to `10 * i + 9`. */
  method AnalyzeAll(tickers: seq<string>, years: seq<int>, month: Month, today: Today,
                    vendor: (nat, Query) -> Reply)
    returns (results: seq<TickerReport>, ghost queries: seq<Query>, ghost pauses: nat)
    requires |years| == 10
    ensures results == AnalysisOf(tickers, years, month, today, vendor)
    ensures queries == AllQueries(tickers, years, month, today)
    ensures pauses == 10 * |tickers|
  {
    results, queries, pauses := [], [], 0;
    for i := 0 to |tickers|
      invariant pauses == 10 * i
      invariant results == AnalysisOf(tickers, years, month, today, vendor)[..i]
      invariant queries == AllQueries(tickers[..i], years, month, today)
    {
      results, queries, pauses := AnalyzeNext(tickers, years, month, today, vendor, i, results, queries, pauses);
    }
    assert tickers[..|tickers|] == tickers;
    assert AnalysisOf(tickers, years, month, today, vendor)[..|tickers|] == AnalysisOf(tickers, years, month, today, vendor);
  }

  /** One pass of the ticker loop: analyse ticker `i` and append its report, requests and pauses. */
  method AnalyzeNext(tickers: seq<string>, years: seq<int>, month: Month, today: Today,
                     vendor: (nat, Query) -> Reply, i: nat,
                     results: seq<TickerReport>, ghost queries: seq<Query>, ghost pauses: nat)
    returns (results': seq<TickerReport>, ghost queries': seq<Query>, ghost pauses': nat)
    requires |years| == 10 && i < |tickers|
    requires results == AnalysisOf(tickers, years, month, today, vendor)[..i]
    requires queries == AllQueries(tickers[..i], years, month, today)
    requires pauses == 10 * i
    ensures results' == AnalysisOf(tickers, years, month, today, vendor)[..i + 1]
    ensures queries' == AllQueries(tickers[..i + 1], years, month, today)
    ensures pauses' == 10 * (i + 1)
  {
    ghost var reports := AnalysisOf(tickers, years, month, today, vendor);
    var report, tickerQueries, tickerPauses := AnalyzeTicker(tickers[i], years, month, today, vendor, 10 * i);
    TakeOneMore(reports, i);
    AllQueriesStep(tickers, years, month, today, i);
    results' := results + [report];
    queries' := queries + tickerQueries;
    pauses' := pauses + tickerPauses;
  }


  /**
   * The handler: reject anything but POST, a body without both fields, and
   * a month that does not parse; otherwise analyse every ticker.
   */
  method Handle(request: Request, todayMs: int, vendor: (nat, Query) -> Reply)
    returns (response: Response, ghost queries: seq<Query>, ghost pauses: nat)
    ensures response == ResponseOf(request, todayMs, vendor)
    ensures response.Rejected? ==> queries == [] && pauses == 0
    ensures response.Analysis? ==>
              var tickers := TickerList(request.body.value.tickers.value);
              var today := TodayOf(todayMs);
              var years := PickYearsForLast10(response.monthNum, today);
              |queries| == 10 * |tickers| && pauses == |queries| &&
              forall i, k :: 0 <= i < |tickers| && 0 <= k < 10 ==>
                queries[10 * i + k] == YearQuery(tickers[i], years[k], response.monthNum, today)
  {
    queries, pauses := [], 0;
    if request.httpMethod != "POST" {
      return Rejected(405, MethodNotAllowed), queries, pauses;
    }
    if !HasFields(request) {
      return Rejected(400, FieldsRequired), queries, pauses;
    }
    var body := request.body.value;
    var parsed := ParseMonth(body.month.value);
    if parsed.Err? {
      return Rejected(400, parsed.message), queries, pauses;
    }
    var month := parsed.value;
    var today := TodayOf(todayMs);
    var years := PickYearsForLast10(month, today);
    var tickers := TickerList(body.tickers.value);
    var results;
    results, queries, pauses := AnalyzeAll(tickers, years, month, today, vendor);
    AllQueriesAt(tickers, years, month, today);
    response := Analysis(body.month.value, month, results);
  }
}
