/**
 * What the market-data vendor can answer for one chart query, and how the
 * handler reads that answer: a thrown `fetch`, an HTTP status outside
 * 200..299, a body that is not JSON, a chart with an error or without a
 * result, a result without timestamps or closes, or a usable series.
 *
 * The network itself is not modelled: the handler receives the vendor as a
 * function from (call number, query) to reply.
 */
module Vendor {
  import opened Common
  import opened Text
  import opened Window

  /** The ticker and the `period1`/`period2` window of one chart request (`interval=1d`). */
  datatype Query = Query(ticker: string, bounds: Bounds)

  /** `chart.error`: its `description`, when present. */
  datatype VendorError = VendorError(description: Option<string>)

  /**
   * One element of `chart.result`: `timestamp` and
   * `indicators.quote[0].close`, each absent when any step of its path is
   * missing. A `null` close is `None`.
   */
  datatype ChartResult = ChartResult(timestamp: Option<seq<int>>, close: Option<seq<Option<int>>>)

  datatype Chart = Chart(result: seq<ChartResult>, error: Option<VendorError>)

  /** The body read by `resp.json()`: a value whose `chart` may be missing, or a parse failure. */
  datatype Payload = Json(chart: Option<Chart>) | NotJson(message: string, rendered: string)

  /**
   * The outcome of `fetch`: a rejection (its `message` and its `String(e)`
   * rendering), or a response with its status and body.
   */
  datatype Reply = Thrown(message: string, rendered: string) | Response(status: int, body: Payload)

  /** The daily series of a usable reply: timestamps in seconds and the close at each index. */
  datatype Series = Series(timestamps: seq<int>, closes: seq<Option<int>>)

  const EmptyReply: string := "r\U{E9}ponse Yahoo vide"
  const NoData: string := "pas de donn\U{E9}es dans chart"

  /** `e?.message || String(e)`. */
  function ThrownText(message: string, rendered: string): string {
    if message != [] then message else rendered
  }

  /** `resp.ok`. */
  predicate StatusOk(status: int) {
    200 <= status <= 299
  }

  /** `error?.description || "réponse Yahoo vide"`. */
  function ChartErrorText(error: Option<VendorError>): (text: string)
    ensures text != []
  {
    if error.Some? && error.value.description.Some? && error.value.description.value != [] then
      error.value.description.value
    else EmptyReply
  }

  /** `json?.chart?.result?.[0]`. */
  function FirstResult(body: Option<Chart>): Option<ChartResult> {
    if body.Some? && |body.value.result| > 0 then Some(body.value.result[0]) else None
  }

  /** `json?.chart?.error`. */
  function ChartError(body: Option<Chart>): Option<VendorError> {
    if body.Some? then body.value.error else None
  }

  function OrEmpty<T>(o: Option<seq<T>>): seq<T> {
    if o.Some? then o.value else []
  }

  /** The checks the handler makes on a reply before filtering rows, with the message each failure records. */
  function ReadReply(reply: Reply): (r: Result<Series>)
    ensures r.Ok? ==> reply.Response? && StatusOk(reply.status) && reply.body.Json?
    ensures r.Ok? ==> r.value.timestamps != [] && r.value.closes != []
  {
    match reply
    case Thrown(message, rendered) => Err(ThrownText(message, rendered))
    case Response(status, body) =>
      if !StatusOk(status) then Err("HTTP " + DecimalString(status))
      else
        match body
        case NotJson(message, rendered) => Err(ThrownText(message, rendered))
        case Json(chart) =>
          var result := FirstResult(chart);
          var error := ChartError(chart);
          if result.None? || error.Some? then Err(ChartErrorText(error))
          else
            var timestamps := OrEmpty(result.value.timestamp);
            var closes := OrEmpty(result.value.close);
            if timestamps == [] || closes == [] then Err(NoData)
            else Ok(Series(timestamps, closes))
  }

  /**
   * A reply is usable exactly when the request succeeded with a 2xx status,
   * the body is JSON with a first chart result and no chart error, and that
   * result has non-empty timestamps and closes; the series is then that
   * result's arrays.
   */
  lemma UsableReply(reply: Reply)
    ensures ReadReply(reply).Ok? <==>
            reply.Response? && StatusOk(reply.status) && reply.body.Json? &&
            FirstResult(reply.body.chart).Some? && ChartError(reply.body.chart).None? &&
            OrEmpty(FirstResult(reply.body.chart).value.timestamp) != [] &&
            OrEmpty(FirstResult(reply.body.chart).value.close) != []
    ensures ReadReply(reply).Ok? ==>
            var result := FirstResult(reply.body.chart).value;
            ReadReply(reply).value == Series(result.timestamp.value, result.close.value)
  {
  }

  /** A status outside 200..299 is recorded as `HTTP <status>`, whatever the body. */
  lemma HttpStatusMessage(status: int, body: Payload)
    requires !StatusOk(status)
    ensures ReadReply(Response(status, body)) == Err("HTTP " + DecimalString(status))
  {
  }

  /** A chart error wins over a present result, and its description is recorded when it has one. */
  lemma ChartErrorMessage(status: int, chart: Chart)
    requires StatusOk(status)
    requires chart.error.Some?
    ensures ReadReply(Response(status, Json(Some(chart)))) == Err(ChartErrorText(chart.error))
    ensures chart.error.value.description.Some? && chart.error.value.description.value != [] ==>
            ReadReply(Response(status, Json(Some(chart)))) == Err(chart.error.value.description.value)
  {
  }

  /** A body without a chart, or a chart with no result and no error, is an empty reply. */
  lemma EmptyReplyMessage(status: int, chart: Option<Chart>)
    requires StatusOk(status)
    requires chart.None? || (chart.value.result == [] && chart.value.error.None?)
    ensures ReadReply(Response(status, Json(chart))) == Err(EmptyReply)
  {
  }

  /** A first result missing its timestamps or its closes has no data. */
  lemma NoDataMessage(status: int, result: ChartResult, more: seq<ChartResult>)
    requires StatusOk(status)
    requires OrEmpty(result.timestamp) == [] || OrEmpty(result.close) == []
    ensures ReadReply(Response(status, Json(Some(Chart([result] + more, None))))) == Err(NoData)
  {
  }
}
