/**
 * Low extraction for one (ticker, year): the loop that keeps the rows whose
 * close is present and whose UTC date lies in the target year and month,
 * then the four lowest closes among them, ascending.
 */
module Lows {
  import opened Common
  import opened Calendar
  import opened Sorting

  /** A kept row: the decoded UTC date of its timestamp and its close. */
  datatype Row = Row(date: UtcDate, close: int)

  /** One entry of a year's `lows`: `{ date, price }`. */
  datatype Low = Low(date: UtcDate, price: int)

  /** The largest magnitude of a JavaScript time value, in milliseconds. */
  const MaxTimeMs: int := 8640000000000000

  /** `new Date(ts * 1000)` read through the UTC getters; `None` for an Invalid Date. */
  function DecodeTimestamp(ts: int): (d: Option<UtcDate>)
    ensures d.Some? ==> ValidDate(d.value)
  {
    var ms := ts * 1000;
    if -MaxTimeMs <= ms <= MaxTimeMs then Some(UtcDateOf(ms)) else None
  }

  /** The decoded timestamps of a series, index by index. */
  function DecodedDates(timestamps: seq<int>): (dates: seq<Option<UtcDate>>)
    ensures |dates| == |timestamps|
    ensures forall i :: 0 <= i < |timestamps| ==> dates[i] == DecodeTimestamp(timestamps[i])
  {
    seq(|timestamps|, i requires 0 <= i < |timestamps| => DecodeTimestamp(timestamps[i]))
  }

  /** `closes[i]`, where an index past the end reads `undefined`. */
  function CloseAt(closes: seq<Option<int>>, i: nat): Option<int> {
    if i < |closes| then closes[i] else None
  }

  /** The row the loop keeps for index `i`, given the decoded date of each timestamp. */
  function RowAt(dates: seq<Option<UtcDate>>, closes: seq<Option<int>>, i: nat, year: int, month: int): (r: Option<Row>)
    requires i < |dates|
    ensures r.Some? ==> r.value.date.year == year && r.value.date.month == month
    ensures r.Some? ==> CloseAt(closes, i) == Some(r.value.close) && dates[i] == Some(r.value.date)
  {
    match CloseAt(closes, i)
    case None => None
    case Some(price) =>
      match dates[i]
      case None => None
      case Some(d) => if d.year == year && d.month == month then Some(Row(d, price)) else None
  }

  /** The rows kept from the first `n` entries, in index order. */
  function KeptRows(dates: seq<Option<UtcDate>>, closes: seq<Option<int>>, year: int, month: int, n: nat): (rows: seq<Row>)
    requires n <= |dates|
    ensures |rows| <= n
    ensures forall r :: r in rows ==> r.date.year == year && r.date.month == month
  {
    if n == 0 then []
    else
      var prev := KeptRows(dates, closes, year, month, n - 1);
      var r := RowAt(dates, closes, n - 1, year, month);
      if r.Some? then prev + [r.value] else prev
  }

  /** A row is kept exactly when some index in range yields it. */
  lemma {:induction false} KeptRowsMembers(dates: seq<Option<UtcDate>>, closes: seq<Option<int>>, year: int, month: int, n: nat)
    requires n <= |dates|
    ensures forall r :: r in KeptRows(dates, closes, year, month, n) <==>
                        exists i :: 0 <= i < n && RowAt(dates, closes, i, year, month) == Some(r)
    ensures |KeptRows(dates, closes, year, month, n)| <= n
  {
    if n > 0 {
      KeptRowsMembers(dates, closes, year, month, n - 1);
    }
  }

  /**
   * Every kept row comes from an index whose close is present and whose
   * timestamp decodes to a valid UTC date in the target year and month.
   */
  lemma KeptRowsInMonth(timestamps: seq<int>, closes: seq<Option<int>>, year: int, month: int)
    ensures forall r :: r in KeptRows(DecodedDates(timestamps), closes, year, month, |timestamps|) ==>
                        ValidDate(r.date) && r.date.year == year && r.date.month == month &&
                        exists i :: 0 <= i < |timestamps| && CloseAt(closes, i) == Some(r.close) &&
                                    DecodeTimestamp(timestamps[i]) == Some(r.date)
  {
    var dates := DecodedDates(timestamps);
    KeptRowsMembers(dates, closes, year, month, |timestamps|);
    forall r | r in KeptRows(dates, closes, year, month, |timestamps|)
      ensures ValidDate(r.date)
    {
      var i :| 0 <= i < |timestamps| && RowAt(dates, closes, i, year, month) == Some(r);
      assert DecodeTimestamp(timestamps[i]) == Some(r.date);
    }
  }

  /**
   * The filter drops nothing else: every index whose close is present and
   * whose timestamp decodes to a date in the target year and month yields a
   * kept row.
   */
  lemma KeptRowsComplete(timestamps: seq<int>, closes: seq<Option<int>>, year: int, month: int,
                         i: nat, d: UtcDate, p: int)
    requires i < |timestamps|
    requires CloseAt(closes, i) == Some(p) && DecodeTimestamp(timestamps[i]) == Some(d)
    requires d.year == year && d.month == month
    ensures Row(d, p) in KeptRows(DecodedDates(timestamps), closes, year, month, |timestamps|)
  {
    var dates := DecodedDates(timestamps);
    KeptRowsMembers(dates, closes, year, month, |timestamps|);
    assert RowAt(dates, closes, i, year, month) == Some(Row(d, p));
  }

  /** The filtering loop: skip missing closes, keep the rows of the target month. */
  method CollectRows(timestamps: seq<int>, closes: seq<Option<int>>, year: int, month: int)
    returns (rows: seq<Row>)
    ensures rows == KeptRows(DecodedDates(timestamps), closes, year, month, |timestamps|)
  {
    ghost var dates := DecodedDates(timestamps);
    rows := [];
    var i := 0;
    while i < |timestamps|
      invariant 0 <= i <= |timestamps|
      invariant rows == KeptRows(dates, closes, year, month, i)
    {
      var row := RowFor(timestamps, closes, i, year, month);
      if row.Some? {
        rows := rows + [row.value];
      }
      i := i + 1;
    }
  }

  /** One pass of the filtering loop: the row index `i` contributes, if any. */
  method RowFor(timestamps: seq<int>, closes: seq<Option<int>>, i: nat, year: int, month: int)
    returns (row: Option<Row>)
    requires i < |timestamps|
    ensures row == RowAt(DecodedDates(timestamps), closes, i, year, month)
  {
    var price := CloseAt(closes, i);
    row := None;
    if price.Some? {
      var d := DecodeTimestamp(timestamps[i]);
      if d.Some? && d.value.year == year && d.value.month == month {
        row := Some(Row(d.value, price.value));
      }
    }
  }

  function Close(r: Row): int {
    r.close
  }

  function Min(a: int, b: int): int {
    if a < b then a else b
  }

  /** `rows.sort((a, b) => a.close - b.close).slice(0, 4)`. */
  function LowestFour(rows: seq<Row>): (sel: seq<Row>)
    ensures |sel| == Min(4, |rows|)
  {
    var sorted := SortBy(rows, Close);
    if |sorted| <= 4 then sorted else sorted[..4]
  }

  /**
   * The selection holds the four smallest closes (all rows when fewer),
   * ascending, drawn from the rows, and every row left out closes at or
   * above the largest selected close.
   */
  lemma LowestFourAreSmallest(rows: seq<Row>)
    ensures var sel := LowestFour(rows);
            |sel| == Min(4, |rows|) &&
            SortedBy(sel, Close) &&
            multiset(sel) <= multiset(rows) &&
            forall r :: r in multiset(rows) - multiset(sel) ==> sel[|sel| - 1].close <= r.close
  {
    if rows != [] {
      var s := SortBy(rows, Close);
      var k := Min(4, |rows|);
      if |s| <= 4 {
        assert s[..k] == s;
      }
      SortedPrefix(rows, s, LowestFour(rows), k);
    }
  }

  /** A prefix of the rows sorted by close is ascending, drawn from the rows, and no row outside it closes lower. */
  lemma SortedPrefix(rows: seq<Row>, s: seq<Row>, sel: seq<Row>, k: nat)
    requires SortedBy(s, Close) && multiset(s) == multiset(rows)
    requires 0 < k <= |s| && sel == s[..k]
    ensures SortedBy(sel, Close) && multiset(sel) <= multiset(rows)
    ensures forall r :: r in multiset(rows) - multiset(sel) ==> sel[|sel| - 1].close <= r.close
  {
    SortedPrefixSmallest(s, Close, k);
    PrefixRest(rows, s, sel, k);
  }

  lemma PrefixRest(rows: seq<Row>, s: seq<Row>, sel: seq<Row>, k: nat)
    requires multiset(s) == multiset(rows)
    requires 0 < k <= |s| && sel == s[..k]
    requires multiset(s) - multiset(s[..k]) == multiset(s[k..])
    requires forall x :: x in multiset(s[k..]) ==> Close(s[k - 1]) <= Close(x)
    ensures forall r :: r in multiset(rows) - multiset(sel) ==> sel[|sel| - 1].close <= r.close
  {
    forall r | r in multiset(rows) - multiset(sel) ensures sel[|sel| - 1].close <= r.close {
      assert r in multiset(s[k..]);
    }
  }



  /** A row whose low is not among the selected lows closes at or above the last (largest) of them. */
  lemma LeftOutClosesHigher(rows: seq<Row>, r: Row)
    requires r in rows
    requires Low(r.date, r.close) !in ToLows(LowestFour(rows))
    ensures var lows := ToLows(LowestFour(rows));
            lows != [] && lows[|lows| - 1].price <= r.close
  {
    var sel := LowestFour(rows);
    LowestFourAreSmallest(rows);
    assert r !in sel;
    assert r in multiset(rows) - multiset(sel);
  }

  /**
   * Read back on the reply's series: every index the filter accepts either
   * has its low among the selected lows or closes at or above the last of them.
   */
  lemma LeftOutIndicesCloseHigher(timestamps: seq<int>, closes: seq<Option<int>>, year: int, month: int)
    ensures var lows := ToLows(LowestFour(KeptRows(DecodedDates(timestamps), closes, year, month, |timestamps|)));
            forall i, d, p :: 0 <= i < |timestamps| && CloseAt(closes, i) == Some(p) &&
                              DecodeTimestamp(timestamps[i]) == Some(d) && d.year == year && d.month == month &&
                              Low(d, p) !in lows ==>
                              lows != [] && lows[|lows| - 1].price <= p
  {
    var rows := KeptRows(DecodedDates(timestamps), closes, year, month, |timestamps|);
    var lows := ToLows(LowestFour(rows));
    forall i, d, p | 0 <= i < |timestamps| && CloseAt(closes, i) == Some(p) &&
                     DecodeTimestamp(timestamps[i]) == Some(d) && d.year == year && d.month == month &&
                     Low(d, p) !in lows
      ensures lows != [] && lows[|lows| - 1].price <= p
    {
      KeptRowsComplete(timestamps, closes, year, month, i, d, p);
      LeftOutClosesHigher(rows, Row(d, p));
    }
  }

  /** Every selected row is one of the rows. */
  lemma LowestFourMembers(rows: seq<Row>)
    ensures forall i :: 0 <= i < |LowestFour(rows)| ==> LowestFour(rows)[i] in rows
  {
    var s := SortBy(rows, Close);
    forall i | 0 <= i < |LowestFour(rows)| ensures LowestFour(rows)[i] in rows {
      assert LowestFour(rows)[i] == s[i];
      assert s[i] in multiset(s);
    }
  }

  /** `sorted.map(r => ({ date, price: r.close }))`. */
  function ToLows(sel: seq<Row>): (lows: seq<Low>)
    ensures |lows| == |sel|
    ensures forall i :: 0 <= i < |sel| ==> lows[i] == Low(sel[i].date, sel[i].close)
  {
    if sel == [] then [] else [Low(sel[0].date, sel[0].close)] + ToLows(sel[1..])
  }

  /** The days of month the selection contributes to `allDays`, in selection order. */
  function DaysOf(lows: seq<Low>): (days: seq<int>)
    ensures |days| == |lows|
    ensures forall i :: 0 <= i < |lows| ==> days[i] == lows[i].date.day
  {
    if lows == [] then [] else [lows[0].date.day] + DaysOf(lows[1..])
  }
}
