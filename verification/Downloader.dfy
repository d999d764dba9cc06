/** The cursor-driven pager of packages/market_data/datasets/downloader.py. */
module Downloader {
  import opened Wrappers
  import opened Json
  import opened Intervals

  // ---------------------------------------------------------------- one raw kline

  datatype Span = Span(open: int, close: int)

  datatype RowError = BadShape | BadTime | BadBoundary | KeyMismatch

  /** A validated open and exclusive close of one raw kline. */
  function KlineSpan(row: Json, interval: string): Result<Span, RowError> {
    if !row.Arr? || |row.items| != 12 then Err(BadShape)
    else if !row.items[0].Int? || !row.items[6].Int? then Err(BadTime)
    else match BoundaryAfter(row.items[0].value, interval)
      case Err(_) => Err(BadBoundary)
      case Ok(close) =>
        if row.items[6].value + 1 != close then Err(BadBoundary) else Ok(Span(row.items[0].value, close))
  }

  predicate ValidRow(row: Json, interval: string) { KlineSpan(row, interval).Ok? }

  function Open(row: Json, interval: string): int
    requires ValidRow(row, interval)
  {
    KlineSpan(row, interval).value.open
  }

  function Close(row: Json, interval: string): int
    requires ValidRow(row, interval)
  {
    KlineSpan(row, interval).value.close
  }

  /** A kline is valid exactly if it has twelve fields of which the first and the seventh are integers, and the seventh is the last
      millisecond before the boundary of the first; these are its span. */
  lemma ValidRowExactly(row: Json, interval: string)
    ensures ValidRow(row, interval) <==>
            && row.Arr? && |row.items| == 12 && row.items[0].Int? && row.items[6].Int?
            && BoundaryAfter(row.items[0].value, interval) == Ok(row.items[6].value + 1)
    ensures ValidRow(row, interval) ==> Open(row, interval) == row.items[0].value && Close(row, interval) == row.items[6].value + 1
  {
    hide BoundaryAfter;
  }

  lemma OpenField(row: Json, interval: string)
    requires ValidRow(row, interval)
    ensures row.Arr? && |row.items| == 12 && row.items[0] == Int(Open(row, interval))
  {
  }

  lemma RowAhead(row: Json, interval: string)
    requires ValidRow(row, interval)
    ensures Supported(interval) && 0 <= Open(row, interval)
    ensures Open(row, interval) + MinDuration(interval) <= Close(row, interval)
    ensures BoundaryAfter(Open(row, interval), interval) == Ok(Close(row, interval))
  {
    BoundaryAhead(Open(row, interval), interval);
  }

  lemma RowOrder(a: Json, b: Json, interval: string)
    requires ValidRow(a, interval) && ValidRow(b, interval)
    ensures Open(a, interval) < Open(b, interval) <==> Close(a, interval) < Close(b, interval)
  {
    hide Intervals.MinDuration;
    RowAhead(a, interval);
    RowAhead(b, interval);
    hide BoundaryAfter;
    hide KlineSpan;
    var x, y := Open(a, interval), Open(b, interval);
    if x < y {
      BoundaryMonotone(x, y, interval);
    } else if y < x {
      BoundaryMonotone(y, x, interval);
    }
  }

  // ---------------------------------------------------------------- request, server, history

  /** One symbol/interval slice of a request: the half-open range, the server time it was started at and the page size. */
  datatype Slice = Slice(interval: string, startMs: int, endMs: int, serverMs: int, pageLimit: nat)

  predicate ValidSlice(s: Slice) {
    Supported(s.interval) && 0 <= s.startMs && 1 <= s.pageLimit <= 1000
  }

  /** Fully closed within the range and by the server's clock. */
  predicate IsClosed(row: Json, s: Slice) {
    ValidRow(row, s.interval) && Close(row, s.interval) <= s.endMs && Close(row, s.interval) <= s.serverMs
  }

  datatype FailureKind = RequestFailed | MalformedResponse | NoUsableKlines | NoForwardProgress

  /** The answer to one klines request; the other parameters of the request never change while a slice is paged. */
  datatype Reply = Failed | NotJson | Body(value: Json)

  /** Answers by request number and `startTime`: nothing else is assumed of an arbitrary server. */
  type Server = (nat, int) -> Reply

  /** The klines endpoint; `calls` lists the `startTime` of every request sent to it. */
  class KlineEndpoint {
    const server: Server
    var calls: seq<int>

    constructor (server: Server)
      ensures this.server == server && calls == []
    {
      this.server, calls := server, [];
    }

    method Klines(startTime: int) returns (reply: Reply)
      modifies this
      ensures calls == old(calls) + [startTime] && reply == server(|old(calls)|, startTime)
    {
      reply := server(|calls|, startTime);
      calls := calls + [startTime];
    }

    /** The last request failed. */
    predicate LastFailed()
      reads this
    {
      calls != [] && server(|calls| - 1, calls[|calls| - 1]) == Failed
    }

    lemma NothingFailed()
      ensures NeverFails(server) ==> !LastFailed()
    {
      if NeverFails(server) && calls != [] { AnsweredAlways(server, |calls| - 1, calls[|calls| - 1]); }
    }
  }

  lemma AnsweredAlways(server: Server, n: nat, cursor: int)
    requires NeverFails(server)
    ensures server(n, cursor) != Failed
  {
  }

  /** Requests of one call: each starts behind the one before, all of them in the range. */
  predicate Rising(asked: seq<int>, lo: int, hi: int) {
    && (forall i :: 0 <= i < |asked| ==> lo <= asked[i] < hi)
    && (forall i, j :: 0 <= i < j < |asked| ==> asked[i] < asked[j])
  }

  /** A history lists valid klines in ascending order without overlap. */
  ghost predicate History(h: seq<Json>, interval: string) {
    && (forall i :: 0 <= i < |h| ==> ValidRow(h[i], interval))
    && (forall i, j :: 0 <= i < j < |h| ==> Close(h[i], interval) <= Open(h[j], interval))
  }

  /** The first `limit` klines of a history that open in `[lo, hi]`. */
  function FirstKlines(h: seq<Json>, interval: string, lo: int, hi: int, limit: nat): seq<Json>
    requires forall i :: 0 <= i < |h| ==> ValidRow(h[i], interval)
  {
    if h == [] || limit == 0 then []
    else if lo <= Open(h[0], interval) <= hi then [h[0]] + FirstKlines(h[1..], interval, lo, hi, limit - 1)
    else FirstKlines(h[1..], interval, lo, hi, limit)
  }

  /** An honest server answers from a history, if it answers. */
  ghost predicate HonestOrFailing(server: Server, h: seq<Json>, s: Slice)
    requires History(h, s.interval)
  {
    forall n, cursor :: server(n, cursor) == Failed
                     || server(n, cursor) == Body(Arr(FirstKlines(h, s.interval, cursor, s.endMs - 1, s.pageLimit)))
  }

  ghost predicate NeverFails(server: Server) {
    forall n, cursor :: server(n, cursor) != Failed
  }

  /** What the slice asks of a history: its closed klines that open at `lo` or later, by open time. */
  function Wanted(h: seq<Json>, s: Slice, lo: int): map<int, Json> {
    if h == [] then map[]
    else
      var last := h[|h| - 1];
      var earlier := Wanted(h[..|h| - 1], s, lo);
      if IsClosed(last, s) && lo <= Open(last, s.interval) then earlier[Open(last, s.interval) := last] else earlier
  }

  lemma {:induction false} WantedKeys(h: seq<Json>, s: Slice, lo: int)
    requires History(h, s.interval)
    ensures forall i :: 0 <= i < |h| && IsClosed(h[i], s) && lo <= Open(h[i], s.interval) ==>
              Open(h[i], s.interval) in Wanted(h, s, lo) && Wanted(h, s, lo)[Open(h[i], s.interval)] == h[i]
    ensures forall k :: k in Wanted(h, s, lo) ==>
              Wanted(h, s, lo)[k] in h && IsClosed(Wanted(h, s, lo)[k], s) && lo <= k == Open(Wanted(h, s, lo)[k], s.interval)
  {
    hide KlineSpan;
    if h != [] {
      var init, last := h[..|h| - 1], h[|h| - 1];
      assert h == init + [last];
      WantedKeys(init, s, lo);
      LastOpensLatest(h, s.interval);
      assert IsClosed(last, s) ==> ValidRow(last, s.interval);
      WantedStep(h, s, lo);
      hide IsClosed, Open, ValidRow, Wanted;
      assert forall row :: row in init ==> row in h;
    }
  }

  lemma WantedStep(h: seq<Json>, s: Slice, lo: int)
    requires h != []
    ensures var last, earlier := h[|h| - 1], Wanted(h[..|h| - 1], s, lo);
            Wanted(h, s, lo) == if IsClosed(last, s) && lo <= Open(last, s.interval) then earlier[Open(last, s.interval) := last] else earlier
  {
    hide KlineSpan;
  }

  lemma LastOpensLatest(h: seq<Json>, interval: string)
    requires h != [] && History(h, interval)
    ensures forall i :: 0 <= i < |h| - 1 ==> Open(h[i], interval) < Open(h[|h| - 1], interval)
  {
    hide KlineSpan;
    forall i | 0 <= i < |h| - 1 ensures Open(h[i], interval) < Open(h[|h| - 1], interval) {
      RowAhead(h[i], interval);
    }
  }

  /** Neither the page size nor the start of the slice matters once `lo` is given. */
  lemma {:induction false} WantedDependsOn(h: seq<Json>, s: Slice, t: Slice, lo: int)
    requires s.interval == t.interval && s.endMs == t.endMs && s.serverMs == t.serverMs
    ensures Wanted(h, s, lo) == Wanted(h, t, lo)
  {
    hide KlineSpan;
    if h != [] { WantedDependsOn(h[..|h| - 1], s, t, lo); }
  }

  // ---------------------------------------------------------------- one page

  predicate AllValid(rows: seq<Json>, interval: string) {
    forall i :: 0 <= i < |rows| ==> ValidRow(rows[i], interval)
  }

  function ClosedRows(rows: seq<Json>, s: Slice): seq<Json> {
    if rows == [] then []
    else ClosedRows(rows[..|rows| - 1], s) + if IsClosed(rows[|rows| - 1], s) then [rows[|rows| - 1]] else []
  }

  lemma {:induction false} ClosedRowsMembers(rows: seq<Json>, s: Slice)
    ensures forall row :: row in ClosedRows(rows, s) <==> row in rows && IsClosed(row, s)
    ensures |ClosedRows(rows, s)| <= |rows|
    ensures |ClosedRows(rows, s)| < |rows| ==> exists i :: 0 <= i < |rows| && !IsClosed(rows[i], s)
  {
    hide KlineSpan;
    hide IsClosed;
    if rows != [] {
      var init, last := rows[..|rows| - 1], rows[|rows| - 1];
      ClosedRowsMembers(init, s);
      assert rows == init + [last];
      if |ClosedRows(init, s)| < |init| {
        var i :| 0 <= i < |init| && !IsClosed(init[i], s);
        assert rows[i] == init[i];
      }
    }
  }

  method DecodeKlines(reply: Reply, s: Slice) returns (r: Result<seq<Json>, FailureKind>)
    requires reply != Failed
    ensures r.Ok? <==> reply.Body? && reply.value.Arr? && AllValid(reply.value.items, s.interval)
    ensures r.Ok? ==> r.value == ClosedRows(reply.value.items, s) && forall row :: row in r.value ==> IsClosed(row, s)
    ensures r.Err? ==> r.error == MalformedResponse
  {
    hide KlineSpan;
    if reply == NotJson || !reply.value.Arr? {
      return Err(MalformedResponse);
    }
    var payload := reply.value.items;
    var closed := [];
    for i := 0 to |payload|
      invariant forall j :: 0 <= j < i ==> ValidRow(payload[j], s.interval)
      invariant closed == ClosedRows(payload[..i], s)
    {
      assert payload[..i + 1][..i] == payload[..i];
      match KlineSpan(payload[i], s.interval)
      case Err(_) => return Err(MalformedResponse);
      case Ok(span) =>
        if span.close <= s.endMs && span.close <= s.serverMs {
          closed := closed + [payload[i]];
        }
    }
    assert payload[..|payload|] == payload;
    ClosedRowsMembers(payload, s);
    return Ok(closed);
  }

  /** Rows of a page from `cursor` on are added under their open time unless that time is taken. */
  function MergePage(rows: map<int, Json>, page: seq<Json>, interval: string, cursor: int): map<int, Json>
    requires AllValid(page, interval)
  {
    if page == [] then rows
    else
      var merged := MergePage(rows, page[..|page| - 1], interval, cursor);
      var k := Open(page[|page| - 1], interval);
      if k < cursor || k in merged then merged else merged[k := page[|page| - 1]]
  }

  function LatestOpen(page: seq<Json>, interval: string, cursor: int): Option<int>
    requires AllValid(page, interval)
  {
    if page == [] then None
    else
      var earlier := LatestOpen(page[..|page| - 1], interval, cursor);
      var k := Open(page[|page| - 1], interval);
      if k < cursor then earlier
      else if earlier.Some? && earlier.value >= k then earlier
      else Some(k)
  }

  lemma {:induction false} MergePageKeys(rows: map<int, Json>, page: seq<Json>, interval: string, cursor: int)
    requires AllValid(page, interval)
    ensures var m := MergePage(rows, page, interval, cursor);
            && (forall k :: k in rows ==> k in m && m[k] == rows[k])
            && (forall k :: k in m && k !in rows ==> k >= cursor && m[k] in page && Open(m[k], interval) == k)
            && (forall i :: 0 <= i < |page| && Open(page[i], interval) >= cursor ==> Open(page[i], interval) in m)
  {
    hide KlineSpan;
    if page != [] {
      var init := page[..|page| - 1];
      MergePageKeys(rows, init, interval, cursor);
      assert page == init + [page[|page| - 1]];
    }
  }

  lemma {:induction false} LatestOpenIsMaximum(page: seq<Json>, interval: string, cursor: int)
    requires AllValid(page, interval)
    ensures var latest := LatestOpen(page, interval, cursor);
            && (forall i :: 0 <= i < |page| && Open(page[i], interval) >= cursor ==> latest.Some? && Open(page[i], interval) <= latest.value)
            && (latest.Some? ==> latest.value >= cursor && exists i :: 0 <= i < |page| && Open(page[i], interval) == latest.value)
  {
    hide KlineSpan;
    if page != [] {
      var init := page[..|page| - 1];
      LatestOpenIsMaximum(init, interval, cursor);
      assert forall i :: 0 <= i < |init| ==> page[i] == init[i];
      var latest := LatestOpen(page, interval, cursor);
      if latest.Some? {
        if latest == LatestOpen(init, interval, cursor) {
          var i :| 0 <= i < |init| && Open(init[i], interval) == latest.value;
          assert Open(page[i], interval) == latest.value;
        } else {
          assert Open(page[|page| - 1], interval) == latest.value;
        }
      }
    }
  }

  // ---------------------------------------------------------------- an honest page

  lemma {:induction false} FirstKlinesFacts(h: seq<Json>, interval: string, lo: int, hi: int, limit: nat)
    requires History(h, interval)
    ensures var page := FirstKlines(h, interval, lo, hi, limit);
            && |page| <= limit
            && (forall row :: row in page ==> row in h && ValidRow(row, interval) && lo <= Open(row, interval) <= hi)
            && (forall i :: 0 <= i < |h| && lo <= Open(h[i], interval) <= hi && h[i] !in page ==>
                  |page| == limit && forall row :: row in page ==> Open(row, interval) < Open(h[i], interval))
  {
    hide KlineSpan;
    if h != [] && limit > 0 {
      var rest := h[1..];
      assert forall i :: 0 <= i < |rest| ==> rest[i] == h[i + 1];
      var next := if lo <= Open(h[0], interval) <= hi then limit - 1 else limit;
      FirstKlinesFacts(rest, interval, lo, hi, next);
      forall i | 0 < i < |h| ensures Open(h[0], interval) < Open(h[i], interval) && h[i] == rest[i - 1] {
        hide *;
        RowAhead(h[0], interval);
      }
    }
  }

  /** What one page of an honest server contributes, at cursor `cursor`. */
  lemma HonestPage(h: seq<Json>, s: Slice, lo: int, cursor: int)
    requires ValidSlice(s) && History(h, s.interval) && lo <= cursor
    ensures var page := FirstKlines(h, s.interval, cursor, s.endMs - 1, s.pageLimit);
            var payload := ClosedRows(page, s);
            var wanted := Wanted(h, s, lo);
            && AllValid(page, s.interval) && AllValid(payload, s.interval)
            && (forall row :: row in payload ==>
                  var k := Open(row, s.interval); k >= cursor && k in wanted && wanted[k] == row)
            && (|payload| < s.pageLimit ==> forall k :: k in wanted && k >= cursor ==> wanted[k] in payload)
            && (forall row, k :: row in payload && k in wanted && cursor <= k < Close(row, s.interval) ==> wanted[k] in payload)
  {
    hide KlineSpan;
    var page := FirstKlines(h, s.interval, cursor, s.endMs - 1, s.pageLimit);
    var wanted := Wanted(h, s, lo);
    FirstKlinesFacts(h, s.interval, cursor, s.endMs - 1, s.pageLimit);
    ClosedRowsMembers(page, s);
    WantedKeys(h, s, lo);
    var payload := ClosedRows(page, s);
    hide FirstKlines;
    hide ClosedRows;
    hide Wanted;
    forall row | row in payload
      ensures ValidRow(row, s.interval) && Open(row, s.interval) >= cursor
      ensures Open(row, s.interval) in wanted && wanted[Open(row, s.interval)] == row
    {
      var i :| 0 <= i < |h| && h[i] == row;
    }
    forall k | k in wanted && k >= cursor && wanted[k] !in page
      ensures |page| == s.pageLimit && forall row :: row in page ==> IsClosed(row, s) && Close(row, s.interval) <= k
    {
      BeyondPage(h, s, page, wanted[k], cursor);
    }
  }

  /** A wanted kline that did not fit on the page lies beyond all of it, and all of the page is closed. */
  lemma BeyondPage(h: seq<Json>, s: Slice, page: seq<Json>, wanted: Json, cursor: int)
    requires ValidSlice(s) && History(h, s.interval)
    requires wanted in h && IsClosed(wanted, s) && Open(wanted, s.interval) >= cursor && wanted !in page
    requires forall row :: row in page ==> row in h && ValidRow(row, s.interval)
    requires forall i :: 0 <= i < |h| && cursor <= Open(h[i], s.interval) <= s.endMs - 1 && h[i] !in page ==>
               |page| == s.pageLimit && forall row :: row in page ==> Open(row, s.interval) < Open(h[i], s.interval)
    ensures |page| == s.pageLimit
    ensures forall row :: row in page ==> IsClosed(row, s) && Close(row, s.interval) <= Open(wanted, s.interval)
  {
    hide KlineSpan;
    var j :| 0 <= j < |h| && h[j] == wanted;
    RowAhead(wanted, s.interval);
    assert Open(wanted, s.interval) <= s.endMs - 1;
    forall row | row in page ensures IsClosed(row, s) && Close(row, s.interval) <= Open(wanted, s.interval) {
      var i :| 0 <= i < |h| && h[i] == row;
      RowOrder(row, wanted, s.interval);
      if j <= i {
        if j < i { RowAhead(wanted, s.interval); }
        assert false;
      }
    }
  }

  // ---------------------------------------------------------------- the pager

  /** Existing rows are kept as they are, and every other row is a closed kline of the slice, under its open time. */
  ghost predicate Collected(s: Slice, existing: map<int, Json>, rows: map<int, Json>) {
    && (forall k :: k in existing ==> k in rows && rows[k] == existing[k])
    && (forall k :: k in rows && k !in existing ==>
          IsClosed(rows[k], s) && Open(rows[k], s.interval) == k && s.startMs <= k)
  }

  lemma MergeCollectable(s: Slice, existing: map<int, Json>, before: map<int, Json>, cursor: int, payload: seq<Json>)
    requires AllValid(payload, s.interval) && s.startMs <= cursor && Collected(s, existing, before)
    requires forall row :: row in payload ==> IsClosed(row, s)
    ensures Collected(s, existing, MergePage(before, payload, s.interval, cursor))
  {
    hide KlineSpan;
    hide IsClosed;
    MergePageKeys(before, payload, s.interval, cursor);
    hide MergePage;
  }

  /** The rows are the existing ones and the wanted ones below the cursor; existing rows win. */
  ghost predicate PagedUpTo(rows: map<int, Json>, existing: map<int, Json>, wanted: map<int, Json>, cursor: int) {
    && (forall k :: k in rows <==> k in existing || (k in wanted && k < cursor))
    && (forall k :: k in existing ==> rows[k] == existing[k])
    && (forall k :: k in rows && k !in existing ==> rows[k] == wanted[k])
  }

  /** One honest page carries the paging from `cursor` to `next`, the end of its latest kline; a short page completes it. */
  lemma HonestStep(h: seq<Json>, s: Slice, existing: map<int, Json>, before: map<int, Json>, cursor: int, payload: seq<Json>)
    requires ValidSlice(s) && History(h, s.interval) && s.startMs <= cursor
    requires PagedUpTo(before, existing, Wanted(h, s, s.startMs), cursor)
    requires payload == ClosedRows(FirstKlines(h, s.interval, cursor, s.endMs - 1, s.pageLimit), s)
    ensures AllValid(payload, s.interval)
    ensures var rows := MergePage(before, payload, s.interval, cursor);
            var latest := LatestOpen(payload, s.interval, cursor);
            && (|payload| < s.pageLimit ==> rows == Wanted(h, s, s.startMs) + existing)
            && (payload != [] ==> latest.Some?)
            && (latest.Some? && BoundaryAfter(latest.value, s.interval).Ok? ==>
                  PagedUpTo(rows, existing, Wanted(h, s, s.startMs), BoundaryAfter(latest.value, s.interval).value))
  {
    hide *;
    var wanted := Wanted(h, s, s.startMs);
    HonestPage(h, s, s.startMs, cursor);
    WantedKeys(h, s, s.startMs);
    WantedOpens(wanted, s);
    MergeHonest(wanted, existing, before, cursor, payload, s.interval);
    if |payload| < s.pageLimit {
      MergeComplete(wanted, existing, MergePage(before, payload, s.interval, cursor), cursor, payload);
    }
    LatestOpenIsMaximum(payload, s.interval, cursor);
    if payload != [] {
      assert payload[0] in payload;
      if BoundaryAfter(LatestOpen(payload, s.interval, cursor).value, s.interval).Ok? {
        MergeAdvances(wanted, existing, before, cursor, payload, s.interval);
      }
    }
  }

  lemma WantedOpens(wanted: map<int, Json>, s: Slice)
    requires forall k :: k in wanted ==> IsClosed(wanted[k], s) && k == Open(wanted[k], s.interval)
    ensures forall k :: k in wanted ==> ValidRow(wanted[k], s.interval)
  {
  }

  lemma MergeComplete(wanted: map<int, Json>, existing: map<int, Json>, rows: map<int, Json>, cursor: int, payload: seq<Json>)
    requires forall k :: k in rows <==> k in existing || (k in wanted && (k < cursor || wanted[k] in payload))
    requires forall k :: k in existing ==> rows[k] == existing[k]
    requires forall k :: k in rows && k !in existing ==> rows[k] == wanted[k]
    requires forall k :: k in wanted && k >= cursor ==> wanted[k] in payload
    ensures rows == wanted + existing
  {
    assert forall k :: k in rows <==> k in wanted + existing;
    assert forall k :: k in rows ==> rows[k] == (wanted + existing)[k];
  }

  lemma MergeAdvances(wanted: map<int, Json>, existing: map<int, Json>, before: map<int, Json>, cursor: int, payload: seq<Json>, interval: string)
    requires AllValid(payload, interval) && PagedUpTo(before, existing, wanted, cursor) && payload != []
    requires forall k :: k in wanted ==> ValidRow(wanted[k], interval) && Open(wanted[k], interval) == k
    requires forall row :: row in payload ==> var k := Open(row, interval); k >= cursor && k in wanted && wanted[k] == row
    requires forall row, k :: row in payload && k in wanted && cursor <= k < Close(row, interval) ==> wanted[k] in payload
    requires LatestOpen(payload, interval, cursor).Some? && BoundaryAfter(LatestOpen(payload, interval, cursor).value, interval).Ok?
    ensures PagedUpTo(MergePage(before, payload, interval, cursor), existing, wanted,
              BoundaryAfter(LatestOpen(payload, interval, cursor).value, interval).value)
  {
    hide KlineSpan;
    hide BoundaryAfter;
    hide MergePage;
    LatestOpenIsMaximum(payload, interval, cursor);
    var latest := LatestOpen(payload, interval, cursor);
    hide LatestOpen;
    MergeHonest(wanted, existing, before, cursor, payload, interval);
    var i :| 0 <= i < |payload| && Open(payload[i], interval) == latest.value;
    RowAhead(payload[i], interval);
    forall row | row in payload ensures cursor <= Open(row, interval) < Close(payload[i], interval) {
      var j :| 0 <= j < |payload| && payload[j] == row;
    }
    forall k | k in wanted && wanted[k] in payload ensures cursor <= k < Close(payload[i], interval) {
      assert Open(wanted[k], interval) == k;
    }
    assert cursor <= Close(payload[i], interval);
  }

  lemma MergeNothing(rows: map<int, Json>, interval: string, cursor: int)
    ensures MergePage(rows, [], interval, cursor) == rows
  {
  }

  lemma CollectedInitially(s: Slice, existing: map<int, Json>)
    ensures Collected(s, existing, existing)
  {
  }

  lemma PagedInitially(existing: map<int, Json>, wanted: map<int, Json>, cursor: int)
    requires forall k :: k in wanted ==> cursor <= k
    ensures PagedUpTo(existing, existing, wanted, cursor)
  {
  }

  /** Merging rows that are all wanted and not below the cursor adds exactly them. */
  lemma MergeHonest(wanted: map<int, Json>, existing: map<int, Json>, before: map<int, Json>, cursor: int, payload: seq<Json>, interval: string)
    requires AllValid(payload, interval) && PagedUpTo(before, existing, wanted, cursor)
    requires forall k :: k in wanted ==> ValidRow(wanted[k], interval) && Open(wanted[k], interval) == k
    requires forall row :: row in payload ==> var k := Open(row, interval); k >= cursor && k in wanted && wanted[k] == row
    ensures var rows := MergePage(before, payload, interval, cursor);
            && (forall k :: k in rows <==> k in existing || (k in wanted && (k < cursor || wanted[k] in payload)))
            && (forall k :: k in existing ==> rows[k] == existing[k])
            && (forall k :: k in rows && k !in existing ==> rows[k] == wanted[k])
  {
    hide KlineSpan;
    MergePageKeys(before, payload, interval, cursor);
    hide MergePage;
    forall k | k in wanted && wanted[k] in payload ensures k in MergePage(before, payload, interval, cursor) {
      var i :| 0 <= i < |payload| && payload[i] == wanted[k];
    }
  }

  method MergeRows(before: map<int, Json>, payload: seq<Json>, interval: string, cursor: int)
    returns (rows: map<int, Json>, latest: Option<int>)
    requires AllValid(payload, interval)
    ensures rows == MergePage(before, payload, interval, cursor)
    ensures latest == LatestOpen(payload, interval, cursor)
  {
    hide KlineSpan;
    rows, latest := before, None;
    for i := 0 to |payload|
      invariant latest == LatestOpen(payload[..i], interval, cursor)
      invariant rows == MergePage(before, payload[..i], interval, cursor)
    {
      assert payload[..i + 1][..i] == payload[..i];
      OpenField(payload[i], interval);
      var k := payload[i].items[0].value;
      if k < cursor {
        continue;
      }
      latest := if latest == None || latest.value < k then Some(k) else latest;
      if k !in rows {
        rows := rows[k := payload[i]];
      }
    }
    assert payload[..|payload|] == payload;
  }

  /** Pages one slice, from `s.startMs`, into a copy of the existing rows.
      Whatever the server answers: existing rows are never replaced, added rows are closed klines of the slice, there are at
      most as many requests as interval durations fit into the range (rounded up), and forward progress never fails.
      If the server answers from a history, the rows added are exactly those the slice asks of it, for every page size. */
  method DownloadOne(s: Slice, existing: map<int, Json>, endpoint: KlineEndpoint, ghost h: seq<Json>)
    returns (r: Result<map<int, Json>, FailureKind>, ghost asked: seq<int>)
    requires ValidSlice(s)
    modifies endpoint
    ensures endpoint.calls == old(endpoint.calls) + asked && Rising(asked, s.startMs, s.endMs)
    ensures r.Ok? ==> Collected(s, existing, r.value)
    ensures asked != [] ==> (|asked| - 1) * MinDuration(s.interval) < s.endMs - s.startMs
    ensures r != Err(NoForwardProgress)
    ensures r == Err(RequestFailed) <==> endpoint.LastFailed() && asked != []
    ensures History(h, s.interval) && HonestOrFailing(endpoint.server, h, s) && r.Ok? ==> r.value == Wanted(h, s, s.startMs) + existing
    ensures History(h, s.interval) && HonestOrFailing(endpoint.server, h, s) && r.Err? ==> r.error == RequestFailed
  {
    hide KlineSpan, BoundaryAfter, Intervals.Supported, Intervals.MinDuration;
    hide Wanted, FirstKlines, ClosedRows, MergePage, LatestOpen, PagedUpTo, Collected, History, FixedDuration, AllValid, IsClosed;
    var rows := existing;
    CollectedInitially(s, existing);
    var cursor := s.startMs;
    asked := [];
    ghost var honest := History(h, s.interval) && HonestOrFailing(endpoint.server, h, s);
    ghost var wanted := Wanted(h, s, s.startMs);
    if honest {
      WantedKeys(h, s, s.startMs);
      PagedInitially(existing, wanted, cursor);
    }
    while cursor < s.endMs
      invariant s.startMs <= cursor
      invariant endpoint.calls == old(endpoint.calls) + asked && Rising(asked, s.startMs, cursor) && Rising(asked, s.startMs, s.endMs)
      invariant asked != [] ==> !endpoint.LastFailed()
      invariant |asked| * MinDuration(s.interval) <= cursor - s.startMs
      invariant asked != [] ==> (|asked| - 1) * MinDuration(s.interval) < s.endMs - s.startMs
      invariant Collected(s, existing, rows)
      invariant honest ==> PagedUpTo(rows, existing, wanted, cursor)
      decreases s.endMs - cursor
    {
      var reply := endpoint.Klines(cursor);
      asked := asked + [cursor];
      if reply == Failed {
        return Err(RequestFailed), asked;
      }
      var decoded := DecodeKlines(reply, s);
      if honest { HonestPageValid(h, s, cursor); }
      if decoded.Err? {
        return Err(decoded.error), asked;
      }
      var payload := decoded.value;
      if payload == [] {
        if honest {
          HonestStep(h, s, existing, rows, cursor, payload);
          MergeNothing(rows, s.interval, cursor);
        }
        return Ok(rows), asked;
      }
      ClosedAreValid(payload, s);
      ghost var before := rows;
      var latest;
      rows, latest := MergeRows(rows, payload, s.interval, cursor);
      if honest { HonestStep(h, s, existing, before, cursor, payload); }
      MergeCollectable(s, existing, before, cursor, payload);
      NextCursor(payload, s, cursor);
      if latest == None {
        return Err(NoUsableKlines), asked;
      }
      var next := BoundaryAfter(latest.value, s.interval).value;
      if next <= cursor {
        return Err(NoForwardProgress), asked;
      }
      RequestCount(|asked| - 1, MinDuration(s.interval), cursor - s.startMs, next - s.startMs);
      cursor := next;
      if |payload| < s.pageLimit {
        return Ok(rows), asked;
      }
    }
    if honest { PagedToEnd(h, s, existing, rows, cursor); }
    return Ok(rows), asked;
  }

  /** The end of the latest kline of a page is the next cursor. */
  lemma NextCursor(payload: seq<Json>, s: Slice, cursor: int)
    requires AllValid(payload, s.interval) && forall row :: row in payload ==> IsClosed(row, s)
    ensures var latest := LatestOpen(payload, s.interval, cursor);
            latest.Some? ==>
              && BoundaryAfter(latest.value, s.interval).Ok? && Supported(s.interval)
              && cursor + MinDuration(s.interval) <= BoundaryAfter(latest.value, s.interval).value <= s.endMs
  {
    hide KlineSpan, BoundaryAfter, Intervals.Supported, Intervals.MinDuration, LatestOpen;
    LatestOpenIsMaximum(payload, s.interval, cursor);
    var latest := LatestOpen(payload, s.interval, cursor);
    if latest.Some? {
      var top :| 0 <= top < |payload| && Open(payload[top], s.interval) == latest.value;
      assert payload[top] in payload;
      RowAhead(payload[top], s.interval);
    }
  }

  lemma ClosedAreValid(rows: seq<Json>, s: Slice)
    requires forall row :: row in rows ==> IsClosed(row, s)
    ensures AllValid(rows, s.interval)
  {
    hide KlineSpan;
    assert forall i :: 0 <= i < |rows| ==> rows[i] in rows;
  }

  lemma HonestPageValid(h: seq<Json>, s: Slice, cursor: int)
    requires ValidSlice(s) && History(h, s.interval) && s.startMs <= cursor
    ensures AllValid(FirstKlines(h, s.interval, cursor, s.endMs - 1, s.pageLimit), s.interval)
  {
    hide *;
    HonestPage(h, s, s.startMs, cursor);
  }

  lemma RequestCount(n: int, d: int, a: int, b: int)
    requires n * d <= a && a + d <= b
    ensures (n + 1) * d <= b
  {
  }

  lemma PagedToEnd(h: seq<Json>, s: Slice, existing: map<int, Json>, rows: map<int, Json>, cursor: int)
    requires ValidSlice(s) && History(h, s.interval) && cursor >= s.endMs
    requires PagedUpTo(rows, existing, Wanted(h, s, s.startMs), cursor)
    ensures rows == Wanted(h, s, s.startMs) + existing
  {
    hide KlineSpan;
    var wanted := Wanted(h, s, s.startMs);
    WantedKeys(h, s, s.startMs);
    hide Wanted;
    forall k | k in wanted ensures k < cursor {
      RowAhead(wanted[k], s.interval);
    }
    MergeComplete(wanted, existing, rows, cursor, []);
  }
}
