/** `get_closed_klines` of packages/market_data/adapters/binance_rest.py: a second paginator over the same endpoint. Its cursor
    is the last accepted open plus one, and it stops on the length of the raw page. */
module RestPager {
  import opened Wrappers
  import opened Json
  import opened Downloader
  import Dataset

  datatype RestError = InvalidArgument | RequestError

  predicate RawRow(row: Json) {
    row.Arr? && |row.items| >= 7 && row.items[0].Int? && row.items[6].Int?
  }

  predicate AllRaw(rows: seq<Json>) { forall i :: 0 <= i < |rows| ==> RawRow(rows[i]) }

  /** Rows of a page whose raw inclusive close lies inside the range. */
  function ClosedBy(rows: seq<Json>, endMs: int): seq<Json>
    requires AllRaw(rows)
  {
    if rows == [] then []
    else
      var last := rows[|rows| - 1];
      ClosedBy(rows[..|rows| - 1], endMs) + if last.items[6].value + 1 <= endMs then [last] else []
  }

  function LastOpen(rows: seq<Json>): Option<int>
    requires AllRaw(rows)
  {
    if rows == [] then None else Some(rows[|rows| - 1].items[0].value)
  }

  method CollectClosed(rows: seq<Json>, endMs: int) returns (ok: bool, kept: seq<Json>, latest: Option<int>)
    ensures ok <==> AllRaw(rows)
    ensures ok ==> kept == ClosedBy(rows, endMs) && AllRaw(kept) && latest == LastOpen(kept)
  {
    ok, kept, latest := true, [], None;
    for i := 0 to |rows|
      invariant AllRaw(rows[..i]) && kept == ClosedBy(rows[..i], endMs)
      invariant AllRaw(kept) && latest == LastOpen(kept)
    {
      assert rows[..i + 1][..i] == rows[..i];
      var row := rows[i];
      if !row.Arr? || |row.items| < 7 || !row.items[0].Int? || !row.items[6].Int? {
        return false, kept, latest;
      }
      if row.items[6].value + 1 > endMs {
        continue;
      }
      kept := kept + [row];
      latest := Some(row.items[0].value);
    }
    assert rows[..|rows|] == rows;
  }

  // ---------------------------------------------------------------- the specification

  predicate Ends(row: Json, interval: string, endMs: int)
    requires ValidRow(row, interval)
  {
    Close(row, interval) <= endMs
  }

  /** The klines of a history that open in `[lo, hi)` and end by `endMs`, in order. */
  function Accepted(h: seq<Json>, interval: string, endMs: int, lo: int, hi: int): seq<Json>
    requires AllValid(h, interval)
  {
    if h == [] then []
    else
      (if lo <= Open(h[0], interval) < hi && Ends(h[0], interval, endMs) then [h[0]] else []) + Accepted(h[1..], interval, endMs, lo, hi)
  }

  lemma {:induction false} AcceptedMembers(h: seq<Json>, interval: string, endMs: int, lo: int, hi: int)
    requires AllValid(h, interval)
    ensures forall row :: row in Accepted(h, interval, endMs, lo, hi) <==>
              row in h && ValidRow(row, interval) && lo <= Open(row, interval) < hi && Ends(row, interval, endMs)
  {
    hide KlineSpan;
    if h != [] {
      AcceptedMembers(h[1..], interval, endMs, lo, hi);
      assert h == [h[0]] + h[1..];
    }
  }

  /** Ranges that accept the same rows give the same list. */
  lemma {:induction false} AcceptedDependsOn(h: seq<Json>, interval: string, endMs: int, lo: int, hi: int, lo': int, hi': int)
    requires AllValid(h, interval)
    requires forall row :: row in h && Ends(row, interval, endMs) ==>
               (lo <= Open(row, interval) < hi <==> lo' <= Open(row, interval) < hi')
    ensures Accepted(h, interval, endMs, lo, hi) == Accepted(h, interval, endMs, lo', hi')
  {
    hide KlineSpan;
    if h != [] {
      assert h[0] in h;
      AcceptedDependsOn(h[1..], interval, endMs, lo, hi, lo', hi');
    }
  }

  lemma LaterOpens(h: seq<Json>, interval: string)
    requires History(h, interval) && h != []
    ensures History(h[1..], interval)
    ensures forall row :: row in h[1..] ==> ValidRow(row, interval) && Open(h[0], interval) < Open(row, interval)
    ensures forall row :: row in h[1..] ==> Close(h[0], interval) < Close(row, interval)
  {
    hide KlineSpan;
    forall row | row in h[1..] ensures Open(h[0], interval) < Open(row, interval) && Close(h[0], interval) < Close(row, interval) {
      var i :| 0 < i < |h| && h[i] == row;
      RowAhead(h[0], interval);
      RowAhead(row, interval);
    }
  }

  lemma BehindMid(h: seq<Json>, interval: string, endMs: int, lo: int, mid: int, hi: int)
    requires History(h, interval) && lo <= mid <= hi && h != [] && Open(h[0], interval) >= mid
    ensures Accepted(h, interval, endMs, lo, mid) == []
    ensures Accepted(h, interval, endMs, mid, hi) == Accepted(h, interval, endMs, lo, hi)
  {
    hide KlineSpan, Accepted;
    LaterOpens(h, interval);
    assert h == [h[0]] + h[1..];
    assert forall row :: row in h ==> ValidRow(row, interval) && Open(row, interval) >= mid;
    hide Open, Ends, History;
    AcceptedDependsOn(h, interval, endMs, lo, mid, mid, mid);
    NothingAccepted(h, interval, endMs, mid);
    AcceptedDependsOn(h, interval, endMs, mid, hi, lo, hi);
  }

  /** Adjacent ranges of an ordered history concatenate. */
  lemma {:induction false} AcceptedSplit(h: seq<Json>, interval: string, endMs: int, lo: int, mid: int, hi: int)
    requires History(h, interval) && lo <= mid <= hi
    ensures Accepted(h, interval, endMs, lo, mid) + Accepted(h, interval, endMs, mid, hi) == Accepted(h, interval, endMs, lo, hi)
  {
    hide KlineSpan, Accepted, Open, Ends;
    if h == [] {
      NothingAccepted(h, interval, endMs, lo);
      AcceptedDependsOn(h, interval, endMs, lo, mid, lo, lo);
      AcceptedDependsOn(h, interval, endMs, mid, hi, lo, lo);
      AcceptedDependsOn(h, interval, endMs, lo, hi, lo, lo);
    } else if Open(h[0], interval) >= mid {
      BehindMid(h, interval, endMs, lo, mid, hi);
    } else {
      LaterOpens(h, interval);
      AcceptedSplit(h[1..], interval, endMs, lo, mid, hi);
      AcceptedHead(h, interval, endMs, lo, mid);
      AcceptedHead(h, interval, endMs, mid, hi);
      AcceptedHead(h, interval, endMs, lo, hi);
      var p, q := Accepted(h[1..], interval, endMs, lo, mid), Accepted(h[1..], interval, endMs, mid, hi);
      assert ([h[0]] + p) + q == [h[0]] + (p + q);
    }
  }

  lemma {:induction false} NothingAccepted(h: seq<Json>, interval: string, endMs: int, at: int)
    requires AllValid(h, interval)
    ensures Accepted(h, interval, endMs, at, at) == []
  {
    hide KlineSpan;
    if h != [] { NothingAccepted(h[1..], interval, endMs, at); }
  }

  lemma PageRows(h: seq<Json>, interval: string, lo: int, hi: int, limit: nat)
    requires History(h, interval)
    ensures var page := FirstKlines(h, interval, lo, hi, limit);
            && |page| <= limit && AllValid(page, interval) && AllRaw(page)
            && (forall row :: row in page ==> row in h && ValidRow(row, interval) && lo <= Open(row, interval) <= hi)
  {
    hide KlineSpan, RawRow;
    FirstKlinesFacts(h, interval, lo, hi, limit);
    hide FirstKlines;
    var page := FirstKlines(h, interval, lo, hi, limit);
    forall i | 0 <= i < |page| ensures ValidRow(page[i], interval) && RawRow(page[i]) {
      assert page[i] in page;
      RawWhenValid(page[i], interval);
    }
  }

  /** The range that a page covers: all of it, or up to its last open if the page is full. */
  function CoveredTo(page: seq<Json>, interval: string, endMs: int, limit: nat): int
    requires AllValid(page, interval)
  {
    if |page| < limit || page == [] then endMs else Open(page[|page| - 1], interval) + 1
  }

  lemma PageHead(h: seq<Json>, interval: string, lo: int, hi: int, limit: nat)
    requires AllValid(h, interval) && h != [] && limit > 0
    ensures FirstKlines(h, interval, lo, hi, limit) ==
              if lo <= Open(h[0], interval) <= hi then [h[0]] + FirstKlines(h[1..], interval, lo, hi, limit - 1)
              else FirstKlines(h[1..], interval, lo, hi, limit)
  {
    hide KlineSpan;
  }

  lemma AcceptedHead(h: seq<Json>, interval: string, endMs: int, lo: int, hi: int)
    requires AllValid(h, interval) && h != []
    ensures AllValid(h[1..], interval)
    ensures Accepted(h, interval, endMs, lo, hi) ==
              (if lo <= Open(h[0], interval) < hi && Ends(h[0], interval, endMs) then [h[0]] else [])
              + Accepted(h[1..], interval, endMs, lo, hi)
  {
    hide KlineSpan;
  }

  /** The range covered by a page that starts with `head`, in terms of the rest of the page. */
  lemma CoveredByRest(head: Json, rest: seq<Json>, interval: string, endMs: int, limit: nat)
    requires AllValid([head] + rest, interval) && limit > 1
    ensures AllValid(rest, interval)
    ensures CoveredTo([head] + rest, interval, endMs, limit) == CoveredTo(rest, interval, endMs, limit - 1)
  {
    hide KlineSpan;
    var page := [head] + rest;
    assert forall i :: 0 <= i < |rest| ==> rest[i] == page[i + 1];
  }

  /** What an honest page keeps: everything wanted in the range that it covers. */
  lemma {:induction false} HonestPageKeeps(h: seq<Json>, interval: string, endMs: int, lo: int, limit: nat)
    requires History(h, interval) && limit > 0
    ensures var page := FirstKlines(h, interval, lo, endMs - 1, limit);
            && AllValid(page, interval) && AllRaw(page)
            && ClosedBy(page, endMs) == Accepted(h, interval, endMs, lo, CoveredTo(page, interval, endMs, limit))
    decreases |h|, limit, 1
  {
    hide KlineSpan, RawRow;
    PageRows(h, interval, lo, endMs - 1, limit);
    if h == [] {
      assert Accepted(h, interval, endMs, lo, endMs) == [];
    } else {
      LaterOpens(h, interval);
      PageHead(h, interval, lo, endMs - 1, limit);
      if lo <= Open(h[0], interval) <= endMs - 1 {
        KeepHead(h, interval, endMs, lo, limit);
      } else {
        HonestPageKeeps(h[1..], interval, endMs, lo, limit);
        var page := FirstKlines(h, interval, lo, endMs - 1, limit);
        if page != [] { assert page[|page| - 1] in page; }
        hide FirstKlines, ClosedBy;
        AcceptedHead(h, interval, endMs, lo, CoveredTo(page, interval, endMs, limit));
      }
    }
  }

  lemma HeadKept(row: Json, interval: string, endMs: int)
    requires ValidRow(row, interval)
    ensures RawRow(row) && (row.items[6].value + 1 <= endMs <==> Ends(row, interval, endMs))
  {
    RawWhenValid(row, interval);
  }

  lemma {:induction false} KeepHead(h: seq<Json>, interval: string, endMs: int, lo: int, limit: nat)
    requires History(h, interval) && limit > 0 && h != [] && lo <= Open(h[0], interval) <= endMs - 1
    ensures var page := FirstKlines(h, interval, lo, endMs - 1, limit);
            && AllValid(page, interval) && AllRaw(page)
            && ClosedBy(page, endMs) == Accepted(h, interval, endMs, lo, CoveredTo(page, interval, endMs, limit))
    decreases |h|, limit, 0
  {
    hide KlineSpan, FirstKlines, ClosedBy, Accepted, CoveredTo;
    var tail, head := h[1..], h[0];
    LaterOpens(h, interval);
    PageRows(h, interval, lo, endMs - 1, limit);
    PageRows(tail, interval, lo, endMs - 1, limit - 1);
    PageHead(h, interval, lo, endMs - 1, limit);
    var rest := FirstKlines(tail, interval, lo, endMs - 1, limit - 1);
    AcceptedHead(h, interval, endMs, lo, CoveredTo([head] + rest, interval, endMs, limit));
    if limit > 1 {
      HonestPageKeeps(tail, interval, endMs, lo, limit - 1);
    } else {
      assert rest == [];
    }
    hide History;
    KeepRest(head, rest, tail, interval, endMs, lo, limit);
  }

  lemma KeepRest(head: Json, rest: seq<Json>, tail: seq<Json>, interval: string, endMs: int, lo: int, limit: nat)
    requires ValidRow(head, interval) && lo <= Open(head, interval) <= endMs - 1 && limit > 0
    requires AllValid(tail, interval) && AllValid([head] + rest, interval) && AllValid(rest, interval)
    requires AllRaw(rest) && AllRaw([head] + rest)
    requires forall row :: row in rest ==> ValidRow(row, interval) && Open(head, interval) < Open(row, interval)
    requires forall row :: row in tail ==> ValidRow(row, interval) && Open(head, interval) < Open(row, interval)
    requires limit == 1 ==> rest == []
    requires limit > 1 ==> ClosedBy(rest, endMs) == Accepted(tail, interval, endMs, lo, CoveredTo(rest, interval, endMs, limit - 1))
    ensures var hi := CoveredTo([head] + rest, interval, endMs, limit);
            ClosedBy([head] + rest, endMs) ==
              (if lo <= Open(head, interval) < hi && Ends(head, interval, endMs) then [head] else []) + Accepted(tail, interval, endMs, lo, hi)
  {
    hide KlineSpan, FirstKlines, ClosedBy, Accepted, CoveredTo;
    HeadKept(head, interval, endMs);
    ClosedByCons(head, rest, endMs);
    CoversHead(head, rest, interval, endMs, limit);
    if limit > 1 {
      CoveredByRest(head, rest, interval, endMs, limit);
    } else {
      OneRowPage(tail, interval, endMs, lo, Open(head, interval) + 1);
    }
  }

  lemma ClosedByCons(head: Json, rest: seq<Json>, endMs: int)
    requires AllRaw([head] + rest) && AllRaw(rest) && RawRow(head)
    ensures ClosedBy([head] + rest, endMs) == (if head.items[6].value + 1 <= endMs then [head] else []) + ClosedBy(rest, endMs)
  {
    hide ClosedBy;
    assert ([head] + rest)[1..] == rest;
    ClosedByFirst([head] + rest, endMs);
  }

  lemma CoversHead(head: Json, rest: seq<Json>, interval: string, endMs: int, limit: nat)
    requires AllValid([head] + rest, interval) && ValidRow(head, interval) && Open(head, interval) <= endMs - 1
    requires forall row :: row in rest ==> ValidRow(row, interval) && Open(head, interval) < Open(row, interval)
    ensures Open(head, interval) < CoveredTo([head] + rest, interval, endMs, limit)
    ensures limit == 1 && rest == [] ==> CoveredTo([head] + rest, interval, endMs, limit) == Open(head, interval) + 1
  {
    hide KlineSpan;
    if rest != [] {
      assert rest[|rest| - 1] in rest;
      assert ([head] + rest)[|rest|] == rest[|rest| - 1];
    }
  }

  lemma OneRowPage(tail: seq<Json>, interval: string, endMs: int, lo: int, hi: int)
    requires AllValid(tail, interval) && forall row :: row in tail ==> ValidRow(row, interval) && Open(row, interval) >= hi
    ensures ClosedBy([], endMs) == Accepted(tail, interval, endMs, lo, hi)
  {
    hide KlineSpan;
    AcceptedDependsOn(tail, interval, endMs, lo, hi, lo, lo);
    NothingAccepted(tail, interval, endMs, lo);
  }

  lemma NothingClosed(endMs: int)
    ensures ClosedBy([], endMs) == []
  {
  }

  lemma RawWhenValid(row: Json, interval: string)
    requires ValidRow(row, interval)
    ensures RawRow(row) && row.items[0] == Int(Open(row, interval)) && row.items[6] == Int(Close(row, interval) - 1)
  {
  }

  lemma {:induction false} ClosedByFirst(rows: seq<Json>, endMs: int)
    requires AllRaw(rows) && rows != []
    ensures AllRaw(rows[1..])
    ensures ClosedBy(rows, endMs) == (if rows[0].items[6].value + 1 <= endMs then [rows[0]] else []) + ClosedBy(rows[1..], endMs)
  {
    if |rows| > 1 {
      var init := rows[..|rows| - 1];
      ClosedByFirst(init, endMs);
      assert init[1..] == rows[1..][..|rows[1..]| - 1];
    }
  }

  /** One honest page extends the accepted list from the cursor to just behind the last kept open; if it stops the paging,
      the list is complete. */
  lemma HonestRestStep(h: seq<Json>, interval: string, startMs: int, endMs: int, limit: nat, cursor: int, page: seq<Json>)
    requires History(h, interval) && limit > 0 && startMs <= cursor < endMs
    requires page == FirstKlines(h, interval, cursor, endMs - 1, limit)
    ensures AllRaw(page)
    ensures var kept := ClosedBy(page, endMs);
            var before := Accepted(h, interval, endMs, startMs, cursor);
            && (|page| < limit || kept == [] ==> before + kept == Accepted(h, interval, endMs, startMs, endMs))
            && (kept != [] ==>
                  && RawRow(kept[|kept| - 1])
                  && var next := kept[|kept| - 1].items[0].value + 1;
                     cursor < next <= endMs && before + kept == Accepted(h, interval, endMs, startMs, next))
  {
    hide KlineSpan, FirstKlines, Accepted, RawRow;
    HonestPageKeeps(h, interval, endMs, cursor, limit);
    PageRows(h, interval, cursor, endMs - 1, limit);
    var kept, hi := ClosedBy(page, endMs), CoveredTo(page, interval, endMs, limit);
    hide ClosedBy;
    AcceptedMembers(h, interval, endMs, cursor, hi);
    if kept != [] {
      var last := kept[|kept| - 1];
      assert last in kept;
      RawWhenValid(last, interval);
      LastIsLatest(h, interval, endMs, cursor, hi);
      AcceptedDependsOn(h, interval, endMs, cursor, hi, cursor, Open(last, interval) + 1);
      AcceptedSplit(h, interval, endMs, startMs, cursor, Open(last, interval) + 1);
    }
    if |page| < limit {
      AcceptedSplit(h, interval, endMs, startMs, cursor, endMs);
    } else if kept == [] {
      assert page != [] && page[|page| - 1] in page;
      UnclosedPage(h, interval, endMs, cursor, page[|page| - 1]);
      AcceptedSplit(h, interval, endMs, startMs, cursor, endMs);
    }
  }

  lemma {:induction false} LastIsLatest(h: seq<Json>, interval: string, endMs: int, lo: int, hi: int)
    requires History(h, interval)
    ensures var a := Accepted(h, interval, endMs, lo, hi);
            a != [] ==>
              && a[|a| - 1] in h && ValidRow(a[|a| - 1], interval)
              && (forall row :: row in a ==> ValidRow(row, interval) && Open(row, interval) <= Open(a[|a| - 1], interval))
  {
    hide KlineSpan;
    if h != [] {
      LaterOpens(h, interval);
      LastIsLatest(h[1..], interval, endMs, lo, hi);
      AcceptedMembers(h[1..], interval, endMs, lo, hi);
      var rest := Accepted(h[1..], interval, endMs, lo, hi);
      if rest != [] { assert rest[|rest| - 1] in rest; }
    }
  }

  /** If nothing up to an unclosed kline of the range was accepted, nothing behind it is. */
  lemma UnclosedPage(h: seq<Json>, interval: string, endMs: int, lo: int, row: Json)
    requires History(h, interval) && row in h && ValidRow(row, interval) && lo <= Open(row, interval) <= endMs - 1
    requires Accepted(h, interval, endMs, lo, Open(row, interval) + 1) == []
    ensures Accepted(h, interval, endMs, lo, endMs) == []
  {
    hide KlineSpan;
    AcceptedMembers(h, interval, endMs, lo, Open(row, interval) + 1);
    AcceptedMembers(h, interval, endMs, lo, endMs);
    var all := Accepted(h, interval, endMs, lo, endMs);
    hide Accepted;
    if all != [] {
      assert all[0] in all;
      RowOrder(row, all[0], interval);
    }
  }

  /** The messages are the accepted klines that open before `hi`. */
  ghost predicate AcceptedTo(messages: seq<Json>, h: seq<Json>, interval: string, endMs: int, startMs: int, hi: int) {
    AllValid(h, interval) && messages == Accepted(h, interval, endMs, startMs, hi)
  }

  /** The page of an honest server can be read; it completes the messages or brings them to just behind its last kept open. */
  ghost predicate Extends(page: seq<Json>, messages: seq<Json>, h: seq<Json>, interval: string, endMs: int, startMs: int, cursor: int, limit: nat) {
    && AllRaw(page)
    && var kept := ClosedBy(page, endMs);
       && AllRaw(kept)
       && (|page| < limit || LastOpen(kept) == None ==> AcceptedTo(messages + kept, h, interval, endMs, startMs, endMs))
       && (LastOpen(kept).Some? ==>
             cursor <= LastOpen(kept).value < endMs && AcceptedTo(messages + kept, h, interval, endMs, startMs, LastOpen(kept).value + 1))
  }

  lemma HonestPageExtends(h: seq<Json>, s: Slice, cursor: int, messages: seq<Json>, page: seq<Json>)
    requires History(h, s.interval) && s.pageLimit > 0 && s.startMs <= cursor < s.endMs
    requires AcceptedTo(messages, h, s.interval, s.endMs, s.startMs, cursor)
    requires page == FirstKlines(h, s.interval, cursor, s.endMs - 1, s.pageLimit)
    ensures Extends(page, messages, h, s.interval, s.endMs, s.startMs, cursor, s.pageLimit)
  {
    hide KlineSpan, RawRow, FirstKlines, Accepted;
    HonestRestStep(h, s.interval, s.startMs, s.endMs, s.pageLimit, cursor, page);
    ClosedByRaw(page, s.endMs);
    hide ClosedBy;
  }

  lemma {:induction false} ClosedByRaw(rows: seq<Json>, endMs: int)
    requires AllRaw(rows)
    ensures AllRaw(ClosedBy(rows, endMs))
  {
    hide RawRow;
    if rows != [] { ClosedByRaw(rows[..|rows| - 1], endMs); }
  }

  /** Pages `[startMs, endMs)`. The cursor grows with every request, whatever the server answers; if it answers from a history,
      the messages are the klines of the history in that range, in order. */
  method GetClosedKlines(interval: string, startMs: int, endMs: int, pageLimit: nat, endpoint: KlineEndpoint, ghost h: seq<Json>)
    returns (r: Result<seq<Json>, RestError>, ghost asked: seq<int>)
    modifies endpoint
    ensures endpoint.calls == old(endpoint.calls) + asked && Rising(asked, startMs, endMs)
    ensures endMs <= startMs || interval == "" || !(1 <= pageLimit <= 1000) ==> r == Err(InvalidArgument)
    ensures startMs < endMs ==> |asked| <= endMs - startMs
    ensures startMs < endMs && interval != "" && 1 <= pageLimit <= 1000
            && History(h, interval) && HonestOrFailing(endpoint.server, h, Slice(interval, startMs, endMs, endMs, pageLimit)) ==>
              && (r.Ok? ==> r.value == Accepted(h, interval, endMs, startMs, endMs))
              && (r.Err? ==> r.error == RequestError && endpoint.LastFailed())
  {
    hide KlineSpan, RawRow, AllRaw, History, Accepted, FirstKlines, ClosedBy, LastOpen, AcceptedTo;
    asked := [];
    if endMs <= startMs || interval == "" || !(1 <= pageLimit <= 1000) {
      return Err(InvalidArgument), asked;
    }
    ghost var s := Slice(interval, startMs, endMs, endMs, pageLimit);
    ghost var honest := History(h, interval) && HonestOrFailing(endpoint.server, h, s);
    var cursor, messages := startMs, [];
    if honest { NothingYet(h, interval, endMs, startMs); }
    while cursor <= endMs - 1
      invariant endpoint.calls == old(endpoint.calls) + asked && Rising(asked, startMs, cursor) && Rising(asked, startMs, endMs)
      invariant startMs <= cursor && |asked| <= cursor - startMs && |asked| <= endMs - startMs
      invariant honest ==> cursor <= endMs && AcceptedTo(messages, h, interval, endMs, startMs, cursor)
      decreases endMs - cursor
    {
      var reply := endpoint.Klines(cursor);
      asked := asked + [cursor];
      if !reply.Body? || !reply.value.Arr? {
        return Err(RequestError), asked;
      }
      var payload := reply.value.items;
      if honest { HonestPageExtends(h, s, cursor, messages, payload); }
      if payload == [] {
        NothingClosed(endMs);
        assert messages + [] == messages;
        break;
      }
      var ok, kept, latest := CollectClosed(payload, endMs);
      if !ok {
        return Err(RequestError), asked;
      }
      messages := messages + kept;
      if |payload| < pageLimit || latest == None {
        cursor := endMs;
        break;
      }
      if latest.value < cursor {
        return Err(RequestError), asked;
      }
      cursor := latest.value + 1;
    }
    if honest { AllAccepted(messages, h, interval, endMs, startMs); }
    return Ok(messages), asked;
  }

  lemma AllAccepted(messages: seq<Json>, h: seq<Json>, interval: string, endMs: int, startMs: int)
    requires AcceptedTo(messages, h, interval, endMs, startMs, endMs)
    ensures AllValid(h, interval) && messages == Accepted(h, interval, endMs, startMs, endMs)
  {
  }

  lemma NothingYet(h: seq<Json>, interval: string, endMs: int, startMs: int)
    requires History(h, interval)
    ensures AcceptedTo([], h, interval, endMs, startMs, startMs)
  {
    hide KlineSpan;
    NothingAccepted(h, interval, endMs, startMs);
  }

  // ---------------------------------------------------------------- agreement of the two paginators

  predicate AscendingOpens(rows: seq<Json>, interval: string)
    requires AllValid(rows, interval)
  {
    forall i, j :: 0 <= i < j < |rows| ==> Open(rows[i], interval) < Open(rows[j], interval)
  }

  lemma {:induction false} AcceptedAscending(h: seq<Json>, interval: string, endMs: int, lo: int, hi: int)
    requires History(h, interval)
    ensures var a := Accepted(h, interval, endMs, lo, hi);
            AllValid(a, interval) && AscendingOpens(a, interval)
  {
    hide KlineSpan;
    if h != [] {
      LaterOpens(h, interval);
      AcceptedAscending(h[1..], interval, endMs, lo, hi);
      AcceptedMembers(h[1..], interval, endMs, lo, hi);
      hide Ends, History;
      var rest := Accepted(h[1..], interval, endMs, lo, hi);
      forall i | 0 <= i < |rest| ensures Open(h[0], interval) < Open(rest[i], interval) {
        assert rest[i] in rest;
      }
    }
  }

  /** The rows of a map listed by key. */
  function InKeyOrder(rows: map<int, Json>, keys: seq<int>): (r: seq<Json>)
    requires forall k :: k in keys ==> k in rows
    ensures |r| == |keys|
  {
    if keys == [] then []
    else
      var last := keys[|keys| - 1];
      assert last in keys;
      InKeyOrder(rows, keys[..|keys| - 1]) + [rows[last]]
  }

  lemma {:induction false} InKeyOrderAt(rows: map<int, Json>, keys: seq<int>, i: nat)
    requires i < |keys| && forall k :: k in keys ==> k in rows
    ensures InKeyOrder(rows, keys)[i] == rows[keys[i]]
  {
    if i < |keys| - 1 { InKeyOrderAt(rows, keys[..|keys| - 1], i); }
  }

  lemma WithoutLast(a: seq<int>)
    requires Dataset.Ascending(a) && a != []
    ensures Dataset.Ascending(a[..|a| - 1]) && a[|a| - 1] in a
    ensures forall k :: k in a[..|a| - 1] <==> k in a && k < a[|a| - 1]
    ensures forall k :: k in a ==> k <= a[|a| - 1]
  {
    var init, last := a[..|a| - 1], a[|a| - 1];
    assert a == init + [last];
    forall k | k in init ensures k < last {
      var i :| 0 <= i < |init| && init[i] == k;
      assert a[i] == k;
    }
  }

  lemma EmptyOrMember(a: seq<int>)
    ensures a == [] || exists k :: k in a
  {
    if a != [] {
      var k := a[0];
      assert k in a;
    }
  }

  /** Ascending lists with the same members are equal. */
  lemma {:induction false} AscendingUnique(a: seq<int>, b: seq<int>)
    requires Dataset.Ascending(a) && Dataset.Ascending(b) && forall k :: k in a <==> k in b
    ensures a == b
  {
    if a != [] && b != [] {
      WithoutLast(a);
      WithoutLast(b);
      hide Dataset.Ascending;
      assert a[|a| - 1] in b && b[|b| - 1] in a;
      assert a[|a| - 1] == b[|b| - 1];
      var x, y := a[..|a| - 1], b[..|b| - 1];
      forall k ensures k in x <==> k in y {
        assert k in x <==> k in a && k < a[|a| - 1];
        assert k in y <==> k in b && k < b[|b| - 1];
      }
      AscendingUnique(a[..|a| - 1], b[..|b| - 1]);
      assert a == a[..|a| - 1] + [a[|a| - 1]] && b == b[..|b| - 1] + [b[|b| - 1]];
    } else {
      EmptyOrMember(a);
      EmptyOrMember(b);
    }
  }

  /** Once the server's clock has passed the end of the range, the rows of the downloader, listed by open time, are the
      messages of the REST adapter. */
  lemma PaginatorsAgree(h: seq<Json>, s: Slice, lo: int)
    requires History(h, s.interval) && s.serverMs >= s.endMs
    ensures var rows := Wanted(h, s, lo);
            InKeyOrder(rows, Dataset.Sorted(rows.Keys)) == Accepted(h, s.interval, s.endMs, lo, s.endMs)
  {
    hide KlineSpan;
    var rows, a := Wanted(h, s, lo), Accepted(h, s.interval, s.endMs, lo, s.endMs);
    var keys := Dataset.Sorted(rows.Keys);
    hide Dataset.Sorted;
    SameRows(h, s, lo);
    AcceptedAscending(h, s.interval, s.endMs, lo, s.endMs);
    hide Wanted, Accepted, History, SameMembers;
    var opens := seq(|a|, i requires 0 <= i < |a| => Open(a[i], s.interval));
    SameListing(rows, a, s.interval, opens, keys);
  }

  /** The map holds every row of the list under its open time, and nothing else. */
  ghost predicate SameMembers(rows: map<int, Json>, a: seq<Json>, interval: string)
    requires AllValid(a, interval)
  {
    && (forall i :: 0 <= i < |a| ==> Open(a[i], interval) in rows && rows[Open(a[i], interval)] == a[i])
    && (forall k :: k in rows ==> ValidRow(rows[k], interval) && rows[k] in a && Open(rows[k], interval) == k)
  }

  lemma SameRows(h: seq<Json>, s: Slice, lo: int)
    requires History(h, s.interval) && s.serverMs >= s.endMs
    ensures var rows, a := Wanted(h, s, lo), Accepted(h, s.interval, s.endMs, lo, s.endMs);
            AllValid(a, s.interval) && SameMembers(rows, a, s.interval)
  {
    hide KlineSpan;
    var rows, a := Wanted(h, s, lo), Accepted(h, s.interval, s.endMs, lo, s.endMs);
    WantedKeys(h, s, lo);
    AcceptedMembers(h, s.interval, s.endMs, lo, s.endMs);
    hide Wanted, Accepted;
    forall i | 0 <= i < |a|
      ensures ValidRow(a[i], s.interval) && Open(a[i], s.interval) in rows && rows[Open(a[i], s.interval)] == a[i]
    {
      assert a[i] in a;
      var j :| 0 <= j < |h| && h[j] == a[i];
    }
    forall k | k in rows ensures ValidRow(rows[k], s.interval) && rows[k] in a && Open(rows[k], s.interval) == k {
      RowAhead(rows[k], s.interval);
    }
  }

  lemma SameListing(rows: map<int, Json>, a: seq<Json>, interval: string, opens: seq<int>, keys: seq<int>)
    requires AllValid(a, interval) && AscendingOpens(a, interval)
    requires |opens| == |a| && forall i :: 0 <= i < |a| ==> opens[i] == Open(a[i], interval)
    requires SameMembers(rows, a, interval)
    requires Dataset.Ascending(keys) && forall k :: k in keys <==> k in rows
    ensures InKeyOrder(rows, keys) == a
  {
    hide KlineSpan;
    forall k | k in rows ensures k in opens {
      var i :| 0 <= i < |a| && a[i] == rows[k];
      assert opens[i] == k;
    }
    AscendingUnique(opens, keys);
    forall i | 0 <= i < |a| ensures InKeyOrder(rows, keys)[i] == a[i] {
      InKeyOrderAt(rows, keys, i);
    }
  }
}
