/** A whole download: raw files, resume and the download manifest (packages/market_data/datasets/downloader.py). */
module Dataset {
  import opened Wrappers
  import opened Json
  import opened Calendar
  import opened Intervals
  import opened Downloader
  import opened TextOrder

  const SOURCE := "binance_public_rest"

  // ---------------------------------------------------------------- sorted keys

  lemma EmptyOrNot(s: set<int>)
    ensures s == {} || exists x :: x in s
  {
    if forall x :: x !in s { assert s == {}; }
  }

  lemma MinExists(s: set<int>) returns (k: int)
    requires s != {}
    ensures k in s && forall j :: j in s ==> k <= j
  {
    EmptyOrNot(s);
    var x :| x in s;
    if s == {x} {
      k := x;
    } else {
      assert s - {x} != {};
      var rest := MinExists(s - {x});
      k := if rest < x then rest else x;
      assert forall j :: j in s ==> j == x || j in s - {x};
    }
  }

  predicate Ascending(r: seq<int>) {
    forall i, j :: 0 <= i < j < |r| ==> r[i] < r[j]
  }

  function Least(s: set<int>): (k: int)
    requires s != {}
    ensures k in s && forall j :: j in s ==> k <= j
  {
    assert exists k :: k in s && forall j :: j in s ==> k <= j by { var m := MinExists(s); }
    var k :| k in s && forall j :: j in s ==> k <= j;
    k
  }

  /** `sorted()` of a set of open times. */
  function Sorted(s: set<int>): (r: seq<int>)
    ensures Ascending(r) && |r| == |s|
    ensures forall k :: k in r <==> k in s
  {
    if s == {} then []
    else
      var rest := Sorted(s - {Least(s)});
      assert forall i :: 0 <= i < |rest| ==> rest[i] in rest;
      [Least(s)] + rest
  }

  lemma SortedEnds(s: set<int>)
    requires s != {}
    ensures |Sorted(s)| == |s| > 0 && Sorted(s)[0] in s && Sorted(s)[|s| - 1] in s
    ensures forall k :: k in s ==> Sorted(s)[0] <= k <= Sorted(s)[|s| - 1]
  {
    var r := Sorted(s);
    hide Sorted;
    assert r[0] in r && r[|s| - 1] in r;
    forall k | k in s ensures r[0] <= k <= r[|s| - 1] {
      var i :| 0 <= i < |r| && r[i] == k;
    }
  }

  function MaxKey(rows: map<int, Json>): (k: int)
    requires rows != map[]
    ensures k in rows && forall j :: j in rows ==> j <= k
  {
    assert rows.Keys != {};
    SortedEnds(rows.Keys);
    Sorted(rows.Keys)[|rows.Keys| - 1]
  }

  function MinKey(rows: map<int, Json>): (k: int)
    requires rows != map[]
    ensures k in rows && forall j :: j in rows ==> k <= j
  {
    assert rows.Keys != {};
    SortedEnds(rows.Keys);
    Sorted(rows.Keys)[0]
  }

  // ---------------------------------------------------------------- raw files

  function IsoMs(ms: int): string
    requires Representable(ms)
  {
    IsoText(AtEpochMs(ms))
  }

  /** Rows stored under their own open time, with representable ends. */
  predicate GoodRows(rows: map<int, Json>, interval: string) {
    forall k :: k in rows ==>
      ValidRow(rows[k], interval) && Open(rows[k], interval) == k && Representable(Close(rows[k], interval))
  }

  function RecordLine(symbol: string, interval: string, open: int, row: Json): Result<Json, RowError> {
    match KlineSpan(row, interval)
    case Err(e) => Err(e)
    case Ok(span) =>
      if span.open != open then Err(KeyMismatch)
      else if !Representable(span.open) || !Representable(span.close) then Err(BadTime)
      else Ok(Obj(map[
        "symbol" := Str(symbol),
        "interval" := Str(interval),
        "open_time" := Str(IsoMs(span.open)),
        "close_time" := Str(IsoMs(span.close)),
        "source" := Str(SOURCE),
        "payload" := row]))
  }

  lemma RecordLineOk(symbol: string, interval: string, open: int, row: Json)
    ensures RecordLine(symbol, interval, open, row).Ok? <==>
            ValidRow(row, interval) && Open(row, interval) == open && Representable(Close(row, interval))
    ensures RecordLine(symbol, interval, open, row).Ok? ==>
              var line := RecordLine(symbol, interval, open, row).value;
              line.Obj? && "payload" in line.members && line.members["payload"] == row
  {
    hide BoundaryAfter;
    if ValidRow(row, interval) { RowAhead(row, interval); }
  }

  /** What a record says: the pair, the payload as it is, and two UTC texts; whatever has the text of the open time is its instant,
      and whatever has the text of the close time is that of the end. */
  lemma RecordSays(symbol: string, interval: string, open: int, row: Json)
    requires RecordLine(symbol, interval, open, row).Ok?
    ensures ValidRow(row, interval) && Open(row, interval) == open
    ensures var line := RecordLine(symbol, interval, open, row).value;
            && line.Obj? && line.members.Keys == {"symbol", "interval", "open_time", "close_time", "source", "payload"}
            && line.members["symbol"] == Str(symbol) && line.members["interval"] == Str(interval)
            && line.members["source"] == Str("binance_public_rest") && line.members["payload"] == row
            && Tells(line.members["open_time"], open) && Tells(line.members["close_time"], Close(row, interval))
  {
    hide BoundaryAfter, IsoMs, Tells, KlineSpan;
    RecordLineOk(symbol, interval, open, row);
    RowAhead(row, interval);
    IsoMsTells(open);
    IsoMsTells(Close(row, interval));
  }

  /** The text of exactly one timestamp in UTC, that many milliseconds behind the start of 1970. */
  ghost predicate Tells(text: Json, ms: int) {
    && text.Str? && EPOCH.Valid()
    && (exists t: DateTime :: t.Valid() && text.chars == IsoText(t))
    && (forall t: DateTime :: t.Valid() && text.chars == IsoText(t) ==> t.Instant() == EPOCH.Instant() + 1000 * ms)
  }

  lemma IsoMsTells(ms: int)
    requires Representable(ms)
    ensures Tells(Str(IsoMs(ms)), ms)
  {
    hide IsoText, DateTime.Instant, DateTime.Valid;
    EpochStart();
    var at := AtEpochMs(ms);
    forall t: DateTime | t.Valid() && IsoMs(ms) == IsoText(t) ensures t.Instant() == at.Instant() {
      IsoOrder(t, at);
    }
  }

  function LinesFor(symbol: string, interval: string, rows: map<int, Json>, opens: seq<int>): seq<Json>
    requires GoodRows(rows, interval) && forall k :: k in opens ==> k in rows
  {
    if opens == [] then []
    else
      var k := opens[|opens| - 1];
      RecordLineOk(symbol, interval, k, rows[k]);
      LinesFor(symbol, interval, rows, opens[..|opens| - 1]) + [RecordLine(symbol, interval, k, rows[k]).value]
  }

  lemma LinesForNothing(symbol: string, interval: string, rows: map<int, Json>)
    requires GoodRows(rows, interval)
    ensures LinesFor(symbol, interval, rows, []) == []
  {
  }

  lemma LinesForStep(symbol: string, interval: string, rows: map<int, Json>, opens: seq<int>, k: int)
    requires GoodRows(rows, interval) && (forall k :: k in opens ==> k in rows) && k in rows
    ensures RecordLine(symbol, interval, k, rows[k]).Ok?
    ensures LinesFor(symbol, interval, rows, opens + [k]) ==
              LinesFor(symbol, interval, rows, opens) + [RecordLine(symbol, interval, k, rows[k]).value]
  {
    hide RecordLine;
    RecordLineOk(symbol, interval, k, rows[k]);
    assert (opens + [k])[..|opens|] == opens;
  }

  /** The file of a slice: one record per row, by ascending open time. */
  function FileOf(symbol: string, interval: string, rows: map<int, Json>): seq<Json>
    requires GoodRows(rows, interval)
  {
    LinesFor(symbol, interval, rows, Sorted(rows.Keys))
  }

  method WriteKlineFile(symbol: string, interval: string, rows: map<int, Json>) returns (r: Result<seq<Json>, RowError>)
    ensures r.Ok? <==> GoodRows(rows, interval)
    ensures r.Ok? ==> r.value == FileOf(symbol, interval, rows)
  {
    hide KlineSpan, RecordLine, Representable, Sorted, Open, Close, ValidRow, LinesFor;
    var opens := Sorted(rows.Keys);
    if GoodRows(rows, interval) { LinesForNothing(symbol, interval, rows); }
    forall k | k in rows
      ensures RecordLine(symbol, interval, k, rows[k]).Ok? <==>
              ValidRow(rows[k], interval) && Open(rows[k], interval) == k && Representable(Close(rows[k], interval))
    {
      RecordLineOk(symbol, interval, k, rows[k]);
    }
    var lines := [];
    for i := 0 to |opens|
      invariant forall j :: 0 <= j < i ==> RecordLine(symbol, interval, opens[j], rows[opens[j]]).Ok?
      invariant GoodRows(rows, interval) ==> lines == LinesFor(symbol, interval, rows, opens[..i])
    {
      assert opens[..i + 1][..i] == opens[..i];
      assert opens[i] in opens;
      if GoodRows(rows, interval) { LinesForStep(symbol, interval, rows, opens[..i], opens[i]); }
      assert opens[..i + 1] == opens[..i] + [opens[i]];
      match RecordLine(symbol, interval, opens[i], rows[opens[i]])
      case Err(e) => return Err(e);
      case Ok(line) => lines := lines + [line];
    }
    assert opens[..|opens|] == opens;
    forall k | k in rows ensures RecordLine(symbol, interval, k, rows[k]).Ok? {
      var j :| 0 <= j < |opens| && opens[j] == k;
    }
    return Ok(lines);
  }

  /** Reading a file: the payload of every line, under its own open time. */
  function ReadRows(lines: seq<Json>, interval: string): Result<map<int, Json>, RowError> {
    if lines == [] then Ok(map[])
    else
      var earlier :- ReadRows(lines[..|lines| - 1], interval);
      var line := lines[|lines| - 1];
      if !line.Obj? || "payload" !in line.members then Err(BadShape)
      else
        var span :- KlineSpan(line.members["payload"], interval);
        Ok(earlier[span.open := line.members["payload"]])
  }

  method ReadKlineFile(lines: seq<Json>, interval: string) returns (r: Result<map<int, Json>, RowError>)
    ensures r.Ok? == ReadRows(lines, interval).Ok?
    ensures r.Ok? ==> r == ReadRows(lines, interval)
  {
    hide KlineSpan;
    var rows := map[];
    for i := 0 to |lines|
      invariant ReadRows(lines[..i], interval) == Ok(rows)
    {
      assert lines[..i + 1][..i] == lines[..i];
      if !lines[i].Obj? || "payload" !in lines[i].members {
        PrefixFails(lines, interval, i + 1);
        return Err(BadShape);
      }
      var payload := lines[i].members["payload"];
      match KlineSpan(payload, interval)
      case Err(e) =>
        PrefixFails(lines, interval, i + 1);
        return Err(e);
      case Ok(span) => rows := rows[span.open := payload];
    }
    assert lines[..|lines|] == lines;
    return Ok(rows);
  }

  lemma {:induction false} PrefixFails(lines: seq<Json>, interval: string, n: nat)
    requires n <= |lines| && ReadRows(lines[..n], interval).Err?
    ensures ReadRows(lines, interval).Err?
    decreases |lines|
  {
    hide KlineSpan;
    if n == |lines| {
      assert lines[..n] == lines;
    } else {
      assert lines[..|lines| - 1][..n] == lines[..n];
      PrefixFails(lines[..|lines| - 1], interval, n);
    }
  }

  /** A file that was written is read back as the same rows. */
  lemma ReadBack(symbol: string, interval: string, rows: map<int, Json>)
    requires GoodRows(rows, interval)
    ensures ReadRows(FileOf(symbol, interval, rows), interval) == Ok(rows)
  {
    hide KlineSpan, GoodRows;
    ReadBackPrefix(symbol, interval, rows, Sorted(rows.Keys));
    var opens := Sorted(rows.Keys);
    hide ReadRows, Sorted;
    assert (map k | k in opens :: rows[k]) == rows;
  }

  lemma {:induction false} ReadBackPrefix(symbol: string, interval: string, rows: map<int, Json>, opens: seq<int>)
    requires GoodRows(rows, interval) && forall k :: k in opens ==> k in rows
    ensures ReadRows(LinesFor(symbol, interval, rows, opens), interval) == Ok(map k | k in opens :: rows[k])
  {
    hide KlineSpan, RecordLine, Representable;
    if opens != [] {
      var init, k := opens[..|opens| - 1], opens[|opens| - 1];
      ReadBackPrefix(symbol, interval, rows, init);
      RecordLineOk(symbol, interval, k, rows[k]);
      ReadOneMore(LinesFor(symbol, interval, rows, init), RecordLine(symbol, interval, k, rows[k]).value, interval);
      var m := map j | j in init :: rows[j];
      assert opens == init + [k];
      assert (map j | j in opens :: rows[j]) == m[k := rows[k]];
    }
  }

  lemma ReadOneMore(lines: seq<Json>, line: Json, interval: string)
    requires ReadRows(lines, interval).Ok?
    requires line.Obj? && "payload" in line.members && ValidRow(line.members["payload"], interval)
    ensures ReadRows(lines + [line], interval) ==
            Ok(ReadRows(lines, interval).value[Open(line.members["payload"], interval) := line.members["payload"]])
  {
    hide KlineSpan;
    assert (lines + [line])[..|lines|] == lines;
  }

  // ---------------------------------------------------------------- resume

  function Watermark(rows: map<int, Json>, interval: string): Result<int, BoundaryError> {
    if rows == map[] then Ok(0) else BoundaryAfter(MaxKey(rows), interval)
  }

  /** What a fresh run of a slice yields at its server time. */
  function FreshRows(h: seq<Json>, s: Slice): map<int, Json> {
    Wanted(h, s, s.startMs)
  }

  /** Restarting a slice from the watermark of what it yielded at an earlier server time, and merging, gives what a fresh run
      yields now. */
  lemma ResumeEqualsFresh(h: seq<Json>, earlier: Slice, s: Slice)
    requires ValidSlice(s) && History(h, s.interval)
    requires earlier == s.(serverMs := earlier.serverMs) && earlier.serverMs <= s.serverMs
    ensures var rows := FreshRows(h, earlier);
            && Watermark(rows, s.interval).Ok?
            && var w := Watermark(rows, s.interval).value;
               var start := if s.startMs >= w then s.startMs else w;
               Wanted(h, s, start) + rows == FreshRows(h, s)
  {
    hide KlineSpan, BoundaryAfter;
    var rows, full := FreshRows(h, earlier), FreshRows(h, s);
    WantedKeys(h, earlier, s.startMs);
    WantedKeys(h, s, s.startMs);
    EarlierIsKept(h, earlier, s);
    hide Wanted;
    if rows != map[] {
      var last := rows[MaxKey(rows)];
      WatermarkOf(rows, s.interval);
      var start := if s.startMs >= Close(last, s.interval) then s.startMs else Close(last, s.interval);
      forall k | k in full && k < Close(last, s.interval) ensures k in rows {
        BeforeWatermark(h, earlier, s, rows, full[k], last);
      }
      TailOfFresh(h, s, start);
      MergeTail(rows, full, Wanted(h, s, start), start, s.startMs);
    } else {
      assert Wanted(h, s, s.startMs) + map[] == full;
    }
  }

  lemma EarlierIsKept(h: seq<Json>, earlier: Slice, s: Slice)
    requires History(h, s.interval)
    requires earlier == s.(serverMs := earlier.serverMs) && earlier.serverMs <= s.serverMs
    ensures forall k :: k in FreshRows(h, earlier) ==> k in FreshRows(h, s) && FreshRows(h, s)[k] == FreshRows(h, earlier)[k]
  {
    hide KlineSpan;
    WantedKeys(h, earlier, s.startMs);
    WantedKeys(h, s, s.startMs);
    var rows, full := FreshRows(h, earlier), FreshRows(h, s);
    hide Wanted;
    forall k | k in rows ensures k in full && full[k] == rows[k] {
      var i :| 0 <= i < |h| && h[i] == rows[k];
    }
  }

  lemma MergeTail(rows: map<int, Json>, full: map<int, Json>, tail: map<int, Json>, start: int, lo: int)
    requires forall k :: k in rows ==> k in full && full[k] == rows[k]
    requires forall k :: k in full && k < start ==> k in rows
    requires forall k :: k in tail <==> k in full && k >= start
    requires forall k :: k in tail ==> tail[k] == full[k]
    ensures tail + rows == full
  {
    assert forall k :: k in tail + rows <==> k in full;
    assert forall k :: k in full ==> (tail + rows)[k] == full[k];
  }

  /** Starting later leaves out exactly the earlier opens. */
  lemma TailOfFresh(h: seq<Json>, s: Slice, start: int)
    requires History(h, s.interval) && s.startMs <= start
    ensures forall k :: k in Wanted(h, s, start) <==> k in FreshRows(h, s) && k >= start
    ensures forall k :: k in Wanted(h, s, start) ==> Wanted(h, s, start)[k] == FreshRows(h, s)[k]
  {
    hide KlineSpan;
    WantedKeys(h, s, s.startMs);
    WantedKeys(h, s, start);
    var tail, full := Wanted(h, s, start), FreshRows(h, s);
    hide Wanted, IsClosed;
    forall k | k in full && k >= start ensures k in tail && tail[k] == full[k] {
      var i :| 0 <= i < |h| && h[i] == full[k];
    }
    forall k | k in tail ensures k in full && full[k] == tail[k] {
      var i :| 0 <= i < |h| && h[i] == tail[k];
    }
  }

  lemma WatermarkOf(rows: map<int, Json>, interval: string)
    requires rows != map[] && ValidRow(rows[MaxKey(rows)], interval) && Open(rows[MaxKey(rows)], interval) == MaxKey(rows)
    ensures Watermark(rows, interval) == Ok(Close(rows[MaxKey(rows)], interval))
  {
    hide KlineSpan;
    hide BoundaryAfter;
    RowAhead(rows[MaxKey(rows)], interval);
  }

  /** A wanted kline that opens before the watermark was closed, and therefore stored, at the earlier time. */
  lemma BeforeWatermark(h: seq<Json>, earlier: Slice, s: Slice, rows: map<int, Json>, row: Json, last: Json)
    requires History(h, s.interval) && earlier == s.(serverMs := earlier.serverMs)
    requires row in h && IsClosed(row, s) && s.startMs <= Open(row, s.interval)
    requires last in h && IsClosed(last, earlier) && Open(row, s.interval) < Close(last, s.interval)
    requires forall i :: 0 <= i < |h| && IsClosed(h[i], earlier) && s.startMs <= Open(h[i], s.interval) ==> Open(h[i], s.interval) in rows
    ensures Open(row, s.interval) in rows
  {
    hide KlineSpan;
    var i :| 0 <= i < |h| && h[i] == row;
    var j :| 0 <= j < |h| && h[j] == last;
    assert i <= j;
    if i < j {
      RowAhead(last, s.interval);
    }
  }

  /** Two histories of one pair agree on every kline that was closed at the earlier time. */
  ghost predicate AppendOnly(h: seq<Json>, atMs: int, later: seq<Json>, interval: string) {
    forall row :: ValidRow(row, interval) && Close(row, interval) <= atMs ==> (row in h <==> row in later)
  }

  /** So what the earlier run stored is also what the later history says about that time. */
  lemma HistoryCarriesOver(h: seq<Json>, later: seq<Json>, s: Slice)
    requires History(h, s.interval) && History(later, s.interval) && AppendOnly(h, s.serverMs, later, s.interval)
    ensures FreshRows(h, s) == FreshRows(later, s)
  {
    hide KlineSpan;
    WantedKeys(h, s, s.startMs);
    WantedKeys(later, s, s.startMs);
    var a, b := FreshRows(h, s), FreshRows(later, s);
    hide Wanted;
    forall k | k in a ensures k in b && b[k] == a[k] {
      var i :| 0 <= i < |later| && later[i] == a[k];
    }
    forall k | k in b ensures k in a {
      var i :| 0 <= i < |h| && h[i] == b[k];
    }
  }

  // ---------------------------------------------------------------- the download manifest

  datatype Pair = Pair(symbol: MarketSymbol, interval: string) {
    function Name(): string { RawOutputName(symbol.Text(), interval) }
  }

  datatype FileInfo = FileInfo(name: string, records: nat, rangeStart: int, rangeEnd: int)

  /** Times of the request are microseconds since the epoch; file ranges are milliseconds. */
  datatype DownloadRequest = DownloadRequest(
    datasetId: string, symbols: seq<MarketSymbol>, intervals: seq<string>, startUs: int, endUs: int, pageLimit: nat, resume: bool)
  {
    /** What `__post_init__` leaves: sorted, distinct, canonical symbols and supported intervals, an increasing range. */
    ghost predicate Valid() {
      && symbols != [] && intervals != [] && startUs < endUs && 1 <= pageLimit <= 1000
      && Representable(endUs / 1000)
      && (forall i :: 0 <= i < |symbols| ==> symbols[i].Canonical())
      && (forall i, j :: 0 <= i < j < |symbols| ==> LexLess(symbols[i].Text(), symbols[j].Text()))
      && (forall i :: 0 <= i < |intervals| ==> Supported(intervals[i]) && IntervalWord(intervals[i]))
      && (forall i, j :: 0 <= i < j < |intervals| ==> LexLess(intervals[i], intervals[j]))
    }

    /** The slice of one interval. A range that starts before the epoch is paged from the epoch: the watermark of an empty
        file is 0. */
    function SliceAt(interval: string, serverMs: int): Slice {
      Slice(interval, if startUs / 1000 >= 0 then startUs / 1000 else 0, endUs / 1000, serverMs, pageLimit)
    }

    ghost predicate Asks(p: Pair) { p.symbol in symbols && p.interval in intervals }
  }

  datatype DownloadManifest = DownloadManifest(
    datasetId: string, symbols: seq<MarketSymbol>, intervals: seq<string>, requestedStartUs: int, requestedEndUs: int,
    actualStart: Option<int>, actualEnd: Option<int>, recordCount: nat, files: seq<FileInfo>,
    complete: bool, failed: bool, pageLimit: nat, serverMs: Option<int>)

  function RecordTotal(files: seq<FileInfo>): nat {
    if files == [] then 0 else RecordTotal(files[..|files| - 1]) + files[|files| - 1].records
  }

  function BuildManifest(r: DownloadRequest, files: seq<FileInfo>, complete: bool, failed: bool, serverMs: Option<int>): DownloadManifest {
    DownloadManifest(r.datasetId, r.symbols, r.intervals, r.startUs, r.endUs,
      if files == [] then None else Some(files[0].rangeStart),
      if files == [] then None else Some(files[|files| - 1].rangeEnd),
      RecordTotal(files), files, complete, failed, r.pageLimit, serverMs)
  }

  function InfoFor(p: Pair, rows: map<int, Json>): FileInfo
    requires rows != map[] && GoodRows(rows, p.interval)
  {
    RowAhead(rows[MaxKey(rows)], p.interval);
    FileInfo(p.Name(), |rows|, MinKey(rows), BoundaryAfter(MaxKey(rows), p.interval).value)
  }

  // ---------------------------------------------------------------- the output directory

  /** The environment of one run: the server time, if the server tells it, the servers, and whether files can be written. */
  datatype World = World(serverMs: Option<int>, server: Pair -> Server, writable: Pair -> bool)

  /** The histories that the servers of a run answer from, if they answer. */
  ghost predicate Honest(world: World, r: DownloadRequest, history: Pair -> seq<Json>) {
    forall p: Pair {:trigger history(p)} :: r.Asks(p) ==>
      History(history(p), p.interval) && HonestOrFailing(world.server(p), history(p), r.SliceAt(p.interval, 0))
  }

  /** No server fails and every file can be written. */
  ghost predicate Undisturbed(world: World, r: DownloadRequest) {
    world.serverMs.Some? && forall p: Pair {:trigger world.server(p)} :: r.Asks(p) ==> NeverFails(world.server(p)) && world.writable(p)
  }

  datatype DownloadOutcome = ValueError | Finished(manifest: DownloadManifest)

  /** The rows of a pair that a fresh run at the given server time yields. */
  function FreshFor(r: DownloadRequest, h: seq<Json>, interval: string, serverMs: int): map<int, Json> {
    FreshRows(h, r.SliceAt(interval, serverMs))
  }

  /** The kline `row` opens at `k`, in the requested range but not before 1970, and is over by its end and by the server time. */
  ghost predicate Requested(row: Json, k: int, r: DownloadRequest, serverMs: int) {
    && row.Arr? && |row.items| == 12 && row.items[0] == Int(k) && row.items[6].Int?
    && 0 <= k && r.startUs / 1000 <= k && row.items[6].value < r.endUs / 1000 && row.items[6].value < serverMs
  }

  /** A fresh run keeps exactly the requested klines of a history, each under its own open time. */
  lemma FreshExactly(r: DownloadRequest, h: seq<Json>, interval: string, serverMs: int, k: int)
    requires History(h, interval)
    ensures k in FreshFor(r, h, interval, serverMs) <==> exists i :: 0 <= i < |h| && Requested(h[i], k, r, serverMs)
    ensures k in FreshFor(r, h, interval, serverMs) ==>
              FreshFor(r, h, interval, serverMs)[k] in h && Requested(FreshFor(r, h, interval, serverMs)[k], k, r, serverMs)
  {
    hide KlineSpan, Wanted;
    var s := r.SliceAt(interval, serverMs);
    WantedKeys(h, s, s.startMs);
    var rows := FreshFor(r, h, interval, serverMs);
    if i :| 0 <= i < |h| && Requested(h[i], k, r, serverMs) {
      ValidRowExactly(h[i], interval);
      RowAhead(h[i], interval);
    }
    if k in rows {
      ValidRowExactly(rows[k], interval);
      RowAhead(rows[k], interval);
      var i :| 0 <= i < |h| && h[i] == rows[k];
    }
  }

  lemma FreshIsGood(r: DownloadRequest, h: seq<Json>, interval: string, serverMs: int)
    requires History(h, interval) && Representable(r.endUs / 1000)
    ensures GoodRows(FreshFor(r, h, interval, serverMs), interval)
  {
    hide KlineSpan;
    var s := r.SliceAt(interval, serverMs);
    WantedKeys(h, s, s.startMs);
    var rows := FreshFor(r, h, interval, serverMs);
    forall k | k in rows ensures ValidRow(rows[k], interval) && Open(rows[k], interval) == k && Representable(Close(rows[k], interval)) {
      RowAhead(rows[k], interval);
    }
  }

  ghost predicate IsFileOf(lines: seq<Json>, p: Pair, rows: map<int, Json>) {
    rows != map[] && GoodRows(rows, p.interval) && lines == FileOf(p.symbol.Text(), p.interval, rows)
  }

  /** Every pair done has its fresh file, if it has rows at all. */
  ghost predicate Delivered(files: map<string, seq<Json>>, pairs: seq<Pair>, r: DownloadRequest, history: Pair -> seq<Json>, serverMs: int) {
    forall p :: p in pairs && FreshFor(r, history(p), p.interval, serverMs) != map[] ==>
      p.Name() in files && IsFileOf(files[p.Name()], p, FreshFor(r, history(p), p.interval, serverMs))
  }

  lemma NothingYet(files: map<string, seq<Json>>, r: DownloadRequest, history: Pair -> seq<Json>, serverMs: int)
    requires Representable(r.endUs / 1000)
    ensures Delivered(files, [], r, history, serverMs) && Listing([], r, history, serverMs) == []
  {
  }

  lemma DeliveredOneMore(before: map<string, seq<Json>>, after: map<string, seq<Json>>, pairs: seq<Pair>, p: Pair,
                         r: DownloadRequest, history: Pair -> seq<Json>, serverMs: int)
    requires r.Valid() && r.Asks(p) && forall q :: q in pairs ==> r.Asks(q)
    requires Delivered(before, pairs, r, history, serverMs)
    requires forall name :: name != p.Name() ==> (name in after <==> name in before) && (name in after ==> after[name] == before[name])
    requires var rows := FreshFor(r, history(p), p.interval, serverMs);
             rows != map[] ==> p.Name() in after && IsFileOf(after[p.Name()], p, rows)
    ensures Delivered(after, pairs + [p], r, history, serverMs)
  {
    hide FreshFor, IsFileOf, Pair.Name;
    forall q | q in pairs + [p] && FreshFor(r, history(q), q.interval, serverMs) != map[]
      ensures q.Name() in after && IsFileOf(after[q.Name()], q, FreshFor(r, history(q), q.interval, serverMs))
    {
      if q.Name() == p.Name() { SameName(q, p, r); }
    }
  }

  lemma ListingOneMore(pairs: seq<Pair>, p: Pair, r: DownloadRequest, history: Pair -> seq<Json>, serverMs: int)
    requires Representable(r.endUs / 1000)
    requires forall q :: q in pairs + [p] ==> History(history(q), q.interval)
    ensures forall q :: q in pairs ==> History(history(q), q.interval)
    ensures var rows := FreshFor(r, history(p), p.interval, serverMs);
            (rows != map[] ==> GoodRows(rows, p.interval)) &&
            Listing(pairs + [p], r, history, serverMs) ==
              Listing(pairs, r, history, serverMs) + if rows == map[] then [] else [InfoFor(p, rows)]
  {
    hide FreshFor, InfoFor, GoodRows, History;
    assert p in pairs + [p];
    forall q | q in pairs ensures History(history(q), q.interval) { assert q in pairs + [p]; }
    FreshIsGood(r, history(p), p.interval, serverMs);
    assert (pairs + [p])[..|pairs|] == pairs;
  }

  /** A file entry that counts the rows of its pair and spans them from the first open to the last end. */
  ghost predicate Covers(info: FileInfo, p: Pair, rows: map<int, Json>) {
    && info.name == RawOutputName(p.symbol.Text(), p.interval) && info.records == |rows| && info.rangeStart in rows
    && (forall k :: k in rows ==> ValidRow(rows[k], p.interval) && info.rangeStart <= k && Close(rows[k], p.interval) <= info.rangeEnd)
    && (exists k :: k in rows && ValidRow(rows[k], p.interval) && Close(rows[k], p.interval) == info.rangeEnd)
  }

  lemma InfoCovers(p: Pair, rows: map<int, Json>)
    requires rows != map[] && GoodRows(rows, p.interval)
    ensures Covers(InfoFor(p, rows), p, rows)
  {
    hide KlineSpan, BoundaryAfter, RawOutputName;
    var k := MaxKey(rows);
    RowAhead(rows[k], p.interval);
    forall j | j in rows ensures Close(rows[j], p.interval) <= Close(rows[k], p.interval) {
      if j < k { RowOrder(rows[j], rows[k], p.interval); }
    }
  }

  /** The manifest repeats the request and the server time; its records are those of its files. */
  lemma ManifestTells(r: DownloadRequest, files: seq<FileInfo>, complete: bool, failed: bool, serverMs: Option<int>)
    ensures var m := BuildManifest(r, files, complete, failed, serverMs);
            && m.datasetId == r.datasetId && m.symbols == r.symbols && m.intervals == r.intervals && m.pageLimit == r.pageLimit
            && m.requestedStartUs == r.startUs && m.requestedEndUs == r.endUs && m.serverMs == serverMs
            && m.files == files && m.complete == complete && m.failed == failed
            && m.recordCount == TotalOf(files, (f: FileInfo) => f.records)
  {
    RecordsAdd(files);
  }

  function TotalOf<T>(items: seq<T>, count: T -> nat): nat {
    if items == [] then 0 else TotalOf(items[..|items| - 1], count) + count(items[|items| - 1])
  }

  lemma {:induction false} RecordsAdd(files: seq<FileInfo>)
    ensures RecordTotal(files) == TotalOf(files, (f: FileInfo) => f.records)
  {
    if files != [] { RecordsAdd(files[..|files| - 1]); }
  }

  datatype PairOutcome = PairValueError | PairFailed | PairRows(rows: map<int, Json>)

  lemma HonestHistories(world: World, r: DownloadRequest, history: Pair -> seq<Json>)
    requires Honest(world, r, history)
    ensures forall p: Pair {:trigger history(p)} :: r.Asks(p) ==> History(history(p), p.interval)
  {
  }

  lemma SameName(p: Pair, q: Pair, r: DownloadRequest)
    requires r.Valid() && r.Asks(p) && r.Asks(q) && p.Name() == q.Name()
    ensures p == q
  {
    hide RawOutputName;
    RawNameOrder(p.symbol, p.interval, q.symbol, q.interval);
  }

  /** The pairs of a request in the order in which its two nested loops visit them, which is (symbol, interval) order. */
  method RequestedPairs(r: DownloadRequest) returns (pairs: seq<Pair>)
    requires r.Valid()
    ensures forall p :: p in pairs <==> r.Asks(p)
    ensures forall i, j :: 0 <= i < j < |pairs| ==> PairLess(pairs[i].symbol, pairs[i].interval, pairs[j].symbol, pairs[j].interval)
  {
    hide LexLess;
    pairs := [];
    for a := 0 to |r.symbols|
      invariant forall p :: p in pairs <==> p.symbol in r.symbols[..a] && p.interval in r.intervals
      invariant forall i, j :: 0 <= i < j < |pairs| ==> PairLess(pairs[i].symbol, pairs[i].interval, pairs[j].symbol, pairs[j].interval)
    {
      for b := 0 to |r.intervals|
        invariant forall p :: p in pairs <==>
                    (p.symbol in r.symbols[..a] && p.interval in r.intervals) || (p.symbol == r.symbols[a] && p.interval in r.intervals[..b])
        invariant forall i, j :: 0 <= i < j < |pairs| ==> PairLess(pairs[i].symbol, pairs[i].interval, pairs[j].symbol, pairs[j].interval)
      {
        forall i | 0 <= i < |pairs| ensures PairLess(pairs[i].symbol, pairs[i].interval, r.symbols[a], r.intervals[b]) {
          assert pairs[i] in pairs;
        }
        assert r.intervals[..b + 1] == r.intervals[..b] + [r.intervals[b]];
        pairs := pairs + [Pair(r.symbols[a], r.intervals[b])];
      }
      assert r.intervals[..|r.intervals|] == r.intervals;
      assert r.symbols[..a + 1] == r.symbols[..a] + [r.symbols[a]];
    }
    assert r.symbols[..|r.symbols|] == r.symbols;
  }

  /** The listing that a fresh run of these pairs gives: the pairs that have rows. */
  function Listing(pairs: seq<Pair>, r: DownloadRequest, history: Pair -> seq<Json>, serverMs: int): seq<FileInfo>
    requires Representable(r.endUs / 1000)
    requires forall p :: p in pairs ==> History(history(p), p.interval)
  {
    if pairs == [] then []
    else
      var p := pairs[|pairs| - 1];
      var rows := FreshFor(r, history(p), p.interval, serverMs);
      FreshIsGood(r, history(p), p.interval, serverMs);
      Listing(pairs[..|pairs| - 1], r, history, serverMs) + if rows == map[] then [] else [InfoFor(p, rows)]
  }

  /** What a run starts from: the rows of the stored file, if it resumes and there is one. */
  function Stored(files: map<string, seq<Json>>, r: DownloadRequest, p: Pair): Result<map<int, Json>, RowError> {
    if r.resume && p.Name() in files then ReadRows(files[p.Name()], p.interval) else Ok(map[])
  }

  /** Stored rows are kept, and nothing that they cover is asked for again. */
  ghost predicate Resumed(stored: map<int, Json>, rows: map<int, Json>, asked: seq<int>, interval: string, startMs: int) {
    && (forall k :: k in stored ==> k in rows && rows[k] == stored[k])
    && Watermark(stored, interval).Ok?
    && forall i :: 0 <= i < |asked| ==> asked[i] >= startMs && asked[i] >= Watermark(stored, interval).value
  }

  lemma ResumedFrom(s: Slice, stored: map<int, Json>, rows: map<int, Json>, asked: seq<int>, startMs: int)
    requires Collected(s, stored, rows) && Rising(asked, s.startMs, s.endMs)
    requires Watermark(stored, s.interval).Ok? && s.startMs >= startMs && s.startMs >= Watermark(stored, s.interval).value
    ensures Resumed(stored, rows, asked, s.interval, startMs)
  {
    hide KlineSpan, Watermark;
  }

  /** The watermark is the end of the latest stored row. */
  lemma WatermarkIsLatest(rows: map<int, Json>, interval: string)
    requires GoodRows(rows, interval) && rows != map[]
    ensures Watermark(rows, interval).Ok?
    ensures exists k :: k in rows && Close(rows[k], interval) == Watermark(rows, interval).value
    ensures forall k :: k in rows ==> Close(rows[k], interval) <= Watermark(rows, interval).value
  {
    hide KlineSpan, BoundaryAfter;
    var k := MaxKey(rows);
    RowAhead(rows[k], interval);
    forall j | j in rows ensures Close(rows[j], interval) <= Close(rows[k], interval) {
      if j < k { RowOrder(rows[j], rows[k], interval); }
    }
  }

  /** The file of a pair is what a fresh run yielded when it was written. */
  ghost predicate FreshIn(files: map<string, seq<Json>>, writtenAt: map<string, int>, p: Pair, r: DownloadRequest, h: seq<Json>, latestMs: int) {
    && p.Name() in files && p.Name() in writtenAt && writtenAt[p.Name()] <= latestMs
    && IsFileOf(files[p.Name()], p, FreshFor(r, h, p.interval, writtenAt[p.Name()]))
  }

  /** Writing the file of one pair leaves those of the others as they were. */
  lemma OthersStayFresh(files: map<string, seq<Json>>, writtenAt: map<string, int>, p: Pair, file: seq<Json>, serverMs: int,
                        r: DownloadRequest, history: Pair -> seq<Json>)
    requires r.Valid() && r.Asks(p) && IsFileOf(file, p, FreshFor(r, history(p), p.interval, serverMs))
    requires forall q: Pair {:trigger history(q)} :: r.Asks(q) && q.Name() in files ==> FreshIn(files, writtenAt, q, r, history(q), serverMs)
    ensures forall q: Pair {:trigger history(q)} :: r.Asks(q) && q.Name() in files[p.Name() := file] ==>
              FreshIn(files[p.Name() := file], writtenAt[p.Name() := serverMs], q, r, history(q), serverMs)
  {
    hide IsFileOf, FreshFor, Pair.Name, DownloadRequest.Valid;
    forall q: Pair | r.Asks(q) && q.Name() in files[p.Name() := file]
      ensures FreshIn(files[p.Name() := file], writtenAt[p.Name() := serverMs], q, r, history(q), serverMs)
    {
      if q.Name() == p.Name() {
        SameName(q, p, r);
      } else {
        assert FreshIn(files, writtenAt, q, r, history(q), serverMs);
      }
    }
  }

  class DatasetDirectory {
    var files: map<string, seq<Json>>
    var manifest: Option<DownloadManifest>
    ghost var writtenAt: map<string, int>   // the server time of the run that wrote each file

    /** Every file of the request is what a fresh run yielded at the server time it was written. */
    ghost predicate Consistent(r: DownloadRequest, history: Pair -> seq<Json>, latestMs: int)
      reads `files, `writtenAt
    {
      forall p: Pair {:trigger history(p)} :: r.Asks(p) && p.Name() in files ==> FileIsFresh(p, r, history(p), latestMs)
    }

    ghost predicate FileIsFresh(p: Pair, r: DownloadRequest, h: seq<Json>, latestMs: int)
      reads `files, `writtenAt
    {
      FreshIn(files, writtenAt, p, r, h, latestMs)
    }

    /** One pair: read what is there, page from the watermark, merge, write. */
    method DownloadPair(r: DownloadRequest, world: World, p: Pair, ghost history: Pair -> seq<Json>)
      returns (o: PairOutcome, ghost asked: seq<int>)
      requires r.Valid() && r.Asks(p) && world.serverMs.Some?
      modifies `files, `writtenAt
      ensures forall name :: name != p.Name() ==> (name in files <==> name in old(files)) && (name in files ==> files[name] == old(files)[name])
      ensures o.PairRows? ==> GoodRows(o.rows, p.interval) || o.rows == map[]
      ensures o == PairFailed ==> files == old(files)
      ensures o.PairRows? ==>
                var stored := Stored(old(files), r, p);
                stored.Ok? && Resumed(stored.value, o.rows, asked, p.interval, r.startUs / 1000)
      ensures Honest(world, r, history) && old(Consistent(r, history, world.serverMs.value)) ==>
                && o != PairValueError
                && Consistent(r, history, world.serverMs.value)
                && (Undisturbed(world, r) ==> o.PairRows?)
                && (o.PairRows? ==>
                      && o.rows == FreshFor(r, history(p), p.interval, world.serverMs.value)
                      && (o.rows != map[] ==> p.Name() in files && IsFileOf(files[p.Name()], p, o.rows)))
    {
      hide KlineSpan, BoundaryAfter, FreshRows, GoodRows, FileOf, Watermark, HonestOrFailing, Pair.Name, PairLess;
      hide Rising, KlineEndpoint.LastFailed, NeverFails, Collected, Wanted, FirstKlines, Representable, Resumed;
      asked := [];
      var s := r.SliceAt(p.interval, world.serverMs.value);
      ghost var trusted := Honest(world, r, history) && Consistent(r, history, world.serverMs.value);
      var existing: map<int, Json> := map[];
      ghost var at := world.serverMs.value;
      if r.resume && p.Name() in files {
        var read := ReadKlineFile(files[p.Name()], p.interval);
        if trusted {
          assert FileIsFresh(p, r, history(p), world.serverMs.value);
          at := writtenAt[p.Name()];
          ReadBack(p.symbol.Text(), p.interval, FreshFor(r, history(p), p.interval, at));
        }
        if read.Err? {
          return PairValueError, asked;
        }
        existing := read.value;
      }
      var watermark := Watermark(existing, p.interval);
      if trusted { ResumeStart(r, history(p), p.interval, at, world.serverMs.value, existing); }
      if watermark.Err? {
        return PairValueError, asked;
      }
      var from := if r.startUs / 1000 >= watermark.value then r.startUs / 1000 else watermark.value;
      StartIsValid(r, existing, p.interval, world.serverMs.value, from);
      if trusted { HonestAnyStart(world.server(p), history(p), r, p.interval, world.serverMs.value, from); }
      var endpoint := new KlineEndpoint(world.server(p));
      var paged;
      paged, asked := DownloadOne(s.(startMs := from), existing, endpoint, history(p));
      endpoint.NothingFailed();
      if paged.Err? {
        return PairFailed, asked;
      }
      ResumedFrom(s.(startMs := from), existing, paged.value, asked, r.startUs / 1000);
      if paged.value != map[] {
        if !world.writable(p) {
          return PairFailed, asked;
        }
        var written := WriteKlineFile(p.symbol.Text(), p.interval, paged.value);
        if trusted { FreshIsGood(r, history(p), p.interval, world.serverMs.value); }
        if written.Err? {
          return PairValueError, asked;
        }
        if trusted { OthersStayFresh(files, writtenAt, p, written.value, world.serverMs.value, r, history); }
        files := files[p.Name() := written.value];
        writtenAt := writtenAt[p.Name() := world.serverMs.value];
      }
      return PairRows(paged.value), asked;
    }

    /** One run over the directory; `latestMs` bounds the server times of the runs before it. It may stop at any pair, and
        whatever it leaves behind is consistent. If it completes, then every file and the manifest are those of a fresh run
        at its server time: what earlier runs had stored, and whether it resumed, leaves no trace. */
    method Download(r: DownloadRequest, world: World, ghost history: Pair -> seq<Json>, ghost latestMs: int)
      returns (o: DownloadOutcome, ghost pairs: seq<Pair>, ghost finished: nat)
      requires r.Valid()
      modifies this
      ensures o.Finished? ==> manifest == Some(o.manifest)
      ensures o == ValueError ==> manifest == old(manifest) || (manifest.Some? && !manifest.value.complete)
      ensures old(manifest).Some? && old(manifest).value.complete ==>
                && o == (if old(manifest).value.datasetId == r.datasetId then Finished(old(manifest).value) else ValueError)
                && files == old(files)
      ensures old(manifest).Some? && r.resume && old(manifest).value.datasetId != r.datasetId ==> o == ValueError && files == old(files)
      ensures old(Startable(r)) && Honest(world, r, history) && old(Consistent(r, history, latestMs))
              && (world.serverMs.Some? ==> latestMs <= world.serverMs.value) ==>
                && o.Finished? && finished <= |pairs|
                && Consistent(r, history, if world.serverMs.Some? then world.serverMs.value else latestMs)
                && (Undisturbed(world, r) ==> o.manifest.complete)
                && (o.manifest.complete ==> finished == |pairs| && world.serverMs.Some?)
                && (world.serverMs.None? ==> o.manifest == BuildManifest(r, [], false, true, None))
                && (world.serverMs.Some? ==>
                      && (forall p :: p in pairs <==> r.Asks(p))
                      && (forall i, j :: 0 <= i < j < |pairs| ==> PairLess(pairs[i].symbol, pairs[i].interval, pairs[j].symbol, pairs[j].interval))
                      && Delivered(files, pairs[..finished], r, history, world.serverMs.value)
                      && o.manifest == BuildManifest(r, Listing(pairs[..finished], r, history, world.serverMs.value),
                                                     o.manifest.complete, !o.manifest.complete, world.serverMs))
    {
      pairs, finished := [], 0;
      if manifest.Some? && manifest.value.complete {
        if manifest.value.datasetId != r.datasetId {
          return ValueError, pairs, finished;
        }
        return Finished(manifest.value), pairs, finished;
      }
      if manifest.Some? && r.resume && manifest.value.datasetId != r.datasetId {
        return ValueError, pairs, finished;
      }
      if world.serverMs.None? {
        manifest := Some(BuildManifest(r, [], false, true, None));
        return Finished(manifest.value), pairs, finished;
      }
      if Startable(r) && Honest(world, r, history) && Consistent(r, history, latestMs) && latestMs <= world.serverMs.value {
        LaterStillConsistent(r, history, latestMs, world.serverMs.value);
      }
      o, pairs, finished := DownloadPairs(r, world, history);
    }

    method DownloadPairs(r: DownloadRequest, world: World, ghost history: Pair -> seq<Json>)
      returns (o: DownloadOutcome, ghost pairs: seq<Pair>, ghost finished: nat)
      requires r.Valid() && world.serverMs.Some?
      requires manifest.Some? ==> !manifest.value.complete
      modifies this
      ensures o.Finished? ==> manifest == Some(o.manifest)
      ensures o == ValueError ==> manifest == old(manifest) || (manifest.Some? && !manifest.value.complete)
      ensures Honest(world, r, history) && old(Consistent(r, history, world.serverMs.value)) ==>
                && o.Finished? && finished <= |pairs|
                && Consistent(r, history, world.serverMs.value)
                && (Undisturbed(world, r) ==> o.manifest.complete)
                && (o.manifest.complete ==> finished == |pairs|)
                && (forall p :: p in pairs <==> r.Asks(p))
                && (forall i, j :: 0 <= i < j < |pairs| ==> PairLess(pairs[i].symbol, pairs[i].interval, pairs[j].symbol, pairs[j].interval))
                && Delivered(files, pairs[..finished], r, history, world.serverMs.value)
                && (forall p :: p in pairs[..finished] ==> History(history(p), p.interval))
                && o.manifest == BuildManifest(r, Listing(pairs[..finished], r, history, world.serverMs.value),
                                               o.manifest.complete, !o.manifest.complete, world.serverMs)
    {
      hide KlineSpan, BoundaryAfter, FreshFor, GoodRows, FileOf, InfoFor, Pair.Name, PairLess, Listing, Delivered;
      hide RecordTotal, Honest, Undisturbed, Consistent, IsFileOf, History, LexLess;
      var requested := RequestedPairs(r);
      pairs := requested;
      ghost var serverMs := world.serverMs.value;
      ghost var trusted := Honest(world, r, history) && Consistent(r, history, serverMs);
      if trusted { HonestHistories(world, r, history); }
      NothingYet(files, r, history, serverMs);
      var infos: seq<FileInfo> := [];
      for n := 0 to |requested|
        invariant manifest == old(manifest) || (manifest.Some? && !manifest.value.complete)
        invariant trusted ==> Consistent(r, history, serverMs) && Delivered(files, requested[..n], r, history, serverMs)
        invariant trusted ==> infos == Listing(requested[..n], r, history, serverMs)
      {
        finished := n;
        var p := requested[n];
        ghost var before := files;
        var outcome, _ := DownloadPair(r, world, p, history);
        assert requested[..n + 1] == requested[..n] + [p];
        match outcome
        case PairValueError =>
          return ValueError, pairs, finished;
        case PairFailed =>
          manifest := Some(BuildManifest(r, infos, false, true, world.serverMs));
          return Finished(manifest.value), pairs, finished;
        case PairRows(rows) =>
          if trusted {
            DeliveredOneMore(before, files, requested[..n], p, r, history, serverMs);
            ListingOneMore(requested[..n], p, r, history, serverMs);
          }
          if rows != map[] {
            infos := infos + [InfoFor(p, rows)];
          }
          manifest := Some(BuildManifest(r, infos, false, false, world.serverMs));
      }
      finished := |requested|;
      assert requested[..|requested|] == requested;
      manifest := Some(BuildManifest(r, infos, true, false, world.serverMs));
      return Finished(manifest.value), pairs, finished;
    }

    /** Between two runs the histories may grow: the directory stays consistent. */
    lemma GrownHistoriesStillConsistent(r: DownloadRequest, earlier: Pair -> seq<Json>, later: Pair -> seq<Json>, latestMs: int)
      requires Consistent(r, earlier, latestMs)
      requires forall p: Pair {:trigger earlier(p)} {:trigger later(p)} :: r.Asks(p) ==>
                 History(earlier(p), p.interval) && History(later(p), p.interval) && AppendOnly(earlier(p), latestMs, later(p), p.interval)
      ensures Consistent(r, later, latestMs)
    {
      hide KlineSpan, Pair.Name, IsFileOf;
      forall p: Pair | r.Asks(p) && p.Name() in files ensures FileIsFresh(p, r, later(p), latestMs) {
        assert FileIsFresh(p, r, earlier(p), latestMs);
        var s := r.SliceAt(p.interval, writtenAt[p.Name()]);
        assert AppendOnly(earlier(p), s.serverMs, later(p), s.interval);
        HistoryCarriesOver(earlier(p), later(p), s);
      }
    }

    lemma LaterStillConsistent(r: DownloadRequest, history: Pair -> seq<Json>, early: int, late: int)
      requires Consistent(r, history, early) && early <= late
      ensures Consistent(r, history, late)
    {
      hide Pair.Name, IsFileOf, FreshFor;
    }

    /** The run gets past the checks on an existing manifest. */
    ghost predicate Startable(r: DownloadRequest)
      reads this
    {
      manifest.Some? ==> !manifest.value.complete && (r.resume ==> manifest.value.datasetId == r.datasetId)
    }

  }

  lemma StartIsValid(r: DownloadRequest, existing: map<int, Json>, interval: string, serverMs: int, from: int)
    requires r.Valid() && interval in r.intervals
    requires Watermark(existing, interval).Ok?
    requires from == if r.startUs / 1000 >= Watermark(existing, interval).value then r.startUs / 1000 else Watermark(existing, interval).value
    ensures ValidSlice(r.SliceAt(interval, serverMs).(startMs := from))
  {
    if existing != map[] {
      BoundaryAhead(MaxKey(existing), interval);
    }
  }

  lemma RequestedSlice(r: DownloadRequest, interval: string, serverMs: int)
    requires r.Valid() && interval in r.intervals
    ensures ValidSlice(r.SliceAt(interval, serverMs))
  {
  }

  lemma WatermarkAhead(rows: map<int, Json>, interval: string)
    requires rows != map[] && Watermark(rows, interval).Ok?
    ensures Watermark(rows, interval).value >= 0
  {
    BoundaryAhead(MaxKey(rows), interval);
  }

  /** Where a run restarts, and what merging then gives. */
  lemma ResumeStart(r: DownloadRequest, h: seq<Json>, interval: string, at: int, serverMs: int, existing: map<int, Json>)
    requires r.Valid() && interval in r.intervals && History(h, interval)
    requires existing == map[] || (at <= serverMs && existing == FreshFor(r, h, interval, at))
    ensures Watermark(existing, interval).Ok?
    ensures var w := Watermark(existing, interval).value;
            var from := if r.startUs / 1000 >= w then r.startUs / 1000 else w;
            var s := r.SliceAt(interval, serverMs).(startMs := from);
            Wanted(h, s, from) + existing == FreshFor(r, h, interval, serverMs)
  {
    hide KlineSpan, BoundaryAfter, Wanted, History, GoodRows, ValidSlice, Watermark;
    if existing == map[] {
      NoWatermark(interval);
      var s := r.SliceAt(interval, serverMs);
      WantedDependsOn(h, s.(startMs := s.startMs), s, s.startMs);
    } else {
      RequestedSlice(r, interval, serverMs);
      ResumeStored(h, r.SliceAt(interval, serverMs), r.startUs / 1000, at, existing);
    }
  }

  lemma NoWatermark(interval: string)
    ensures Watermark(map[], interval) == Ok(0)
  {
  }

  lemma ResumeStored(h: seq<Json>, s: Slice, start: int, at: int, existing: map<int, Json>)
    requires ValidSlice(s) && History(h, s.interval) && at <= s.serverMs && s.startMs == (if start >= 0 then start else 0)
    requires existing != map[] && existing == FreshRows(h, s.(serverMs := at))
    ensures Watermark(existing, s.interval).Ok?
    ensures var w := Watermark(existing, s.interval).value;
            var from := if start >= w then start else w;
            Wanted(h, s.(startMs := from), from) + existing == FreshRows(h, s)
  {
    hide KlineSpan, BoundaryAfter, Wanted, History, ValidSlice, Watermark, FreshRows;
    ResumeEqualsFresh(h, s.(serverMs := at), s);
    WatermarkAhead(existing, s.interval);
    var w := Watermark(existing, s.interval).value;
    var from := if s.startMs >= w then s.startMs else w;
    WantedDependsOn(h, s.(startMs := from), s, from);
  }

  lemma HonestAnyStart(server: Server, h: seq<Json>, r: DownloadRequest, interval: string, serverMs: int, from: int)
    requires History(h, interval) && HonestOrFailing(server, h, r.SliceAt(interval, 0))
    ensures HonestOrFailing(server, h, r.SliceAt(interval, serverMs).(startMs := from))
  {
    hide KlineSpan, FirstKlines;
  }
}
