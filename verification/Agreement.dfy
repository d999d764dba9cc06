/** The downloader against the converter: what one writes, the other reads, up to the research manifest. */
module Agreement {
  import opened Wrappers
  import opened Json
  import opened Intervals
  import opened TextOrder
  import opened Downloader
  import opened Dataset
  import opened Converter
  import opened ConversionStream
  import opened Manifest

  // ---------------------------------------------------------------- bytes of a raw file

  function Encoded(encode: Json -> seq<Byte>, records: seq<Json>): (lines: seq<seq<Byte>>)
    ensures |lines| == |records| && forall i :: 0 <= i < |records| ==> lines[i] == encode(records[i]) + [NEWLINE]
  {
    seq(|records|, i requires 0 <= i < |records| => encode(records[i]) + [NEWLINE])
  }

  function FileBytes(encode: Json -> seq<Byte>, records: seq<Json>): seq<Byte> { Joined(Encoded(encode, records)) }

  /** The text of a record has no newline. Read with its line ending, the record comes back, unless it holds a number that is
      not finite: such a text is not JSON. */
  ghost predicate ReadsAsWritten(encode: Json -> seq<Byte>, codec: Codec, records: seq<Json>) {
    forall i :: 0 <= i < |records| ==>
      NEWLINE !in encode(records[i]) && codec.decode(encode(records[i]) + [NEWLINE]) == DecodedRecord(records[i])
  }

  function DecodedRecord(record: Json): Decoded { if AllFinite(record) then Parsed(record) else Decoded.NotJson }

  /** The converter sees the lines that were written. */
  lemma {:induction false} LinesWritten(lines: seq<seq<Byte>>)
    requires forall line :: line in lines ==> IsLine(line) && line[|line| - 1] == NEWLINE
    ensures Lines(Joined(lines)) == lines
  {
    hide IsLine;
    if lines != [] {
      var first, rest := lines[0], lines[1..];
      assert lines == [first] + rest;
      JoinedFirst(first, rest);
      LinesWritten(rest);
      assert first in lines;
      FirstLineOf(first, Joined(rest));
      NotEmpty(first);
      LinesStep(first + Joined(rest));
    }
  }

  lemma NotEmpty(line: seq<Byte>)
    requires IsLine(line)
    ensures line != []
  {
  }

  lemma EncodedLines(encode: Json -> seq<Byte>, codec: Codec, records: seq<Json>)
    requires ReadsAsWritten(encode, codec, records)
    ensures Lines(FileBytes(encode, records)) == Encoded(encode, records)
  {
    var lines := Encoded(encode, records);
    forall line | line in lines ensures IsLine(line) && line[|line| - 1] == NEWLINE {
      var i :| 0 <= i < |lines| && lines[i] == line;
      assert forall j :: 0 <= j < |line| - 1 ==> line[j] == encode(records[i])[j] && encode(records[i])[j] in encode(records[i]);
    }
    LinesWritten(lines);
  }

  // ---------------------------------------------------------------- one record

  /** What becomes of a line whose envelope, range and order are right. */
  function Outcome(bytes: seq<Byte>, row: Json, ctx: Context): Result<Candle, Converter.FailureKind> {
    if |bytes| > ctx.maxLineBytes then Err(LineTooLarge)
    else if !AllFinite(row) then Err(MalformedJson)
    else match CandleFromKline(row, ctx.symbol, ctx.interval)
      case Err(_) => Err(InvalidCandle)
      case Ok(candle) => Ok(candle)
  }

  lemma EnvelopeWritten(open: int, row: Json, ctx: Context)
    requires RecordLine(ctx.symbol, ctx.interval, open, row).Ok?
    ensures var record := RecordLine(ctx.symbol, ctx.interval, open, row).value;
            && IsEnvelope(record, ctx) && Field(record, "payload", ctx) == row
            && Representable(open) && Representable(Close(row, ctx.interval)) && ValidRow(row, ctx.interval) && Open(row, ctx.interval) == open
            && Field(record, "open_time", ctx) == Str(IsoMs(open)) && Field(record, "close_time", ctx) == Str(IsoMs(Close(row, ctx.interval)))
  {
    hide IsoMs, BoundaryAfter;
    RecordLineOk(ctx.symbol, ctx.interval, open, row);
    OpenField(row, ctx.interval);
  }

  lemma RecordFinite(open: int, row: Json, ctx: Context)
    requires RecordLine(ctx.symbol, ctx.interval, open, row).Ok?
    ensures AllFinite(RecordLine(ctx.symbol, ctx.interval, open, row).value) <==> AllFinite(row)
  {
    hide IsoMs, BoundaryAfter;
    var record := RecordLine(ctx.symbol, ctx.interval, open, row).value;
    assert record.members["payload"] == row;
  }

  lemma RecordJudged(codec: Codec, bytes: seq<Byte>, open: int, row: Json, ctx: Context, previous: Option<int>)
    requires RecordLine(ctx.symbol, ctx.interval, open, row).Ok?
    requires codec.decode(bytes) == DecodedRecord(RecordLine(ctx.symbol, ctx.interval, open, row).value)
    requires ctx.StartMs() <= open && ValidRow(row, ctx.interval) && Close(row, ctx.interval) <= ctx.EndMs()
    requires previous.Some? ==> previous.value <= open
    ensures Judge(codec, bytes, ctx, previous) == Outcome(bytes, row, ctx)
    ensures Outcome(bytes, row, ctx).Ok? ==> Outcome(bytes, row, ctx).value.openMs == open
  {
    hide RecordLine, IsEnvelope, Field, CandleFromKline, CheckCandle, IsoMs, BoundaryAfter, KlineSpan, Representable, ValidRow, Open, Close;
    EnvelopeWritten(open, row, ctx);
    RecordFinite(open, row, ctx);
    var record := RecordLine(ctx.symbol, ctx.interval, open, row).value;
    hide AllFinite;
    if CandleFromKline(row, ctx.symbol, ctx.interval).Ok? {
      CandleChecked(record, open, row, ctx, previous);
    }
  }

  lemma CandleChecked(record: Json, open: int, row: Json, ctx: Context, previous: Option<int>)
    requires CandleFromKline(row, ctx.symbol, ctx.interval).Ok? && IsEnvelope(record, ctx)
    requires ValidRow(row, ctx.interval) && Open(row, ctx.interval) == open && Representable(open) && Representable(Close(row, ctx.interval))
    requires Field(record, "open_time", ctx) == Str(IsoMs(open)) && Field(record, "close_time", ctx) == Str(IsoMs(Close(row, ctx.interval)))
    requires ctx.StartMs() <= open && Close(row, ctx.interval) <= ctx.EndMs() && (previous.Some? ==> previous.value <= open)
    ensures var candle := CandleFromKline(row, ctx.symbol, ctx.interval).value;
            CheckCandle(record, candle, ctx, previous).None? && candle.openMs == open
  {
    hide IsEnvelope, Field, CandleFromKline, IsoMs, BoundaryAfter, KlineSpan, Representable;
    CandleTimes(row, ctx.symbol, ctx.interval);
  }

  // ---------------------------------------------------------------- one file

  lemma {:induction false} LinesForAt(symbol: string, interval: string, rows: map<int, Json>, opens: seq<int>, i: nat)
    requires GoodRows(rows, interval) && (forall k :: k in opens ==> k in rows) && i < |opens|
    ensures |LinesFor(symbol, interval, rows, opens)| == |opens|
    ensures opens[i] in rows && RecordLine(symbol, interval, opens[i], rows[opens[i]]).Ok?
    ensures LinesFor(symbol, interval, rows, opens)[i] == RecordLine(symbol, interval, opens[i], rows[opens[i]]).value
  {
    hide RecordLine, GoodRows;
    var init, last := opens[..|opens| - 1], opens[|opens| - 1];
    assert opens == init + [last];
    assert forall k :: k in init ==> k in opens;
    assert opens[i] in opens && last in opens;
    LinesForStep(symbol, interval, rows, init, last);
    if init == [] {
      LinesForNothing(symbol, interval, rows);
    } else {
      LinesForAt(symbol, interval, rows, init, if i < |init| then i else 0);
    }
  }

  /** The rows of a file lie in the range of the conversion. */
  ghost predicate RowsInRange(rows: map<int, Json>, ctx: Context) {
    && GoodRows(rows, ctx.interval)
    && forall k :: k in rows ==> ctx.StartMs() <= k && Close(rows[k], ctx.interval) <= ctx.EndMs()
  }

  lemma FileOfAt(rows: map<int, Json>, ctx: Context, i: nat)
    requires RowsInRange(rows, ctx) && i < |rows|
    ensures |FileOf(ctx.symbol, ctx.interval, rows)| == |rows| == |Sorted(rows.Keys)|
    ensures var k := Sorted(rows.Keys)[i];
            && k in rows && ValidRow(rows[k], ctx.interval) && ctx.StartMs() <= k && Close(rows[k], ctx.interval) <= ctx.EndMs()
            && RecordLine(ctx.symbol, ctx.interval, k, rows[k]) == Ok(FileOf(ctx.symbol, ctx.interval, rows)[i])
  {
    hide RecordLine, Sorted, LinesFor;
    LinesForAt(ctx.symbol, ctx.interval, rows, Sorted(rows.Keys), i);
  }

  /** Every line, judged after candles that do not open later, is its own kline or refused. */
  ghost predicate OwnOpens(codec: Codec, ctx: Context, lines: seq<seq<Byte>>, opens: seq<int>) {
    |lines| == |opens| &&
    forall i, previous: Option<int> :: 0 <= i < |lines| && (previous.Some? ==> previous.value <= opens[i]) ==>
      Judge(codec, lines[i], ctx, previous).Ok? ==> Judge(codec, lines[i], ctx, previous).value.openMs == opens[i]
  }

  /** The open of the last accepted candle is one of the opens so far, and so is that of every accepted candle. */
  lemma {:induction false} PreviousIsEarlier(codec: Codec, ctx: Context, lines: seq<seq<Byte>>, opens: seq<int>, n: nat)
    requires OwnOpens(codec, ctx, lines, opens) && Ascending(opens) && n <= |lines| && Fold(codec, ctx, lines[..n]).Some?
    ensures var previous := Fold(codec, ctx, lines[..n]).value.previousOpen;
            previous.Some? ==> n > 0 && previous.value <= opens[n - 1]
    ensures forall c :: c in AcceptedCandles(codec, ctx, lines[..n]) ==> c.openMs in opens
  {
    hide Judge, StepLine, Fold, AcceptedCandles, Accepted;
    if n == 0 {
      FoldNothing(codec, ctx);
      NothingAccepted(codec, ctx);
    } else {
      assert lines[..n] == lines[..n - 1] + [lines[n - 1]];
      FoldBefore(codec, ctx, lines[..n - 1], lines[n - 1]);
      PreviousIsEarlier(codec, ctx, lines, opens, n - 1);
      var before := Fold(codec, ctx, lines[..n - 1]).value;
      StepPrevious(codec, ctx, before, lines[n - 1]);
    }
  }

  lemma NothingAccepted(codec: Codec, ctx: Context)
    ensures Fold(codec, ctx, []) == Some(NOTHING) && AcceptedCandles(codec, ctx, []) == []
  {
  }

  /** One line more. */
  lemma FoldBefore(codec: Codec, ctx: Context, lines: seq<seq<Byte>>, line: seq<Byte>)
    requires Fold(codec, ctx, lines + [line]).Some?
    ensures Fold(codec, ctx, lines).Some?
    ensures Fold(codec, ctx, lines + [line]) == StepLine(codec, ctx, Fold(codec, ctx, lines).value, line)
    ensures AcceptedCandles(codec, ctx, lines + [line]) ==
              AcceptedCandles(codec, ctx, lines) + Accepted(codec, ctx, Fold(codec, ctx, lines).value, line)
  {
    hide StepLine, Accepted;
    assert (lines + [line])[..|lines|] == lines;
  }

  lemma FileLineJudged(codec: Codec, encode: Json -> seq<Byte>, rows: map<int, Json>, ctx: Context, i: nat, previous: Option<int>)
    requires RowsInRange(rows, ctx) && ReadsAsWritten(encode, codec, FileOf(ctx.symbol, ctx.interval, rows))
    requires i < |rows| == |Sorted(rows.Keys)| && (previous.Some? ==> previous.value <= Sorted(rows.Keys)[i])
    ensures |FileOf(ctx.symbol, ctx.interval, rows)| == |rows| && Sorted(rows.Keys)[i] in rows
    ensures var open, line := Sorted(rows.Keys)[i], Encoded(encode, FileOf(ctx.symbol, ctx.interval, rows))[i];
            && Judge(codec, line, ctx, previous) == Outcome(line, rows[open], ctx)
            && (Outcome(line, rows[open], ctx).Ok? ==> Outcome(line, rows[open], ctx).value.openMs == open)
  {
    FileOfAt(rows, ctx, i);
    hide FileOf, Judge, Outcome, RowsInRange, Sorted, RecordLine, ValidRow, Close;
    var open := Sorted(rows.Keys)[i];
    RecordJudged(codec, Encoded(encode, FileOf(ctx.symbol, ctx.interval, rows))[i], open, rows[open], ctx, previous);
  }

  lemma FileOwnOpens(codec: Codec, encode: Json -> seq<Byte>, rows: map<int, Json>, ctx: Context)
    requires RowsInRange(rows, ctx) && ReadsAsWritten(encode, codec, FileOf(ctx.symbol, ctx.interval, rows))
    ensures OwnOpens(codec, ctx, Encoded(encode, FileOf(ctx.symbol, ctx.interval, rows)), Sorted(rows.Keys))
  {
    hide FileOf, Judge, Outcome, Sorted, ReadsAsWritten, GoodRows;
    FileLength(rows, ctx);
    var lines, opens := Encoded(encode, FileOf(ctx.symbol, ctx.interval, rows)), Sorted(rows.Keys);
    hide Encoded, RowsInRange;
    forall i, previous: Option<int> | 0 <= i < |lines| && (previous.Some? ==> previous.value <= opens[i])
      ensures Judge(codec, lines[i], ctx, previous).Ok? ==> Judge(codec, lines[i], ctx, previous).value.openMs == opens[i]
    {
      FileLineJudged(codec, encode, rows, ctx, i, previous);
    }
  }

  lemma StepPrevious(codec: Codec, ctx: Context, t: Totals, line: seq<Byte>)
    requires StepLine(codec, ctx, t, line).Some?
    ensures var judged := Judge(codec, line, ctx, t.previousOpen);
            && StepLine(codec, ctx, t, line).value.previousOpen == (if judged.Ok? then Some(judged.value.openMs) else t.previousOpen)
            && Accepted(codec, ctx, t, line) == if judged.Ok? then [judged.value] else []
  {
    StepIsJudged(codec, ctx, t, line);
    hide Judge, StepLine, Converts, ForOutput;
  }

  lemma FileLength(rows: map<int, Json>, ctx: Context)
    requires RowsInRange(rows, ctx)
    ensures |FileOf(ctx.symbol, ctx.interval, rows)| == |rows| == |Sorted(rows.Keys)|
  {
    if rows == map[] {
      LinesForNothing(ctx.symbol, ctx.interval, rows);
    } else {
      assert |rows.Keys| == |rows|;
      hide Sorted, LinesFor;
      LinesForAt(ctx.symbol, ctx.interval, rows, Sorted(rows.Keys), 0);
    }
  }

  /** The conversion of a file: it succeeds unless a line aborts it; then the lines seen are the rows, every accepted candle is a
      row, and every line gets its own outcome. */
  ghost predicate FileVerdict(codec: Codec, ctx: Context, lines: seq<seq<Byte>>, rows: map<int, Json>, opens: seq<int>) {
    && |lines| == |rows| == |opens| && (forall i :: 0 <= i < |opens| ==> opens[i] in rows)
    && (Fold(codec, ctx, lines).Some? <==> Converts(ctx, lines))
    && (Converts(ctx, lines) ==>
          && Fold(codec, ctx, lines).value.linesSeen == |rows|
          && (forall c :: c in AcceptedCandles(codec, ctx, lines) ==> c.openMs in rows)
          && forall i :: 0 <= i < |lines| ==> OwnLine(codec, lines, i, opens[i], rows[opens[i]], ctx))
  }

  /** Every line of a file of rows in range is judged on its own: its length, its numbers and its candle. It has no envelope,
      range or order failure. */
  lemma FileConverts(codec: Codec, encode: Json -> seq<Byte>, rows: map<int, Json>, ctx: Context)
    requires RowsInRange(rows, ctx) && ReadsAsWritten(encode, codec, FileOf(ctx.symbol, ctx.interval, rows))
    ensures FileVerdict(codec, ctx, Lines(FileBytes(encode, FileOf(ctx.symbol, ctx.interval, rows))), rows, Sorted(rows.Keys))
  {
    hide FileOf, GoodRows, Sorted, Lines, FileBytes, OwnOpens, ReadsAsWritten, Converts, OwnLine, FileVerdict, Encoded;
    hide Close;
    var records, opens := FileOf(ctx.symbol, ctx.interval, rows), Sorted(rows.Keys);
    EncodedLines(encode, codec, records);
    FileLength(rows, ctx);
    FileOwnOpens(codec, encode, rows, ctx);
    var lines := Encoded(encode, records);
    if Converts(ctx, lines) {
      forall i | 0 <= i < |lines| ensures opens[i] in rows && OwnLine(codec, lines, i, opens[i], rows[opens[i]], ctx) {
        FileLineAt(codec, encode, rows, ctx, i);
      }
    }
    assert forall i :: 0 <= i < |opens| ==> opens[i] in opens;
    LinesDecided(codec, ctx, lines, rows, opens);
  }

  lemma LinesDecided(codec: Codec, ctx: Context, lines: seq<seq<Byte>>, rows: map<int, Json>, opens: seq<int>)
    requires |lines| == |rows| == |opens| && OwnOpens(codec, ctx, lines, opens) && Ascending(opens)
    requires forall k :: k in opens ==> k in rows
    requires Converts(ctx, lines) ==> forall i :: 0 <= i < |lines| ==> opens[i] in rows && OwnLine(codec, lines, i, opens[i], rows[opens[i]], ctx)
    ensures FileVerdict(codec, ctx, lines, rows, opens)
  {
    hide Fold, OwnOpens, OwnLine, Converts, TotalsOf, AcceptedCandles;
    FoldConverts(codec, ctx, lines);
    assert forall i :: 0 <= i < |opens| ==> opens[i] in opens;
    if Converts(ctx, lines) {
      FoldFacts(codec, ctx, lines);
      assert lines[..|lines|] == lines;
      PreviousIsEarlier(codec, ctx, lines, opens, |lines|);
    }
  }

  /** Line `i` gets its outcome, judged after the lines before it; if it is accepted, its candle opens at `open`. */
  ghost predicate OwnLine(codec: Codec, lines: seq<seq<Byte>>, i: nat, open: int, row: Json, ctx: Context)
    requires i < |lines|
  {
    && Fold(codec, ctx, lines[..i]).Some?
    && Judge(codec, lines[i], ctx, Fold(codec, ctx, lines[..i]).value.previousOpen) == Outcome(lines[i], row, ctx)
    && (Outcome(lines[i], row, ctx).Ok? ==> Outcome(lines[i], row, ctx).value.openMs == open)
  }

  lemma FileLineAt(codec: Codec, encode: Json -> seq<Byte>, rows: map<int, Json>, ctx: Context, i: nat)
    requires RowsInRange(rows, ctx) && ReadsAsWritten(encode, codec, FileOf(ctx.symbol, ctx.interval, rows))
    requires i < |rows| == |Sorted(rows.Keys)| == |FileOf(ctx.symbol, ctx.interval, rows)|
    requires Converts(ctx, Encoded(encode, FileOf(ctx.symbol, ctx.interval, rows)))
    ensures var lines, open := Encoded(encode, FileOf(ctx.symbol, ctx.interval, rows)), Sorted(rows.Keys)[i];
            open in rows && OwnLine(codec, lines, i, open, rows[open], ctx)
  {
    var lines, opens := Encoded(encode, FileOf(ctx.symbol, ctx.interval, rows)), Sorted(rows.Keys);
    hide FileOf, Fold, Judge, Outcome, RowsInRange, Sorted, OwnOpens, ReadsAsWritten;
    FileOwnOpens(codec, encode, rows, ctx);
    assert Converts(ctx, lines[..i]);
    FoldConverts(codec, ctx, lines[..i]);
    PreviousIsEarlier(codec, ctx, lines, opens, i);
    assert i > 0 ==> opens[i - 1] < opens[i];
    FileLineJudged(codec, encode, rows, ctx, i, Fold(codec, ctx, lines[..i]).value.previousOpen);
  }

  /** The planned conversion of a pair of a request. */
  function ContextFor(r: DownloadRequest, p: Pair, maxLineBytes: nat): Context {
    Context(p.Name(), p.symbol.Text(), p.interval, r.startUs, r.endUs, maxLineBytes)
  }

  lemma FreshInRange(r: DownloadRequest, p: Pair, h: seq<Json>, serverMs: int, maxLineBytes: nat)
    requires r.Valid() && r.Asks(p) && History(h, p.interval)
    ensures RowsInRange(FreshFor(r, h, p.interval, serverMs), ContextFor(r, p, maxLineBytes))
    ensures forall k :: k in FreshFor(r, h, p.interval, serverMs) ==> k >= 0
  {
    hide KlineSpan, Pair.Name;
    FreshIsGood(r, h, p.interval, serverMs);
    WantedKeys(h, r.SliceAt(p.interval, serverMs), r.SliceAt(p.interval, serverMs).startMs);
    hide Wanted;
  }

  /** Producer and consumer agree, for every request: the file that a fresh download writes for a pair, converted for the same
      symbol, interval and range, converts exactly when the range does not start before the epoch or no line is within the
      limit. Then a line is quarantined only for its candle, its length, or, exactly within the limit, a number in its row
      that is not finite. */
  lemma FreshFileConverts(r: DownloadRequest, p: Pair, h: seq<Json>, serverMs: int, codec: Codec, encode: Json -> seq<Byte>, maxLineBytes: nat)
    requires r.Valid() && r.Asks(p) && History(h, p.interval)
    requires GoodRows(FreshFor(r, h, p.interval, serverMs), p.interval)
    requires ReadsAsWritten(encode, codec, FileOf(p.symbol.Text(), p.interval, FreshFor(r, h, p.interval, serverMs)))
    ensures var rows, ctx := FreshFor(r, h, p.interval, serverMs), ContextFor(r, p, maxLineBytes);
            var lines, opens := Lines(FileBytes(encode, FileOf(p.symbol.Text(), p.interval, rows))), Sorted(rows.Keys);
            && RowsInRange(rows, ctx) && FileVerdict(codec, ctx, lines, rows, opens) && FreshVerdict(codec, ctx, lines, rows, opens)
            && (Fold(codec, ctx, lines).Some? <==> r.startUs >= 0 || AllTooLong(lines, maxLineBytes))
  {
    var rows, ctx := FreshFor(r, h, p.interval, serverMs), ContextFor(r, p, maxLineBytes);
    FreshInRange(r, p, h, serverMs, maxLineBytes);
    assert (ctx.RangeSupported() <==> r.startUs >= 0) && ctx.maxLineBytes == maxLineBytes;
    hide FreshFor, ContextFor, RowsInRange, FileOf, FileBytes, Lines, Sorted, Fold, FreshVerdict, ReadsAsWritten, FileVerdict, AllTooLong;
    hide Context.RangeSupported, Pair.Name, DownloadRequest.Valid, DownloadRequest.Asks, History, GoodRows;
    FileConverts(codec, encode, rows, ctx);
    LinesFresh(codec, ctx, Lines(FileBytes(encode, FileOf(ctx.symbol, ctx.interval, rows))), rows, Sorted(rows.Keys));
  }

  predicate AllTooLong(lines: seq<seq<Byte>>, limit: nat) { forall i :: 0 <= i < |lines| ==> |lines[i]| > limit }

  /** If the conversion does not abort, every line of the file is a fresh line of its row. */
  ghost predicate FreshVerdict(codec: Codec, ctx: Context, lines: seq<seq<Byte>>, rows: map<int, Json>, opens: seq<int>) {
    && |lines| == |opens| && (forall i :: 0 <= i < |opens| ==> opens[i] in rows)
    && (Fold(codec, ctx, lines).Some? ==>
          forall i :: 0 <= i < |lines| ==>
            && Fold(codec, ctx, lines[..i]).Some?
            && FreshLine(codec, lines[i], i + 1, ctx, Fold(codec, ctx, lines[..i]).value.previousOpen, rows[opens[i]]))
  }

  lemma LinesFresh(codec: Codec, ctx: Context, lines: seq<seq<Byte>>, rows: map<int, Json>, opens: seq<int>)
    requires FileVerdict(codec, ctx, lines, rows, opens)
    ensures FreshVerdict(codec, ctx, lines, rows, opens)
    ensures Fold(codec, ctx, lines).Some? <==> ctx.RangeSupported() || AllTooLong(lines, ctx.maxLineBytes)
  {
    hide Fold, Judge, Outcome, FreshLine, AcceptedCandles;
    if Converts(ctx, lines) {
      hide Converts;
      forall i | 0 <= i < |lines|
        ensures Fold(codec, ctx, lines[..i]).Some?
        ensures FreshLine(codec, lines[i], i + 1, ctx, Fold(codec, ctx, lines[..i]).value.previousOpen, rows[opens[i]])
      {
        assert OwnLine(codec, lines, i, opens[i], rows[opens[i]], ctx);
        LineOutcome(codec, lines[i], i + 1, ctx, Fold(codec, ctx, lines[..i]).value.previousOpen, rows[opens[i]]);
      }
    }
  }

  /** What becomes of one line of a fresh file in the stream. */
  ghost predicate FreshLine(codec: Codec, line: seq<Byte>, n: nat, ctx: Context, previous: Option<int>, row: Json) {
    match LineInStream(codec, line, n, ctx, previous)
    case RangeUnsupported => !ctx.RangeSupported() && |line| <= ctx.maxLineBytes
    case Converted(c) => Outcome(line, row, ctx) == Ok(c)
    case Quarantined(f) =>
      && f.kind in {InvalidCandle, LineTooLarge, MalformedJson}
      && (f.kind == LineTooLarge <==> |line| > ctx.maxLineBytes)
      && (f.kind == MalformedJson <==> |line| <= ctx.maxLineBytes && !AllFinite(row))
  }

  lemma LineOutcome(codec: Codec, line: seq<Byte>, n: nat, ctx: Context, previous: Option<int>, row: Json)
    requires Judge(codec, line, ctx, previous) == Outcome(line, row, ctx)
    ensures FreshLine(codec, line, n, ctx, previous, row)
  {
    hide Judge, CandleFromKline, AllFinite;
  }

  // ---------------------------------------------------------------- the raw manifest of a completed download

  /** The pairs of a run in (symbol, interval) order, with honest histories. */
  ghost predicate PairsOf(pairs: seq<Pair>, r: DownloadRequest, history: Pair -> seq<Json>) {
    && (forall p :: p in pairs ==> r.Asks(p) && History(history(p), p.interval))
    && (forall i, j :: 0 <= i < j < |pairs| ==> PairLess(pairs[i].symbol, pairs[i].interval, pairs[j].symbol, pairs[j].interval))
  }

  /** The entry describes the rows of a pair. */
  ghost predicate Describes(info: FileInfo, p: Pair, r: DownloadRequest, history: Pair -> seq<Json>, serverMs: int) {
    var rows := FreshFor(r, history(p), p.interval, serverMs);
    rows != map[] && GoodRows(rows, p.interval) && info == InfoFor(p, rows)
  }

  /** The pairs that have rows. */
  function Listed(pairs: seq<Pair>, r: DownloadRequest, history: Pair -> seq<Json>, serverMs: int): seq<Pair> {
    if pairs == [] then []
    else
      var p := pairs[|pairs| - 1];
      Listed(pairs[..|pairs| - 1], r, history, serverMs) + if FreshFor(r, history(p), p.interval, serverMs) == map[] then [] else [p]
  }

  lemma PairsBefore(pairs: seq<Pair>, r: DownloadRequest, history: Pair -> seq<Json>)
    requires PairsOf(pairs, r, history) && pairs != []
    ensures PairsOf(pairs[..|pairs| - 1], r, history)
    ensures r.Asks(pairs[|pairs| - 1]) && History(history(pairs[|pairs| - 1]), pairs[|pairs| - 1].interval)
  {
    hide PairLess, History;
    var init := pairs[..|pairs| - 1];
    assert forall p :: p in init ==> p in pairs;
    assert pairs[|pairs| - 1] in pairs;
  }

  lemma {:induction false} ListedPairs(pairs: seq<Pair>, r: DownloadRequest, history: Pair -> seq<Json>, serverMs: int)
    requires PairsOf(pairs, r, history)
    ensures forall p :: p in Listed(pairs, r, history, serverMs) <==> p in pairs && FreshFor(r, history(p), p.interval, serverMs) != map[]
    ensures PairsOf(Listed(pairs, r, history, serverMs), r, history)
  {
    hide PairLess, History, FreshFor, DownloadRequest.Asks;
    if pairs != [] {
      var init, p := pairs[..|pairs| - 1], pairs[|pairs| - 1];
      PairsBefore(pairs, r, history);
      ListedPairs(init, r, history, serverMs);
      ListedLast(pairs, r, history, serverMs);
      EarlierPairs(pairs, r, history);
      hide Listed;
      assert pairs == init + [p];
      var earlier := Listed(init, r, history, serverMs);
      forall i | 0 <= i < |earlier| ensures PairLess(earlier[i].symbol, earlier[i].interval, p.symbol, p.interval) {
        assert earlier[i] in earlier;
      }
    }
  }

  lemma EarlierPairs(pairs: seq<Pair>, r: DownloadRequest, history: Pair -> seq<Json>)
    requires PairsOf(pairs, r, history) && pairs != []
    ensures forall q :: q in pairs[..|pairs| - 1] ==> PairLess(q.symbol, q.interval, pairs[|pairs| - 1].symbol, pairs[|pairs| - 1].interval)
  {
    hide PairLess, History;
    var init := pairs[..|pairs| - 1];
    forall q | q in init ensures PairLess(q.symbol, q.interval, pairs[|pairs| - 1].symbol, pairs[|pairs| - 1].interval) {
      var j :| 0 <= j < |init| && init[j] == q;
      assert pairs[j] == q;
    }
  }

  /** The last pair adds a listed entry that describes it, or nothing. */
  lemma ListingLast(pairs: seq<Pair>, r: DownloadRequest, history: Pair -> seq<Json>, serverMs: int)
    requires r.Valid() && PairsOf(pairs, r, history) && pairs != []
    ensures PairsOf(pairs[..|pairs| - 1], r, history)
    ensures var p, init, files := pairs[|pairs| - 1], pairs[..|pairs| - 1], Listing(pairs, r, history, serverMs);
            var earlier := Listing(init, r, history, serverMs);
            if FreshFor(r, history(p), p.interval, serverMs) == map[] then files == earlier
            else |files| == |earlier| + 1 && files[..|earlier|] == earlier && Describes(files[|earlier|], p, r, history, serverMs)
  {
    hide FreshFor, InfoFor, GoodRows, DownloadRequest.Asks, PairLess, Listing, Describes, History, LexLess;
    var init, p := pairs[..|pairs| - 1], pairs[|pairs| - 1];
    PairsBefore(pairs, r, history);
    assert pairs == init + [p];
    ListingOneMore(init, p, r, history, serverMs);
    if FreshFor(r, history(p), p.interval, serverMs) != map[] { DescribesItself(p, r, history, serverMs); }
  }

  /** The listing describes the pairs with rows, one by one. */
  lemma {:induction false} ListingDescribes(pairs: seq<Pair>, r: DownloadRequest, history: Pair -> seq<Json>, serverMs: int)
    requires r.Valid() && PairsOf(pairs, r, history)
    ensures var files, listed := Listing(pairs, r, history, serverMs), Listed(pairs, r, history, serverMs);
            |files| == |listed| && forall i :: 0 <= i < |files| ==> Describes(files[i], listed[i], r, history, serverMs)
  {
    hide FreshFor, Describes, PairsOf, DownloadRequest.Valid;
    if pairs != [] {
      ListingLast(pairs, r, history, serverMs);
      ListingDescribes(pairs[..|pairs| - 1], r, history, serverMs);
      ListedLast(pairs, r, history, serverMs);
      hide Listing, Listed;
    }
  }

  lemma ListedLast(pairs: seq<Pair>, r: DownloadRequest, history: Pair -> seq<Json>, serverMs: int)
    requires pairs != []
    ensures var p := pairs[|pairs| - 1];
            Listed(pairs, r, history, serverMs) == Listed(pairs[..|pairs| - 1], r, history, serverMs) +
              if FreshFor(r, history(p), p.interval, serverMs) == map[] then [] else [p]
  {
    hide FreshFor;
  }

  lemma DescribesItself(p: Pair, r: DownloadRequest, history: Pair -> seq<Json>, serverMs: int)
    requires var rows := FreshFor(r, history(p), p.interval, serverMs); rows != map[] && GoodRows(rows, p.interval)
    ensures Describes(InfoFor(p, FreshFor(r, history(p), p.interval, serverMs)), p, r, history, serverMs)
  {
    hide FreshFor, InfoFor, GoodRows;
  }

  lemma DescribedName(info: FileInfo, p: Pair, r: DownloadRequest, history: Pair -> seq<Json>, serverMs: int)
    requires Describes(info, p, r, history, serverMs)
    ensures info.name == p.Name()
  {
    hide Pair.Name, FreshFor, GoodRows;
  }

  /** File names come in ascending order. */
  lemma ListingAscending(pairs: seq<Pair>, r: DownloadRequest, history: Pair -> seq<Json>, serverMs: int)
    requires r.Valid() && PairsOf(pairs, r, history)
    ensures NamesAscending(NamesOf(Listing(pairs, r, history, serverMs)))
  {
    ListingDescribes(pairs, r, history, serverMs);
    ListedPairs(pairs, r, history, serverMs);
    hide Listing, Listed, Describes, LexLess, PairLess, History;
    var files, listed := Listing(pairs, r, history, serverMs), Listed(pairs, r, history, serverMs);
    forall i, j | 0 <= i < j < |files| ensures LexLess(files[i].name, files[j].name) {
      DescribedName(files[i], listed[i], r, history, serverMs);
      DescribedName(files[j], listed[j], r, history, serverMs);
      assert listed[i] in listed && listed[j] in listed;
      RawNameOrder(listed[i].symbol, listed[i].interval, listed[j].symbol, listed[j].interval);
    }
  }

  /** No kline opens in the millisecond in which the requested range starts, unless it starts at the full millisecond. */
  predicate StartsClean(r: DownloadRequest, p: Pair, history: Pair -> seq<Json>, serverMs: int) {
    r.startUs % 1000 == 0 || r.startUs / 1000 !in FreshFor(r, history(p), p.interval, serverMs)
  }

  lemma DescribedFile(info: FileInfo, p: Pair, r: DownloadRequest, history: Pair -> seq<Json>, serverMs: int)
    requires r.Valid() && r.Asks(p) && History(history(p), p.interval) && Describes(info, p, r, history, serverMs)
    ensures info.rangeStart < info.rangeEnd && 1000 * info.rangeEnd <= r.endUs
    ensures r.startUs <= 1000 * info.rangeStart <==> StartsClean(r, p, history, serverMs)
  {
    hide KlineSpan, Pair.Name, BoundaryAfter;
    var rows := FreshFor(r, history(p), p.interval, serverMs);
    FreshInRange(r, p, history(p), serverMs, 1);
    hide FreshFor;
    RowAhead(rows[MaxKey(rows)], p.interval);
    RowAhead(rows[MinKey(rows)], p.interval);
  }

  lemma AllowedPair(r: DownloadRequest, p: Pair, m: DownloadManifest)
    requires r.Asks(p) && m.symbols == r.symbols && m.intervals == r.intervals
    ensures AllowedName(m, p.Name())
  {
    hide RawOutputName;
    var i :| 0 <= i < |r.symbols| && r.symbols[i] == p.symbol;
    var j :| 0 <= j < |r.intervals| && r.intervals[j] == p.interval;
  }

  function CompletedManifest(pairs: seq<Pair>, r: DownloadRequest, history: Pair -> seq<Json>, serverMs: int): DownloadManifest
    requires Representable(r.endUs / 1000) && forall p :: p in pairs ==> History(history(p), p.interval)
  {
    BuildManifest(r, Listing(pairs, r, history, serverMs), true, false, Some(serverMs))
  }

  lemma FileAccepted(m: DownloadManifest, info: FileInfo, p: Pair, r: DownloadRequest, history: Pair -> seq<Json>, serverMs: int)
    requires r.Valid() && r.Asks(p) && History(history(p), p.interval) && Describes(info, p, r, history, serverMs)
    requires m.symbols == r.symbols && m.intervals == r.intervals && m.requestedStartUs == r.startUs && m.requestedEndUs == r.endUs
    ensures FileValid(m, info) && (FileInRange(m, info) <==> StartsClean(r, p, history, serverMs))
  {
    hide Describes, History, AllowedName, FreshFor, Pair.Name, StartsClean;
    DescribedName(info, p, r, history, serverMs);
    DescribedFile(info, p, r, history, serverMs);
    AllowedPair(r, p, m);
  }

  lemma FilesAccepted(m: DownloadManifest, files: seq<FileInfo>, listed: seq<Pair>, r: DownloadRequest, history: Pair -> seq<Json>, serverMs: int)
    requires r.Valid() && |files| == |listed|
    requires forall i :: 0 <= i < |files| ==>
               r.Asks(listed[i]) && History(history(listed[i]), listed[i].interval) && Describes(files[i], listed[i], r, history, serverMs)
    requires m.symbols == r.symbols && m.intervals == r.intervals && m.requestedStartUs == r.startUs && m.requestedEndUs == r.endUs
    ensures (forall i :: 0 <= i < |files| ==> FileValid(m, files[i]) && FileInRange(m, files[i]))
       <==> forall p :: p in listed ==> StartsClean(r, p, history, serverMs)
  {
    hide Describes, History, FileValid, FileInRange, StartsClean, DownloadRequest.Asks, DownloadRequest.Valid;
    forall i | 0 <= i < |files|
      ensures FileValid(m, files[i]) && (FileInRange(m, files[i]) <==> StartsClean(r, listed[i], history, serverMs))
    {
      FileAccepted(m, files[i], listed[i], r, history, serverMs);
    }
    if forall i :: 0 <= i < |files| ==> FileInRange(m, files[i]) {
      forall p | p in listed ensures StartsClean(r, p, history, serverMs) {
        var i :| 0 <= i < |listed| && listed[i] == p;
        assert FileInRange(m, files[i]);
      }
    }
    if forall p :: p in listed ==> StartsClean(r, p, history, serverMs) {
      forall i | 0 <= i < |files| ensures FileInRange(m, files[i]) {
        assert listed[i] in listed;
      }
    }
  }

  lemma RequestAccepted(r: DownloadRequest, files: seq<FileInfo>, serverMs: int)
    requires r.Valid() && r.datasetId != ""
    ensures RequestFieldsValid(BuildManifest(r, files, true, false, Some(serverMs)))
  {
    hide LexLess, Representable, RecordTotal;
  }

  lemma OnlyFilesDecide(r: DownloadRequest, files: seq<FileInfo>, serverMs: int)
    requires r.Valid() && r.datasetId != "" && NamesAscending(NamesOf(files))
    ensures var m := BuildManifest(r, files, true, false, Some(serverMs));
            RawManifestValid(m) <==> forall i :: 0 <= i < |files| ==> FileValid(m, files[i]) && FileInRange(m, files[i])
  {
    RequestAccepted(r, files, serverMs);
    hide RequestFieldsValid, FileValid, FileInRange, NamesAscending, NamesOf, DownloadRequest.Valid, RecordTotal;
  }

  /** Pairs without rows start clean. */
  lemma CleanPairs(r: DownloadRequest, pairs: seq<Pair>, history: Pair -> seq<Json>, serverMs: int)
    requires PairsOf(pairs, r, history)
    ensures (forall p :: p in Listed(pairs, r, history, serverMs) ==> StartsClean(r, p, history, serverMs))
       <==> forall p :: p in pairs ==> StartsClean(r, p, history, serverMs)
  {
    ListedPairs(pairs, r, history, serverMs);
    hide FreshFor, PairsOf, Listed;
  }

  /** The manifest of a completed download is accepted for conversion exactly when no kline opens in the millisecond of a start
      that is not a full millisecond: the pager keeps such a kline, the validator finds it before the range. */
  lemma CompletedManifestAccepted(r: DownloadRequest, pairs: seq<Pair>, history: Pair -> seq<Json>, serverMs: int)
    requires r.Valid() && r.datasetId != "" && PairsOf(pairs, r, history)
    ensures RawManifestValid(CompletedManifest(pairs, r, history, serverMs))
       <==> forall p :: p in pairs ==> StartsClean(r, p, history, serverMs)
  {
    var files, listed := Listing(pairs, r, history, serverMs), Listed(pairs, r, history, serverMs);
    var m := CompletedManifest(pairs, r, history, serverMs);
    ListingDescribes(pairs, r, history, serverMs);
    ListedPairs(pairs, r, history, serverMs);
    ListingAscending(pairs, r, history, serverMs);
    CleanPairs(r, pairs, history, serverMs);
    RequestAccepted(r, files, serverMs);
    OnlyFilesDecide(r, files, serverMs);
    hide Listing, Listed, Describes, History, LexLess, NamesAscending, RecordTotal, RequestFieldsValid, FreshFor, FileValid, FileInRange;
    hide StartsClean, PairLess, DownloadRequest.Valid, RawManifestValid;
    forall i | 0 <= i < |listed| ensures r.Asks(listed[i]) && History(history(listed[i]), listed[i].interval) {
      assert listed[i] in listed;
    }
    hide DownloadRequest.Asks;
    FilesAccepted(m, files, listed, r, history, serverMs);
  }

  // ---------------------------------------------------------------- the actual range of a download

  ghost predicate HasRows(p: Pair, r: DownloadRequest, history: Pair -> seq<Json>, serverMs: int) {
    FreshFor(r, history(p), p.interval, serverMs) != map[] && GoodRows(FreshFor(r, history(p), p.interval, serverMs), p.interval)
  }

  /** First open and last end of the rows of a pair that has rows. */
  ghost function FirstOpen(p: Pair, r: DownloadRequest, history: Pair -> seq<Json>, serverMs: int): int {
    if HasRows(p, r, history, serverMs) then MinKey(FreshFor(r, history(p), p.interval, serverMs)) else 0
  }

  ghost function LastEnd(p: Pair, r: DownloadRequest, history: Pair -> seq<Json>, serverMs: int): int {
    var rows := FreshFor(r, history(p), p.interval, serverMs);
    if HasRows(p, r, history, serverMs) then Close(rows[MaxKey(rows)], p.interval) else 0
  }

  lemma DescribedRange(info: FileInfo, p: Pair, r: DownloadRequest, history: Pair -> seq<Json>, serverMs: int)
    requires Describes(info, p, r, history, serverMs)
    ensures HasRows(p, r, history, serverMs)
    ensures info.rangeStart == FirstOpen(p, r, history, serverMs) && info.rangeEnd == LastEnd(p, r, history, serverMs)
  {
    hide KlineSpan, BoundaryAfter, FreshFor, Pair.Name;
    var rows := FreshFor(r, history(p), p.interval, serverMs);
    RowAhead(rows[MaxKey(rows)], p.interval);
  }

  /** What a completed download tells of itself: the listed pairs, in order, each with all its rows and the range they span. */
  lemma CompletedManifestTells(r: DownloadRequest, pairs: seq<Pair>, history: Pair -> seq<Json>, serverMs: int)
    requires r.Valid() && PairsOf(pairs, r, history)
    ensures var m, listed := CompletedManifest(pairs, r, history, serverMs), Listed(pairs, r, history, serverMs);
            && m.complete && !m.failed && m.serverMs == Some(serverMs) && m.datasetId == r.datasetId && m.pageLimit == r.pageLimit
            && m.requestedStartUs == r.startUs && m.requestedEndUs == r.endUs && |m.files| == |listed|
            && (forall i :: 0 <= i < |listed| ==> Covers(m.files[i], listed[i], FreshFor(r, history(listed[i]), listed[i].interval, serverMs)))
            && m.recordCount == TotalOf(m.files, (f: FileInfo) => f.records)
  {
    hide KlineSpan, BoundaryAfter, FreshFor, Pair.Name, InfoFor, Listing, Listed, Covers, GoodRows, RecordTotal, History, TotalOf;
    ListingDescribes(pairs, r, history, serverMs);
    var files, listed := Listing(pairs, r, history, serverMs), Listed(pairs, r, history, serverMs);
    ManifestTells(r, files, true, false, Some(serverMs));
    forall i | 0 <= i < |listed| ensures Covers(files[i], listed[i], FreshFor(r, history(listed[i]), listed[i].interval, serverMs)) {
      assert Describes(files[i], listed[i], r, history, serverMs);
      InfoCovers(listed[i], FreshFor(r, history(listed[i]), listed[i].interval, serverMs));
    }
  }

  ghost predicate FirstStartsFirst(listed: seq<Pair>, r: DownloadRequest, history: Pair -> seq<Json>, serverMs: int) {
    forall i :: 0 <= i < |listed| ==> FirstOpen(listed[0], r, history, serverMs) <= FirstOpen(listed[i], r, history, serverMs)
  }

  ghost predicate LastEndsLast(listed: seq<Pair>, r: DownloadRequest, history: Pair -> seq<Json>, serverMs: int) {
    forall i :: 0 <= i < |listed| ==> LastEnd(listed[i], r, history, serverMs) <= LastEnd(listed[|listed| - 1], r, history, serverMs)
  }

  predicate StartsAtEarliest(m: DownloadManifest) {
    m.actualStart.Some? && forall i :: 0 <= i < |m.files| ==> m.actualStart.value <= m.files[i].rangeStart
  }

  predicate EndsAtLatest(m: DownloadManifest) {
    m.actualEnd.Some? && forall i :: 0 <= i < |m.files| ==> m.files[i].rangeEnd <= m.actualEnd.value
  }

  /** The actual range of a manifest is that of its first and its last file. It starts at the earliest open of the download
      exactly when no listed pair opens before the first listed one, and it ends at the latest end exactly when none ends after
      the last listed one. */
  lemma ActualRangeExactly(r: DownloadRequest, pairs: seq<Pair>, history: Pair -> seq<Json>, serverMs: int)
    requires r.Valid() && PairsOf(pairs, r, history) && Listed(pairs, r, history, serverMs) != []
    ensures StartsAtEarliest(CompletedManifest(pairs, r, history, serverMs))
       <==> FirstStartsFirst(Listed(pairs, r, history, serverMs), r, history, serverMs)
    ensures EndsAtLatest(CompletedManifest(pairs, r, history, serverMs))
       <==> LastEndsLast(Listed(pairs, r, history, serverMs), r, history, serverMs)
  {
    var files, listed := Listing(pairs, r, history, serverMs), Listed(pairs, r, history, serverMs);
    var m := CompletedManifest(pairs, r, history, serverMs);
    assert m == BuildManifest(r, files, true, false, Some(serverMs));
    hide DownloadRequest.Valid, PairsOf, Listing, Listed, CompletedManifest, FirstStartsFirst, LastEndsLast, StartsAtEarliest, EndsAtLatest;
    hide RecordTotal, Describes, History, BuildManifest, Representable;
    ListingDescribes(pairs, r, history, serverMs);
    FilesRange(files, listed, r, history, serverMs);
    BuiltRange(r, files, serverMs);
  }

  lemma BuiltRange(r: DownloadRequest, files: seq<FileInfo>, serverMs: int)
    requires files != []
    ensures var m := BuildManifest(r, files, true, false, Some(serverMs));
            && (StartsAtEarliest(m) <==> forall i :: 0 <= i < |files| ==> files[0].rangeStart <= files[i].rangeStart)
            && (EndsAtLatest(m) <==> forall i :: 0 <= i < |files| ==> files[i].rangeEnd <= files[|files| - 1].rangeEnd)
  {
    hide RecordTotal;
  }

  lemma FilesRange(files: seq<FileInfo>, listed: seq<Pair>, r: DownloadRequest, history: Pair -> seq<Json>, serverMs: int)
    requires |files| == |listed| > 0 && forall i :: 0 <= i < |files| ==> Describes(files[i], listed[i], r, history, serverMs)
    ensures (forall i :: 0 <= i < |files| ==> files[0].rangeStart <= files[i].rangeStart) <==> FirstStartsFirst(listed, r, history, serverMs)
    ensures (forall i :: 0 <= i < |files| ==> files[i].rangeEnd <= files[|files| - 1].rangeEnd) <==> LastEndsLast(listed, r, history, serverMs)
  {
    hide Describes, FirstOpen, LastEnd;
    forall i | 0 <= i < |files|
      ensures files[i].rangeStart == FirstOpen(listed[i], r, history, serverMs) && files[i].rangeEnd == LastEnd(listed[i], r, history, serverMs)
    {
      DescribedRange(files[i], listed[i], r, history, serverMs);
    }
  }

  // ---------------------------------------------------------------- concrete downloads

  function MinuteKline(openMs: int): Json {
    Arr([Int(openMs), Str("1"), Str("1"), Str("1"), Str("1"), Str("1"), Int(openMs + 59_999), Str("1"), Int(1), Str("1"), Str("1"), Str("0")])
  }

  const BTC := MarketSymbol("BTC", "USDT")
  const ETH := MarketSymbol("ETH", "USDT")

  lemma MinuteKlineValid(openMs: int)
    requires 0 <= openMs
    ensures KlineSpan(MinuteKline(openMs), "1m") == Ok(Span(openMs, openMs + 60_000)) && Supported("1m") && IntervalWord("1m")
    ensures BTC.Canonical() && ETH.Canonical() && LexLess(BTC.Text(), ETH.Text()) && Representable(60_000) && Representable(120_000)
  {
    assert BTC.Text()[0] == 'B' && ETH.Text()[0] == 'E';
  }

  lemma OneMinute(s: Slice, openMs: int)
    requires 0 <= openMs && s.interval == "1m" && s.startMs <= openMs && s.endMs >= openMs + 60_000 && s.serverMs >= openMs + 60_000
    ensures History([MinuteKline(openMs)], "1m") && FreshRows([MinuteKline(openMs)], s) == map[openMs := MinuteKline(openMs)]
    ensures GoodRows(map[openMs := MinuteKline(openMs)], "1m") <==> Representable(openMs + 60_000)
  {
    MinuteKlineValid(openMs);
    hide *;
    OneRow(s, MinuteKline(openMs), openMs);
  }

  lemma OneRow(s: Slice, row: Json, openMs: int)
    requires KlineSpan(row, "1m") == Ok(Span(openMs, openMs + 60_000))
    requires 0 <= openMs && s.interval == "1m" && s.startMs <= openMs && s.endMs >= openMs + 60_000 && s.serverMs >= openMs + 60_000
    ensures History([row], "1m") && FreshRows([row], s) == map[openMs := row]
    ensures GoodRows(map[openMs := row], "1m") <==> Representable(openMs + 60_000)
  {
    hide KlineSpan, BoundaryAfter, Representable;
    var h := [row];
    assert h[..0] == [] && Open(h[0], "1m") == openMs && IsClosed(h[0], s);
    WantedStep(h, s, s.startMs);
    assert Wanted([], s, s.startMs) == map[];
    hide Wanted;
    assert FreshRows(h, s) == map[][openMs := h[0]];
    var rows := map[openMs := row];
    assert openMs in rows && ValidRow(rows[openMs], "1m") && Close(rows[openMs], "1m") == openMs + 60_000;
  }

  /** Half a millisecond is enough: a request from 0.5 ms to one minute, and one kline that opens at the epoch. */
  lemma RejectedManifest() returns (r: DownloadRequest, pairs: seq<Pair>, history: Pair -> seq<Json>, serverMs: int)
    ensures r.Valid() && PairsOf(pairs, r, history) && |Listing(pairs, r, history, serverMs)| == 1
    ensures !RawManifestValid(CompletedManifest(pairs, r, history, serverMs))
  {
    hide KlineSpan, BoundaryAfter, MinuteKline, Supported, IntervalWord, Representable, History, Wanted, FreshRows, RawManifestValid, LexLess;
    hide MarketSymbol.Canonical, Listing, CompletedManifest;
    MinuteKlineValid(0);
    r := DownloadRequest("dataset", [BTC], ["1m"], 500, 60_000_000, 1000, false);
    pairs := [Pair(BTC, "1m")];
    history := (p: Pair) => [MinuteKline(0)];
    serverMs := 60_000;
    OneMinute(r.SliceAt("1m", serverMs), 0);
    assert PairsOf(pairs, r, history);
    ListingDescribes(pairs, r, history, serverMs);
    assert pairs[..0] == [] && pairs[0] in pairs;
    assert !StartsClean(r, pairs[0], history, serverMs);
    hide DownloadRequest.Valid, PairsOf, StartsClean;
    CompletedManifestAccepted(r, pairs, history, serverMs);
  }

  /** The line written for a row that opens at the epoch. */
  function EpochRecord(row: Json): Json {
    var line := RecordLine(BTC.Text(), "1m", 0, row);
    if line.Ok? then line.value else Null
  }

  lemma EpochRecordWritten(row: Json)
    requires KlineSpan(row, "1m") == Ok(Span(0, 60_000))
    ensures RecordLine(BTC.Text(), "1m", 0, row) == Ok(EpochRecord(row))
  {
    MinuteKlineValid(0);
    hide KlineSpan, IsoMs;
  }

  /** A request that starts a minute before the epoch: its download is valid and has a row, but converting the file aborts. */
  lemma AbortedConversion(codec: Codec, encode: Json -> seq<Byte>, maxLineBytes: nat)
    returns (r: DownloadRequest, p: Pair, history: Pair -> seq<Json>, serverMs: int)
    requires ReadsAsWritten(encode, codec, [EpochRecord(MinuteKline(0))]) && |encode(EpochRecord(MinuteKline(0)))| < maxLineBytes
    ensures r.Valid() && PairsOf([p], r, history) && HasRows(p, r, history, serverMs)
    ensures RawManifestValid(CompletedManifest([p], r, history, serverMs))
    ensures Fold(codec, ContextFor(r, p, maxLineBytes),
                 Lines(FileBytes(encode, FileOf(p.symbol.Text(), p.interval, FreshFor(r, history(p), p.interval, serverMs))))) == None
  {
    hide KlineSpan, BoundaryAfter, MinuteKline, Supported, IntervalWord, Representable, History, Wanted, FreshRows, RawManifestValid, LexLess;
    hide MarketSymbol.Canonical, Listing, CompletedManifest, RecordLine, ReadsAsWritten, Lines, FileBytes;
    MinuteKlineValid(0);
    r := DownloadRequest("dataset", [BTC], ["1m"], -60_000_000, 60_000_000, 1000, false);
    p := Pair(BTC, "1m");
    history := (p: Pair) => [MinuteKline(0)];
    serverMs := 60_000;
    OneMinute(r.SliceAt("1m", serverMs), 0);
    assert PairsOf([p], r, history);
    CompletedManifestAccepted(r, [p], history, serverMs);
    OneRecord(codec, encode, maxLineBytes, ContextFor(r, p, maxLineBytes));
  }

  lemma OneRecord(codec: Codec, encode: Json -> seq<Byte>, maxLineBytes: nat, ctx: Context)
    requires KlineSpan(MinuteKline(0), "1m") == Ok(Span(0, 60_000)) && GoodRows(map[0 := MinuteKline(0)], "1m")
    requires ReadsAsWritten(encode, codec, [EpochRecord(MinuteKline(0))]) && |encode(EpochRecord(MinuteKline(0)))| < maxLineBytes
    requires ctx.maxLineBytes == maxLineBytes && !ctx.RangeSupported()
    ensures Fold(codec, ctx, Lines(FileBytes(encode, FileOf(BTC.Text(), "1m", map[0 := MinuteKline(0)])))) == None
  {
    hide GoodRows, RecordLine, MinuteKline, Fold, Context.RangeSupported, KlineSpan;
    var rows, record := map[0 := MinuteKline(0)], EpochRecord(MinuteKline(0));
    OneLine(rows, MinuteKline(0));
    EncodedLines(encode, codec, [record]);
    var lines := Encoded(encode, [record]);
    assert |lines[0]| <= maxLineBytes;
    FoldConverts(codec, ctx, lines);
  }

  lemma OneKey(k: int)
    ensures Sorted({k}) == [k]
  {
    var opens := Sorted({k});
    assert |opens| == 1 && opens[0] in opens;
  }

  lemma OneLine(rows: map<int, Json>, row: Json)
    requires rows == map[0 := row] && GoodRows(rows, "1m") && KlineSpan(row, "1m") == Ok(Span(0, 60_000))
    ensures FileOf(BTC.Text(), "1m", rows) == [EpochRecord(row)]
  {
    hide GoodRows, RecordLine, KlineSpan, EpochRecord, Sorted, LinesFor, BTC, MarketSymbol.Text;
    EpochRecordWritten(row);
    OneKey(0);
    assert rows.Keys == {0} && [] + [0] == [0];
    LinesForNothing(BTC.Text(), "1m", rows);
    LinesForStep(BTC.Text(), "1m", rows, [], 0);
    assert forall lines: seq<Json> :: [] + lines == lines;
  }

  const UNBOUNDED := Number("Infinity", false)

  /** Its volume was sent as a literal beyond the floats. */
  const INFINITE := Arr([Int(0), Str("1"), Str("1"), Str("1"), Str("1"), UNBOUNDED, Int(59_999), Str("1"), Int(1), Str("1"), Str("1"), Str("0")])

  lemma InfiniteValid()
    ensures KlineSpan(INFINITE, "1m") == Ok(Span(0, 60_000)) && !AllFinite(INFINITE)
  {
    assert !AllFinite(INFINITE.items[5]);
  }

  /** A kline with an infinite volume is downloaded and written, but its line is quarantined as malformed. */
  lemma NotFiniteWitness(codec: Codec, encode: Json -> seq<Byte>, maxLineBytes: nat)
    requires ReadsAsWritten(encode, codec, [EpochRecord(INFINITE)]) && |encode(EpochRecord(INFINITE))| < maxLineBytes
    ensures FIRST_MINUTE.Valid() && FIRST_MINUTE.Asks(BTC_MINUTE) && History([INFINITE], "1m")
    ensures FreshFor(FIRST_MINUTE, [INFINITE], "1m", 60_000) == map[0 := INFINITE] && GoodRows(map[0 := INFINITE], "1m")
    ensures FileOf(BTC.Text(), "1m", map[0 := INFINITE]) == [EpochRecord(INFINITE)]
    ensures Judge(codec, encode(EpochRecord(INFINITE)) + [NEWLINE], ContextFor(FIRST_MINUTE, BTC_MINUTE, maxLineBytes), None) == Err(MalformedJson)
  {
    InfiniteValid();
    FirstMinute(INFINITE);
    assert ContextFor(FIRST_MINUTE, BTC_MINUTE, maxLineBytes).StartMs() == 0 && ContextFor(FIRST_MINUTE, BTC_MINUTE, maxLineBytes).EndMs() == 60_000;
    hide *;
    OneLine(map[0 := INFINITE], INFINITE);
    MalformedLine(codec, encode, ContextFor(FIRST_MINUTE, BTC_MINUTE, maxLineBytes), INFINITE);
  }

  const FIRST_MINUTE := DownloadRequest("dataset", [BTC], ["1m"], 0, 60_000_000, 1000, false)
  const BTC_MINUTE := Pair(BTC, "1m")

  lemma FirstMinute(row: Json)
    requires KlineSpan(row, "1m") == Ok(Span(0, 60_000))
    ensures FIRST_MINUTE.Valid() && FIRST_MINUTE.Asks(BTC_MINUTE) && History([row], "1m")
    ensures FreshFor(FIRST_MINUTE, [row], "1m", 60_000) == map[0 := row] && GoodRows(map[0 := row], "1m")
  {
    hide KlineSpan, BoundaryAfter, Supported, IntervalWord, Representable, History, Wanted, FreshRows, LexLess, MarketSymbol.Canonical;
    MinuteKlineValid(0);
    OneRow(FIRST_MINUTE.SliceAt("1m", 60_000), row, 0);
  }

  lemma MalformedLine(codec: Codec, encode: Json -> seq<Byte>, ctx: Context, row: Json)
    requires KlineSpan(row, "1m") == Ok(Span(0, 60_000)) && !AllFinite(row)
    requires ctx.symbol == BTC.Text() && ctx.interval == "1m" && ctx.StartMs() <= 0 && ctx.EndMs() >= 60_000
    requires ReadsAsWritten(encode, codec, [EpochRecord(row)]) && |encode(EpochRecord(row))| < ctx.maxLineBytes
    ensures Judge(codec, encode(EpochRecord(row)) + [NEWLINE], ctx, None) == Err(MalformedJson)
  {
    hide KlineSpan, RecordLine, AllFinite, Judge, BTC, EpochRecord;
    EpochRecordWritten(row);
    assert [EpochRecord(row)][0] == EpochRecord(row);
    RecordJudged(codec, encode(EpochRecord(row)) + [NEWLINE], 0, row, ctx, None);
  }

  const TWO_PAIRS: seq<Pair> := [Pair(BTC, "1m"), Pair(ETH, "1m")]
  const TWO_MINUTES := DownloadRequest("dataset", [BTC, ETH], ["1m"], 0, 120_000_000, 1000, false)

  /** The second kline of the one pair, the first of the other. */
  function Staggered(p: Pair): seq<Json> { [MinuteKline(if p.symbol == BTC then 60_000 else 0)] }

  lemma StaggeredRows(p: Pair)
    requires p in TWO_PAIRS
    ensures var openMs := if p.symbol == BTC then 60_000 else 0;
            && FreshFor(TWO_MINUTES, Staggered(p), p.interval, 120_000) == map[openMs := MinuteKline(openMs)] != map[]
            && TWO_MINUTES.Asks(p) && History(Staggered(p), p.interval)
  {
    hide KlineSpan, BoundaryAfter, MinuteKline, Wanted, FreshRows, History, GoodRows;
    var openMs := if p.symbol == BTC then 60_000 else 0;
    OneMinute(TWO_MINUTES.SliceAt("1m", 120_000), openMs);
    assert openMs in map[openMs := MinuteKline(openMs)];
  }

  lemma StaggeredPairs()
    ensures TWO_MINUTES.Valid() && PairsOf(TWO_PAIRS, TWO_MINUTES, Staggered) && Listed(TWO_PAIRS, TWO_MINUTES, Staggered, 120_000) == TWO_PAIRS
  {
    hide KlineSpan, BoundaryAfter, MinuteKline, FreshFor, History, Staggered, LexLess, MarketSymbol.Canonical, Supported, IntervalWord;
    MinuteKlineValid(0);
    StaggeredRows(TWO_PAIRS[0]);
    StaggeredRows(TWO_PAIRS[1]);
    assert TWO_PAIRS[..1] == [TWO_PAIRS[0]] && TWO_PAIRS[..1][..0] == [];
    assert Listed([], TWO_MINUTES, Staggered, 120_000) == [];
    ListedLast(TWO_PAIRS[..1], TWO_MINUTES, Staggered, 120_000);
    ListedLast(TWO_PAIRS, TWO_MINUTES, Staggered, 120_000);
  }

  /** Two pairs, of which the first by name opens a minute later: the manifest's actual range starts after its second file does,
      and ends before its first file does. */
  lemma ActualRangeWitness()
    ensures TWO_MINUTES.Valid() && PairsOf(TWO_PAIRS, TWO_MINUTES, Staggered)
    ensures var m := CompletedManifest(TWO_PAIRS, TWO_MINUTES, Staggered, 120_000);
            && |m.files| == 2 && m.actualStart == Some(60_000) && m.files[1].rangeStart == 0
            && m.actualEnd == Some(60_000) && m.files[0].rangeEnd == 120_000
  {
    hide KlineSpan, BoundaryAfter, MinuteKline, Representable, History, FreshFor, Listing, Listed, RecordTotal, Describes, Staggered;
    StaggeredPairs();
    ListingDescribes(TWO_PAIRS, TWO_MINUTES, Staggered, 120_000);
    var files := Listing(TWO_PAIRS, TWO_MINUTES, Staggered, 120_000);
    StaggeredRows(TWO_PAIRS[0]);
    StaggeredRows(TWO_PAIRS[1]);
    MinuteRange(files[0], TWO_PAIRS[0], TWO_MINUTES, Staggered, 120_000, 60_000);
    MinuteRange(files[1], TWO_PAIRS[1], TWO_MINUTES, Staggered, 120_000, 0);
  }

  lemma MinuteRange(info: FileInfo, p: Pair, r: DownloadRequest, history: Pair -> seq<Json>, serverMs: int, openMs: int)
    requires Describes(info, p, r, history, serverMs) && p.interval == "1m" && openMs >= 0
    requires FreshFor(r, history(p), p.interval, serverMs) == map[openMs := MinuteKline(openMs)]
    ensures info.rangeStart == openMs && info.rangeEnd == openMs + 60_000
  {
    MinuteKlineValid(openMs);
    DescribedRange(info, p, r, history, serverMs);
    hide KlineSpan, BoundaryAfter, FreshFor, Pair.Name, MinuteKline, Describes;
  }

  // ---------------------------------------------------------------- download, conversion and manifests together

  /** The raw file of a pair. */
  datatype RawFile = RawFile(pair: Pair, rows: map<int, Json>)

  function BytesOf(f: RawFile, encode: Json -> seq<Byte>): seq<Byte> {
    if GoodRows(f.rows, f.pair.interval) then FileBytes(encode, FileOf(f.pair.symbol.Text(), f.pair.interval, f.rows)) else []
  }

  /** The artifact of a converted file; a conversion that aborts gives none. */
  function FileArtifact(f: RawFile, r: DownloadRequest, codec: Codec, encode: Json -> seq<Byte>, maxLineBytes: nat): Result<Artifact, ManifestError> {
    var data := BytesOf(f, encode);
    match Fold(codec, ContextFor(r, f.pair, maxLineBytes), Lines(data))
    case None => Err(Invalid("range"))
    case Some(t) =>
      ArtifactFromReport(f.pair.symbol, f.pair.interval, codec.sha(data), |data|, ReportOf(codec, ContextFor(r, f.pair, maxLineBytes), t), codec.sha([]))
  }

  /** The artifacts of all files, in order; one conversion that aborts ends it. */
  function Artifacts(files: seq<RawFile>, r: DownloadRequest, codec: Codec, encode: Json -> seq<Byte>, maxLineBytes: nat)
    : Result<seq<Artifact>, ManifestError>
  {
    if files == [] then Ok([])
    else
      var earlier :- Artifacts(files[..|files| - 1], r, codec, encode, maxLineBytes);
      var artifact :- FileArtifact(files[|files| - 1], r, codec, encode, maxLineBytes);
      Ok(earlier + [artifact])
  }

  lemma {:induction false} ArtifactsOneByOne(files: seq<RawFile>, r: DownloadRequest, codec: Codec, encode: Json -> seq<Byte>, maxLineBytes: nat)
    ensures var artifacts := Artifacts(files, r, codec, encode, maxLineBytes);
            && (artifacts.Ok? <==> forall i :: 0 <= i < |files| ==> FileArtifact(files[i], r, codec, encode, maxLineBytes).Ok?)
            && (artifacts.Ok? ==>
                  && |artifacts.value| == |files|
                  && forall i :: 0 <= i < |files| ==> FileArtifact(files[i], r, codec, encode, maxLineBytes) == Ok(artifacts.value[i]))
  {
    hide FileArtifact;
    if files != [] {
      ArtifactsOneByOne(files[..|files| - 1], r, codec, encode, maxLineBytes);
    }
  }

  /** The files that a completed download leaves: those of the pairs with rows. */
  function FilesOf(listed: seq<Pair>, r: DownloadRequest, history: Pair -> seq<Json>, serverMs: int): (files: seq<RawFile>)
    ensures |files| == |listed|
    ensures forall i :: 0 <= i < |listed| ==>
              files[i] == RawFile(listed[i], FreshFor(r, history(listed[i]), listed[i].interval, serverMs))
  {
    hide FreshFor;
    seq(|listed|, i requires 0 <= i < |listed| => RawFile(listed[i], FreshFor(r, history(listed[i]), listed[i].interval, serverMs)))
  }

  /** What the library functions promise about a file. */
  ghost predicate TextsHold(f: RawFile, codec: Codec, encode: Json -> seq<Byte>) {
    GoodRows(f.rows, f.pair.interval) ==> ReadsAsWritten(encode, codec, FileOf(f.pair.symbol.Text(), f.pair.interval, f.rows))
  }

  lemma {:induction false} RecordsOfListed(files: seq<FileInfo>, i: nat)
    requires NamesAscending(NamesOf(files)) && i < |files|
    ensures RecordsOf(files, files[i].name) == Some(files[i].records)
  {
    hide LexLess;
    var last := |files| - 1;
    if i < last {
      var init := files[..last];
      forall j, k | 0 <= j < k < |init| ensures LexLess(NamesOf(init)[j], NamesOf(init)[k]) {
        assert LexLess(NamesOf(files)[j], NamesOf(files)[k]);
      }
      RecordsOfListed(init, i);
      assert LexLess(NamesOf(files)[i], NamesOf(files)[last]);
      LexIrreflexive(files[i].name);
    }
  }

  /** What is known of the candles of a fresh file carries over to its totals. */
  lemma CoverageOfRows(codec: Codec, ctx: Context, lines: seq<seq<Byte>>, rows: map<int, Json>, opens: seq<int>)
    requires FileVerdict(codec, ctx, lines, rows, opens) && Fold(codec, ctx, lines).Some?
    ensures var t := Fold(codec, ctx, lines).value;
            && t.linesSeen == |rows|
            && (t.written > 0 ==>
                  && t.coverageStart.Some? && t.coverageEnd.Some? && t.coverageStart.value in rows
                  && ctx.StartMs() <= t.coverageStart.value && t.coverageEnd.value <= ctx.EndMs())
  {
    FoldFacts(codec, ctx, lines);
    hide Fold, AcceptedCandles, CandleTexts, BoundaryAfter, OwnLine, Converts;
    var candles := AcceptedCandles(codec, ctx, lines);
    if candles != [] { assert candles[0] in candles; }
  }

  /** One file: whether it converts, and its artifact beside its entry in the listing. */
  ghost predicate FileDecided(f: RawFile, info: FileInfo, raw: DownloadManifest, r: DownloadRequest, codec: Codec, encode: Json -> seq<Byte>, maxLineBytes: nat) {
    var a := FileArtifact(f, r, codec, encode, maxLineBytes);
    && (a.Ok? <==> r.startUs >= 0 || AllTooLong(Lines(BytesOf(f, encode)), maxLineBytes))
    && (a.Ok? ==>
          && a.value.rawName == info.name && a.value.linesSeen == info.records && Planned(raw, a.value, codec.sha([]))
          && (a.value.written > 0 ==> a.value.coverageStart.Some? && a.value.coverageStart.value in f.rows))
  }

  /** A listed file becomes an artifact exactly when its conversion does not abort. It is a planned one, with as many lines as the
      listing has records, and its coverage starts at a row. */
  lemma FileIsDecided(f: RawFile, info: FileInfo, r: DownloadRequest, history: Pair -> seq<Json>, serverMs: int, raw: DownloadManifest,
                      codec: Codec, encode: Json -> seq<Byte>, maxLineBytes: nat)
    requires r.Valid() && r.Asks(f.pair) && History(history(f.pair), f.pair.interval) && Describes(info, f.pair, r, history, serverMs)
    requires f.rows == FreshFor(r, history(f.pair), f.pair.interval, serverMs)
    requires TextsHold(f, codec, encode) && TextsNonEmpty(codec) && EmptyDigestUnique(codec)
    requires raw.requestedStartUs == r.startUs && raw.requestedEndUs == r.endUs && RecordsOf(raw.files, info.name) == Some(info.records)
    ensures FileDecided(f, info, raw, r, codec, encode, maxLineBytes)
  {
    var p, rows, ctx := f.pair, f.rows, ContextFor(r, f.pair, maxLineBytes);
    var data := BytesOf(f, encode);
    hide FreshFor, FileOf, FileBytes, Lines, Fold, ReadsAsWritten, Describes, History, GoodRows, RawOutputName, CheckArtifact, ArtifactFromReport;
    hide Supported, IntervalWord, RecordsOf, TextsNonEmpty, EmptyDigestUnique, DownloadRequest.Valid, InfoFor, RowsInRange, FileVerdict;
    hide FreshVerdict, AllTooLong, Sorted, Planned, DownloadRequest.Asks, MarketSymbol.Canonical, Pair.Name;
    DescribedName(info, p, r, history, serverMs);
    DescribedRows(info, p, r, history, serverMs);
    FreshFileConverts(r, p, history(p), serverMs, codec, encode, maxLineBytes);
    if Fold(codec, ctx, Lines(data)).Some? {
      ConvertedIsPlanned(data, rows, Sorted(rows.Keys), info, p.symbol, ctx, raw, codec);
    }
  }

  lemma DescribedRows(info: FileInfo, p: Pair, r: DownloadRequest, history: Pair -> seq<Json>, serverMs: int)
    requires r.Valid() && r.Asks(p) && Describes(info, p, r, history, serverMs)
    ensures var rows := FreshFor(r, history(p), p.interval, serverMs);
            GoodRows(rows, p.interval) && info.records == |rows|
    ensures p.symbol.Canonical() && Supported(p.interval) && IntervalWord(p.interval)
    ensures p.Name() == RawOutputName(p.symbol.Text(), p.interval)
  {
    hide FreshFor, GoodRows, MarketSymbol.Canonical, Supported, IntervalWord, LexLess;
  }

  lemma ConvertedIsPlanned(data: seq<Byte>, rows: map<int, Json>, opens: seq<int>, info: FileInfo, symbol: MarketSymbol, ctx: Context,
                           raw: DownloadManifest, codec: Codec)
    requires Fold(codec, ctx, Lines(data)).Some? && FileVerdict(codec, ctx, Lines(data), rows, opens)
    requires TextsNonEmpty(codec) && EmptyDigestUnique(codec) && symbol.Canonical() && Supported(ctx.interval) && IntervalWord(ctx.interval)
    requires info.name == ctx.file == RawOutputName(symbol.Text(), ctx.interval) && info.records == |rows|
    requires RecordsOf(raw.files, info.name) == Some(info.records)
    requires raw.requestedStartUs == ctx.rangeStartUs && raw.requestedEndUs == ctx.rangeEndUs
    ensures var a := ArtifactFromReport(symbol, ctx.interval, codec.sha(data), |data|,
                                        ReportOf(codec, ctx, Fold(codec, ctx, Lines(data)).value), codec.sha([]));
            && a.Ok? && a.value.rawName == info.name && a.value.linesSeen == info.records && Planned(raw, a.value, codec.sha([]))
            && (a.value.written > 0 ==> a.value.coverageStart.Some? && a.value.coverageStart.value in rows)
  {
    hide Lines, Fold, RawOutputName, CheckArtifact, ArtifactFromReport, Supported, IntervalWord, RecordsOf, TextsNonEmpty, EmptyDigestUnique;
    hide FileVerdict, Planned, MarketSymbol.Canonical;
    ConversionYieldsArtifact(codec, ctx, data, symbol);
    CoverageOfRows(codec, ctx, Lines(data), rows, opens);
    PlannedArtifact(raw, symbol, ctx, codec.sha(data), |data|, ReportOf(codec, ctx, Fold(codec, ctx, Lines(data)).value), codec.sha([]), info);
  }

  lemma PlannedArtifact(raw: DownloadManifest, symbol: MarketSymbol, ctx: Context, rawSha: Sha, rawBytes: nat, report: Report, emptySha: Sha, info: FileInfo)
    requires ArtifactFromReport(symbol, ctx.interval, rawSha, rawBytes, report, emptySha).Ok? && IntervalWord(ctx.interval)
    requires info.name == RawOutputName(symbol.Text(), ctx.interval) && report.linesSeen == info.records
    requires RecordsOf(raw.files, info.name) == Some(info.records)
    requires raw.requestedStartUs == ctx.rangeStartUs && raw.requestedEndUs == ctx.rangeEndUs
    requires report.written > 0 ==>
               && report.coverageStart.Some? && report.coverageEnd.Some?
               && ctx.StartMs() <= report.coverageStart.value && report.coverageEnd.value <= ctx.EndMs()
    ensures var a := ArtifactFromReport(symbol, ctx.interval, rawSha, rawBytes, report, emptySha).value;
            && a.rawName == info.name && a.linesSeen == info.records && Planned(raw, a, emptySha)
            && a.written == report.written && a.coverageStart == report.coverageStart
  {
    hide ArtifactFromReport, CheckArtifact, RecordsOf, RawOutputName, IntervalWord;
    ArtifactFields(symbol, ctx.interval, rawSha, rawBytes, report, emptySha);
  }

  lemma {:induction false} LinesConserved(files: seq<FileInfo>, artifacts: seq<Artifact>)
    requires |files| == |artifacts| && forall i :: 0 <= i < |files| ==> artifacts[i].linesSeen == files[i].records
    ensures SumsOf(artifacts).linesSeen == RecordTotal(files)
  {
    if files != [] {
      LinesConserved(files[..|files| - 1], artifacts[..|artifacts| - 1]);
    }
  }

  lemma EveryFileIsDecided(r: DownloadRequest, pairs: seq<Pair>, history: Pair -> seq<Json>, serverMs: int,
                           codec: Codec, encode: Json -> seq<Byte>, maxLineBytes: nat)
    requires r.Valid() && PairsOf(pairs, r, history) && TextsNonEmpty(codec) && EmptyDigestUnique(codec)
    requires var files := FilesOf(Listed(pairs, r, history, serverMs), r, history, serverMs);
             forall i :: 0 <= i < |files| ==> TextsHold(files[i], codec, encode)
    ensures var raw, files := CompletedManifest(pairs, r, history, serverMs), FilesOf(Listed(pairs, r, history, serverMs), r, history, serverMs);
            && |raw.files| == |files|
            && forall i :: 0 <= i < |files| ==> FileDecided(files[i], raw.files[i], raw, r, codec, encode, maxLineBytes)
  {
    var infos, listed := Listing(pairs, r, history, serverMs), Listed(pairs, r, history, serverMs);
    var raw, files := CompletedManifest(pairs, r, history, serverMs), FilesOf(listed, r, history, serverMs);
    ListingDescribes(pairs, r, history, serverMs);
    ListedPairs(pairs, r, history, serverMs);
    ListingAscending(pairs, r, history, serverMs);
    hide Listing, Listed, Describes, History, FreshFor, FileDecided, TextsHold, TextsNonEmpty, EmptyDigestUnique, FilesOf;
    hide RecordsOf, NamesAscending, RecordTotal, DownloadRequest.Valid, DownloadRequest.Asks, PairLess;
    forall i | 0 <= i < |files| ensures FileDecided(files[i], infos[i], raw, r, codec, encode, maxLineBytes) {
      assert listed[i] in listed;
      RecordsOfListed(infos, i);
      FileIsDecided(files[i], infos[i], r, history, serverMs, raw, codec, encode, maxLineBytes);
    }
  }

  /** A row of a pair that starts clean opens in the requested range, to the microsecond. */
  lemma CleanRow(r: DownloadRequest, p: Pair, history: Pair -> seq<Json>, serverMs: int, openMs: int)
    requires r.Valid() && r.Asks(p) && History(history(p), p.interval)
    requires StartsClean(r, p, history, serverMs) && openMs in FreshFor(r, history(p), p.interval, serverMs)
    ensures r.startUs <= 1000 * openMs
  {
    hide FreshFor, KlineSpan, Pair.Name, BoundaryAfter, GoodRows, DownloadRequest.Valid, DownloadRequest.Asks, History;
    FreshInRange(r, p, history(p), serverMs, 1);
  }

  /** Conversion of all files and the manifest over their artifacts; `checksums` gives the two aggregate digests. */
  function Pipeline(raw: DownloadManifest, files: seq<RawFile>, r: DownloadRequest, codec: Codec, encode: Json -> seq<Byte>, maxLineBytes: nat,
                    checksums: seq<Artifact> -> (Sha, Sha)): Result<ResearchManifest, ManifestError>
  {
    var artifacts :- Artifacts(files, r, codec, encode, maxLineBytes);
    BuildResearchManifest(raw, artifacts, checksums(artifacts).0, checksums(artifacts).1, maxLineBytes, true, codec.sha([]))
  }

  /** An aggregate digest over nothing is that of the empty text. */
  ghost predicate ChecksumsHold(checksums: seq<Artifact> -> (Sha, Sha), emptySha: Sha) {
    forall artifacts ::
      && (SumsOf(artifacts).researchBytes == 0 ==> checksums(artifacts).0 == emptySha)
      && (SumsOf(artifacts).failureBytes == 0 ==> checksums(artifacts).1 == emptySha)
  }

  /** No conversion aborts: the range starts at the epoch or later, or no line of any file is within the limit. */
  predicate NoAbort(files: seq<RawFile>, r: DownloadRequest, encode: Json -> seq<Byte>, maxLineBytes: nat) {
    r.startUs >= 0 || forall i :: 0 <= i < |files| ==> AllTooLong(Lines(BytesOf(files[i], encode)), maxLineBytes)
  }

  /** One planned artifact for every file, beside its entry in the listing, with its coverage starting at a row. */
  ghost predicate ArtifactsFit(raw: DownloadManifest, files: seq<RawFile>, artifacts: seq<Artifact>, emptySha: Sha) {
    && |artifacts| == |files|
    && ArtifactNames(artifacts) == NamesOf(raw.files) && SumsOf(artifacts).linesSeen == RecordTotal(raw.files)
    && forall i :: 0 <= i < |files| ==>
         && Planned(raw, artifacts[i], emptySha)
         && (artifacts[i].written > 0 ==> artifacts[i].coverageStart.Some? && artifacts[i].coverageStart.value in files[i].rows)
  }

  lemma ArtifactsExactly(raw: DownloadManifest, files: seq<RawFile>, r: DownloadRequest, codec: Codec, encode: Json -> seq<Byte>, maxLineBytes: nat)
    requires |raw.files| == |files|
    requires forall i :: 0 <= i < |files| ==> FileDecided(files[i], raw.files[i], raw, r, codec, encode, maxLineBytes)
    ensures var artifacts := Artifacts(files, r, codec, encode, maxLineBytes);
            && (artifacts.Ok? <==> NoAbort(files, r, encode, maxLineBytes))
            && (artifacts.Ok? ==> ArtifactsFit(raw, files, artifacts.value, codec.sha([])))
  {
    ArtifactsOneByOne(files, r, codec, encode, maxLineBytes);
    hide Artifacts, FileArtifact, Planned, AllTooLong, Lines, BytesOf, SumsOf, RecordTotal;
    if Artifacts(files, r, codec, encode, maxLineBytes).Ok? {
      LinesConserved(raw.files, Artifacts(files, r, codec, encode, maxLineBytes).value);
    }
  }

  /** End to end, exactly: a completed download is accepted, converted and described by a research manifest if and only if every
      pair starts clean and no conversion aborts. Then the lines seen are the records of the download, each of them written or
      quarantined. */
  lemma PipelineSucceedsExactly(r: DownloadRequest, pairs: seq<Pair>, history: Pair -> seq<Json>, serverMs: int,
                                codec: Codec, encode: Json -> seq<Byte>, maxLineBytes: nat, checksums: seq<Artifact> -> (Sha, Sha))
    requires r.Valid() && r.datasetId != "" && maxLineBytes > 0 && PairsOf(pairs, r, history)
    requires TextsNonEmpty(codec) && EmptyDigestUnique(codec) && ChecksumsHold(checksums, codec.sha([]))
    requires var files := FilesOf(Listed(pairs, r, history, serverMs), r, history, serverMs);
             forall i :: 0 <= i < |files| ==> TextsHold(files[i], codec, encode)
    ensures var raw, files := CompletedManifest(pairs, r, history, serverMs), FilesOf(Listed(pairs, r, history, serverMs), r, history, serverMs);
            var m := Pipeline(raw, files, r, codec, encode, maxLineBytes, checksums);
            && (RawManifestValid(raw) && m.Ok? <==>
                  (forall p :: p in pairs ==> StartsClean(r, p, history, serverMs)) && NoAbort(files, r, encode, maxLineBytes))
            && (RawManifestValid(raw) && m.Ok? ==>
                  m.value.sums.linesSeen == raw.recordCount == m.value.sums.written + m.value.sums.quarantined)
  {
    var raw, files := CompletedManifest(pairs, r, history, serverMs), FilesOf(Listed(pairs, r, history, serverMs), r, history, serverMs);
    hide CompletedManifest, RawManifestValid, FreshFor, Listed, TextsNonEmpty, EmptyDigestUnique, PairsOf, FileDecided, TextsHold, NoAbort;
    hide StartsClean, Artifacts, FilesOf, DownloadRequest.Valid, ChecksumsHold, CleanFiles, BuildResearchManifest, ArtifactsFit;
    CompletedManifestAccepted(r, pairs, history, serverMs);
    EveryFileIsDecided(r, pairs, history, serverMs, codec, encode, maxLineBytes);
    ArtifactsExactly(raw, files, r, codec, encode, maxLineBytes);
    var artifacts := Artifacts(files, r, codec, encode, maxLineBytes);
    if artifacts.Ok? && forall p :: p in pairs ==> StartsClean(r, p, history, serverMs) {
      AllClean(r, pairs, history, serverMs);
      CompletedTotals(r, pairs, history, serverMs);
      FitBuilds(raw, files, artifacts.value, checksums, maxLineBytes, codec.sha([]));
    }
  }

  /** All rows open in the requested range. */
  ghost predicate CleanFiles(files: seq<RawFile>, startUs: int) {
    forall i, k :: 0 <= i < |files| && k in files[i].rows ==> startUs <= 1000 * k
  }

  lemma AllClean(r: DownloadRequest, pairs: seq<Pair>, history: Pair -> seq<Json>, serverMs: int)
    requires r.Valid() && PairsOf(pairs, r, history) && forall p :: p in pairs ==> StartsClean(r, p, history, serverMs)
    ensures CleanFiles(FilesOf(Listed(pairs, r, history, serverMs), r, history, serverMs), r.startUs)
  {
    ListedPairs(pairs, r, history, serverMs);
    hide FreshFor, Listed, History, StartsClean, FilesOf, DownloadRequest.Valid, PairLess;
    var listed := Listed(pairs, r, history, serverMs);
    var files := FilesOf(listed, r, history, serverMs);
    forall i, k | 0 <= i < |files| && k in files[i].rows ensures r.startUs <= 1000 * k {
      assert listed[i] in listed;
      CleanRow(r, listed[i], history, serverMs, k);
    }
  }

  lemma CompletedTotals(r: DownloadRequest, pairs: seq<Pair>, history: Pair -> seq<Json>, serverMs: int)
    requires r.Valid() && PairsOf(pairs, r, history)
    ensures var raw := CompletedManifest(pairs, r, history, serverMs);
            raw.recordCount == RecordTotal(raw.files) && raw.requestedStartUs == r.startUs && NamesAscending(NamesOf(raw.files))
  {
    ListingAscending(pairs, r, history, serverMs);
    hide Listing, RecordTotal, History, NamesAscending, NamesOf;
  }

  /** Artifacts that fit, over rows in the requested range, give a manifest with the records of the download. */
  lemma FitBuilds(raw: DownloadManifest, files: seq<RawFile>, artifacts: seq<Artifact>, checksums: seq<Artifact> -> (Sha, Sha),
                  maxLineBytes: nat, emptySha: Sha)
    requires RawManifestValid(raw) && NamesAscending(NamesOf(raw.files)) && maxLineBytes > 0 && ChecksumsHold(checksums, emptySha)
    requires ArtifactsFit(raw, files, artifacts, emptySha) && CleanFiles(files, raw.requestedStartUs)
    ensures var m := BuildResearchManifest(raw, artifacts, checksums(artifacts).0, checksums(artifacts).1, maxLineBytes, true, emptySha);
            && m.Ok? && m.value.sums.linesSeen == RecordTotal(raw.files)
            && m.value.sums.linesSeen == m.value.sums.written + m.value.sums.quarantined
  {
    hide RawManifestValid, NamesAscending, BuildResearchManifest, SumsOf, RecordTotal, Planned, SetOf;
    BuildSucceedsExactly(raw, artifacts, checksums(artifacts).0, checksums(artifacts).1, maxLineBytes, true, emptySha);
  }
}
