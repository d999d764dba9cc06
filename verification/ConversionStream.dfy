/** packages/market_data/datasets/conversion_stream.py: bounded-memory conversion of one raw archive stream. */
module ConversionStream {
  import opened Wrappers
  import opened Converter
  import Intervals

  // ---------------------------------------------------------------- logical lines

  /** Length of the first line of a text, its newline included. */
  function LineLength(data: seq<Byte>): (n: nat)
    ensures n <= |data| && (data != [] ==> n > 0)
    ensures forall i :: 0 <= i < n - 1 ==> data[i] != NEWLINE
    ensures n < |data| ==> data[n - 1] == NEWLINE
  {
    if data == [] then 0
    else if data[0] == NEWLINE then 1
    else 1 + LineLength(data[1..])
  }

  /** The newline-delimited logical lines of a text, each with its newline; only the last may lack one. */
  function Lines(data: seq<Byte>): seq<seq<Byte>>
    decreases |data|
  {
    if data == [] then []
    else [data[..LineLength(data)]] + Lines(data[LineLength(data)..])
  }

  function Joined(parts: seq<seq<Byte>>): seq<Byte> {
    if parts == [] then [] else Joined(parts[..|parts| - 1]) + parts[|parts| - 1]
  }

  /** A proper line: it contains no newline but possibly its last byte. */
  predicate IsLine(line: seq<Byte>) {
    line != [] && forall i :: 0 <= i < |line| - 1 ==> line[i] != NEWLINE
  }

  lemma {:induction false} JoinedFirst(first: seq<Byte>, rest: seq<seq<Byte>>)
    ensures Joined([first] + rest) == first + Joined(rest)
  {
    var all := [first] + rest;
    if rest == [] {
      assert all[..0] == [];
    } else {
      assert all[..|all| - 1] == [first] + rest[..|rest| - 1];
      JoinedFirst(first, rest[..|rest| - 1]);
    }
  }

  /** The logical lines partition the text. */
  lemma {:induction false} LinesPartition(data: seq<Byte>)
    ensures Joined(Lines(data)) == data
    ensures forall line :: line in Lines(data) ==> IsLine(line)
    decreases |data|
  {
    if data != [] {
      var n := LineLength(data);
      LinesPartition(data[n..]);
      LinesUnfold(data);
      hide Lines, LineLength;
      JoinedFirst(data[..n], Lines(data[n..]));
      assert data[..n] + data[n..] == data;
    }
  }

  // ---------------------------------------------------------------- streams

  /** `readline(size)`: at most `size` bytes, never beyond the newline. Calls named by `broken` raise OSError. */
  class RawStream {
    const broken: nat -> bool
    var rest: seq<Byte>
    var calls: nat
    ghost var largest: nat   // the largest read so far

    constructor (data: seq<Byte>, broken: nat -> bool)
      ensures rest == data && this.broken == broken && calls == 0 && largest == 0
    {
      this.rest, this.broken, calls, largest := data, broken, 0, 0;
    }

    method ReadLine(size: nat) returns (ok: bool, chunk: seq<Byte>)
      modifies this
      ensures calls == old(calls) + 1 && largest == (if size > old(largest) then size else old(largest))
      ensures ok <==> !broken(old(calls))
      ensures ok ==> chunk == old(rest)[..Min(size, LineLength(old(rest)))] && rest == old(rest)[|chunk|..]
    {
      ok := !broken(calls);
      calls := calls + 1;
      largest := if size > largest then size else largest;
      chunk := [];
      if ok {
        chunk := rest[..Min(size, LineLength(rest))];
        rest := rest[|chunk|..];
      }
    }
  }

  function Min(a: nat, b: nat): nat { if a < b then a else b }

  /** One write: the bytes offered and the count returned. */
  datatype Offer = Offer(size: nat, written: int)

  /** `write(chunk)` may accept any positive part of the chunk; a count outside that range is a failure. */
  class Sink {
    const accept: (nat, nat) -> int
    var received: seq<Byte>
    var calls: nat
    ghost var offers: seq<Offer>

    constructor (accept: (nat, nat) -> int)
      ensures this.accept == accept && received == [] && calls == 0 && offers == []
    {
      this.accept, received, calls, offers := accept, [], 0, [];
    }

    ghost predicate WellBehaved() {
      forall call, size: nat :: size > 0 ==> 0 < accept(call, size) <= size
    }

    method Write(chunk: seq<Byte>) returns (written: int)
      modifies this
      ensures written == accept(old(calls), |chunk|) && calls == old(calls) + 1
      ensures received == old(received) + if 0 < written <= |chunk| then chunk[..written] else []
      ensures offers == old(offers) + [Offer(|chunk|, written)]
    {
      written := accept(calls, |chunk|);
      calls := calls + 1;
      offers := offers + [Offer(|chunk|, written)];
      if 0 < written <= |chunk| {
        received := received + chunk[..written];
      }
    }
  }

  /** Repeats short writes, never offering more than the last accepted count, until everything is written or a write fails. */
  method WriteAll(sink: Sink, payload: seq<Byte>) returns (ok: bool)
    modifies sink
    ensures old(sink.offers) <= sink.offers
    ensures forall i :: |old(sink.offers)| <= i < |sink.offers| - 1 ==> sink.offers[i + 1].size <= sink.offers[i].written
    ensures ok ==> sink.received == old(sink.received) + payload
    ensures !ok ==> !sink.WellBehaved() && exists n :: 0 <= n < |payload| && sink.received == old(sink.received) + payload[..n]
  {
    var offset, chunkSize := 0, |payload|;
    while offset < |payload|
      invariant 0 <= offset <= |payload| && (offset < |payload| ==> chunkSize > 0)
      invariant sink.received == old(sink.received) + payload[..offset]
      invariant old(sink.offers) <= sink.offers
      invariant forall i :: |old(sink.offers)| <= i < |sink.offers| - 1 ==> sink.offers[i + 1].size <= sink.offers[i].written
      invariant offset < |payload| && |sink.offers| > |old(sink.offers)| ==> chunkSize <= sink.offers[|sink.offers| - 1].written
      decreases |payload| - offset
    {
      var end := if offset + chunkSize < |payload| then offset + chunkSize else |payload|;
      var chunk := payload[offset..end];
      var written := sink.Write(chunk);
      if written <= 0 || written > |chunk| {
        assert sink.received == old(sink.received) + payload[..offset];
        return false;
      }
      assert payload[..offset] + chunk[..written] == payload[..offset + written];
      offset := offset + written;
      if written < |chunk| {
        chunkSize := written;
      }
    }
    assert payload[..offset] == payload;
    return true;
  }

  // ---------------------------------------------------------------- the simple converter

  /** Running totals of a conversion: counters, coverage, the last accepted open, and everything written so far. */
  datatype Totals = Totals(
    linesSeen: nat, written: nat, quarantined: nat, coverageStart: Option<int>, coverageEnd: Option<int>,
    previousOpen: Option<int>, research: seq<Byte>, failures: seq<Byte>)

  const NOTHING := Totals(0, 0, 0, None, None, None, [], [])

  /** The preview of an invalid candle is withheld from the stream output. */
  function ForOutput(f: Failure): Failure {
    if f.kind == InvalidCandle then f.(preview := None) else f
  }

  /** One logical line: the reader reports an over-long one itself, any other goes through the line converter. */
  function LineInStream(codec: Codec, line: seq<Byte>, n: nat, ctx: Context, previousOpen: Option<int>): LineResult {
    if |line| > ctx.maxLineBytes then Quarantined(Failure(ctx.file, n, LineTooLarge, None, codec.sha(line)))
    else ConvertLine(codec, line, n, ctx, previousOpen)
  }

  /** None if the line aborts the conversion. */
  function StepLine(codec: Codec, ctx: Context, t: Totals, line: seq<Byte>): Option<Totals> {
    var result := LineInStream(codec, line, t.linesSeen + 1, ctx, t.previousOpen);
    if result.RangeUnsupported? then None else Some(Counted(codec, t, result))
  }

  function Counted(codec: Codec, t: Totals, result: LineResult): Totals
    requires !result.RangeUnsupported?
  {
    match result
    case Converted(c) =>
      t.(linesSeen := t.linesSeen + 1, written := t.written + 1, previousOpen := Some(c.openMs),
         coverageStart := Some(if t.coverageStart.Some? && t.coverageStart.value < c.openMs then t.coverageStart.value else c.openMs),
         coverageEnd := Some(if t.coverageEnd.Some? && t.coverageEnd.value > c.closeMs then t.coverageEnd.value else c.closeMs),
         research := t.research + codec.candleText(c))
    case Quarantined(f) =>
      t.(linesSeen := t.linesSeen + 1, quarantined := t.quarantined + 1, failures := t.failures + codec.failureText(ForOutput(f)))
  }

  /** A fold of the line conversion over whole lines; None if a line aborts it. */
  function Fold(codec: Codec, ctx: Context, lines: seq<seq<Byte>>): Option<Totals> {
    if lines == [] then Some(NOTHING)
    else match Fold(codec, ctx, lines[..|lines| - 1])
      case None => None
      case Some(t) => StepLine(codec, ctx, t, lines[|lines| - 1])
  }

  /** No line aborts the conversion: the range is supported, or no line gets as far as the line converter. */
  predicate Converts(ctx: Context, lines: seq<seq<Byte>>) {
    ctx.RangeSupported() || forall i :: 0 <= i < |lines| ==> |lines[i]| > ctx.maxLineBytes
  }

  lemma StepIsJudged(codec: Codec, ctx: Context, t: Totals, line: seq<Byte>)
    ensures StepLine(codec, ctx, t, line) ==
              if Converts(ctx, [line]) then Some(Counted(codec, t, Judged(codec, line, t.linesSeen + 1, ctx, t.previousOpen))) else None
  {
    hide IsEnvelope, CandleFromKline, CheckCandle;
    assert [line][0] == line;
  }

  lemma {:induction false} FoldConverts(codec: Codec, ctx: Context, lines: seq<seq<Byte>>)
    ensures Fold(codec, ctx, lines).Some? <==> Converts(ctx, lines)
  {
    hide StepLine, Judged, Counted;
    if lines != [] {
      var init, line := lines[..|lines| - 1], lines[|lines| - 1];
      FoldConverts(codec, ctx, init);
      if Fold(codec, ctx, init).Some? { StepIsJudged(codec, ctx, Fold(codec, ctx, init).value, line); }
      ConvertsMore(ctx, init, line);
      assert lines == init + [line];
      hide Converts;
    }
  }

  lemma ConvertsMore(ctx: Context, lines: seq<seq<Byte>>, line: seq<Byte>)
    ensures Converts(ctx, lines + [line]) <==> Converts(ctx, lines) && Converts(ctx, [line])
  {
    assert [line][0] == line && (lines + [line])[|lines|] == line;
    assert forall i :: 0 <= i < |lines| ==> (lines + [line])[i] == lines[i];
  }

  datatype Report = Report(
    file: string, linesSeen: nat, written: nat, quarantined: nat, coverageStart: Option<int>, coverageEnd: Option<int>,
    researchSha: string, failureSha: string, researchBytes: nat, failureBytes: nat, success: bool)

  /** The checks of `StreamConversionReport.__post_init__`. */
  predicate ReportAccepted(r: Report) {
    && r.linesSeen == r.written + r.quarantined
    && r.success == (r.quarantined == 0)
    && (if r.written == 0 then r.coverageStart.None? && r.coverageEnd.None?
        else r.coverageStart.Some? && r.coverageEnd.Some? && 0 <= r.coverageStart.value < r.coverageEnd.value)
  }

  function ReportOf(codec: Codec, ctx: Context, t: Totals): Report {
    Report(ctx.file, t.linesSeen, t.written, t.quarantined, t.coverageStart, t.coverageEnd,
           codec.sha(t.research), codec.sha(t.failures), |t.research|, |t.failures|, t.quarantined == 0)
  }

  /** The candles accepted, in order. */
  function AcceptedCandles(codec: Codec, ctx: Context, lines: seq<seq<Byte>>): seq<Candle>
    requires Fold(codec, ctx, lines).Some?
  {
    if lines == [] then []
    else
      var init := lines[..|lines| - 1];
      AcceptedCandles(codec, ctx, init) + Accepted(codec, ctx, Fold(codec, ctx, init).value, lines[|lines| - 1])
  }

  /** The candle of one more line, if it is accepted. */
  function Accepted(codec: Codec, ctx: Context, t: Totals, line: seq<Byte>): seq<Candle> {
    match Judged(codec, line, t.linesSeen + 1, ctx, t.previousOpen)
    case Converted(c) => [c]
    case Quarantined(_) => []
  }

  function CandleTexts(codec: Codec, candles: seq<Candle>): seq<Byte> {
    if candles == [] then [] else CandleTexts(codec, candles[..|candles| - 1]) + codec.candleText(candles[|candles| - 1])
  }

  /** Opens never decrease, every candle lies in the range and ends at the boundary of its interval. */
  ghost predicate InOrder(candles: seq<Candle>, ctx: Context) {
    && (forall i :: 0 <= i < |candles| ==>
          && 0 <= candles[i].openMs && ctx.StartMs() <= candles[i].openMs < candles[i].closeMs <= ctx.EndMs()
          && Intervals.BoundaryAfter(candles[i].openMs, ctx.interval) == Ok(candles[i].closeMs))
    && (forall i, j :: 0 <= i < j < |candles| ==> candles[i].openMs <= candles[j].openMs)
  }

  /** Conservation and order of running totals, with the candles accepted so far. */
  ghost predicate TotalsOf(t: Totals, candles: seq<Candle>, codec: Codec, ctx: Context) {
    && t.linesSeen == t.written + t.quarantined && t.written == |candles|
    && t.research == CandleTexts(codec, candles)
    && InOrder(candles, ctx)
    && t.previousOpen == (if candles == [] then None else Some(candles[|candles| - 1].openMs))
    && t.coverageStart == (if candles == [] then None else Some(candles[0].openMs))
    && t.coverageEnd == (if candles == [] then None else Some(candles[|candles| - 1].closeMs))
  }

  lemma TotalsStep(t: Totals, candles: seq<Candle>, line: seq<Byte>, codec: Codec, ctx: Context)
    requires TotalsOf(t, candles, codec, ctx) && StepLine(codec, ctx, t, line).Some?
    ensures var next := StepLine(codec, ctx, t, line).value;
            TotalsOf(next, candles + Accepted(codec, ctx, t, line), codec, ctx) && next.linesSeen == t.linesSeen + 1
  {
    StepIsJudged(codec, ctx, t, line);
    hide Judge, InOrder, Intervals.BoundaryAfter, ForOutput, StepLine, Converts;
    if Judge(codec, line, ctx, t.previousOpen).Ok? {
      var c := Judge(codec, line, ctx, t.previousOpen).value;
      AcceptedLine(codec, line, ctx, t.previousOpen);
      OneMoreCandle(candles, c, ctx);
      assert (candles + [c])[..|candles|] == candles;
    } else {
      assert candles + [] == candles;
    }
  }

  /** Conservation: lines seen are written or quarantined, the research bytes are the accepted candles in order, and the
      coverage is the first accepted open and the last accepted close. */
  lemma {:induction false} FoldFacts(codec: Codec, ctx: Context, lines: seq<seq<Byte>>)
    requires Fold(codec, ctx, lines).Some?
    ensures TotalsOf(Fold(codec, ctx, lines).value, AcceptedCandles(codec, ctx, lines), codec, ctx)
    ensures Fold(codec, ctx, lines).value.linesSeen == |lines|
  {
    hide StepLine, InOrder, Accepted;
    if lines == [] {
      NothingInOrder(ctx);
    } else {
      var init, line := lines[..|lines| - 1], lines[|lines| - 1];
      FoldFacts(codec, ctx, init);
      TotalsStep(Fold(codec, ctx, init).value, AcceptedCandles(codec, ctx, init), line, codec, ctx);
      hide TotalsOf;
    }
  }

  /** The failure of one more line, as it is written, if the line is refused. */
  function Refused(codec: Codec, ctx: Context, t: Totals, line: seq<Byte>): seq<Failure> {
    match Judged(codec, line, t.linesSeen + 1, ctx, t.previousOpen)
    case Converted(_) => []
    case Quarantined(f) => [ForOutput(f)]
  }

  /** The failures written, in order. */
  function RefusedLines(codec: Codec, ctx: Context, lines: seq<seq<Byte>>): seq<Failure>
    requires Fold(codec, ctx, lines).Some?
  {
    if lines == [] then []
    else
      var init := lines[..|lines| - 1];
      RefusedLines(codec, ctx, init) + Refused(codec, ctx, Fold(codec, ctx, init).value, lines[|lines| - 1])
  }

  function FailureTexts(codec: Codec, failures: seq<Failure>): seq<Byte> {
    if failures == [] then [] else FailureTexts(codec, failures[..|failures| - 1]) + codec.failureText(failures[|failures| - 1])
  }

  /** Failures by ascending line number, each naming the file, its line and the digest of that line. */
  ghost predicate OwnLines(failures: seq<Failure>, lines: seq<seq<Byte>>, codec: Codec, ctx: Context) {
    && (forall i :: 0 <= i < |failures| ==>
          var f := failures[i];
          1 <= f.lineNumber <= |lines| && OwnFailure(f, f.lineNumber, lines[f.lineNumber - 1], codec, ctx))
    && (forall i, j :: 0 <= i < j < |failures| ==> failures[i].lineNumber < failures[j].lineNumber)
  }

  /** Of the first `n` lines, the ones that are refused, judged after the lines before them, are the ones with a failure, of that
      kind. */
  ghost predicate RefusalsListed(failures: seq<Failure>, codec: Codec, ctx: Context, lines: seq<seq<Byte>>, n: nat)
    requires n <= |lines|
  {
    forall i :: 0 <= i < n ==>
      && Fold(codec, ctx, lines[..i]).Some?
      && Told(failures, i + 1, Judge(codec, lines[i], ctx, Fold(codec, ctx, lines[..i]).value.previousOpen))
  }

  /** There is a failure for the line exactly if the verdict is one, and then of its kind. */
  ghost predicate Told(failures: seq<Failure>, n: nat, verdict: Result<Candle, FailureKind>) {
    && (verdict.Err? <==> exists k :: 0 <= k < |failures| && failures[k].lineNumber == n)
    && (verdict.Err? ==> forall k :: 0 <= k < |failures| && failures[k].lineNumber == n ==> failures[k].kind == verdict.error)
  }

  /** The failure bytes are the texts of the failures of exactly the refused lines, in order. */
  lemma {:induction false} FailureFacts(codec: Codec, ctx: Context, lines: seq<seq<Byte>>)
    requires Fold(codec, ctx, lines).Some?
    ensures var t, failures := Fold(codec, ctx, lines).value, RefusedLines(codec, ctx, lines);
            && t.failures == FailureTexts(codec, failures) && t.quarantined == |failures|
            && OwnLines(failures, lines, codec, ctx) && RefusalsListed(failures, codec, ctx, lines, |lines|)
  {
    hide StepLine, Refused, OwnLines, RefusalsListed, FailureTexts;
    if lines == [] {
      NoFailures(codec, ctx);
    } else {
      var init, line := lines[..|lines| - 1], lines[|lines| - 1];
      FailureFacts(codec, ctx, init);
      FoldFacts(codec, ctx, init);
      hide TotalsOf;
      var t, earlier := Fold(codec, ctx, init).value, RefusedLines(codec, ctx, init);
      assert lines == init + [line];
      FailureStep(codec, ctx, t, earlier, line);
      RefusedStep(codec, ctx, init, line, earlier);
    }
  }

  lemma NoFailures(codec: Codec, ctx: Context)
    ensures FailureTexts(codec, []) == [] && OwnLines([], [], codec, ctx) && RefusalsListed([], codec, ctx, [], 0)
  {
  }

  lemma FailureStep(codec: Codec, ctx: Context, t: Totals, earlier: seq<Failure>, line: seq<Byte>)
    requires StepLine(codec, ctx, t, line).Some? && t.failures == FailureTexts(codec, earlier) && t.quarantined == |earlier|
    ensures var next, failures := StepLine(codec, ctx, t, line).value, earlier + Refused(codec, ctx, t, line);
            next.failures == FailureTexts(codec, failures) && next.quarantined == |failures|
  {
    StepIsJudged(codec, ctx, t, line);
    hide Judge, StepLine, Converts, ForOutput;
    var more := Refused(codec, ctx, t, line);
    if more == [] {
      assert earlier + more == earlier;
    } else {
      assert (earlier + more)[..|earlier|] == earlier;
    }
  }

  /** The failure of a line; only over-long lines, lines that are not text and invalid candles show no preview. */
  ghost predicate OwnFailure(f: Failure, n: nat, line: seq<Byte>, codec: Codec, ctx: Context) {
    && f.lineNumber == n && f.file == ctx.file && f.sha == codec.sha(line)
    && f.preview == (if f.kind in {InvalidCandle, LineTooLarge, InvalidUtf8} then None else codec.preview(line))
  }

  lemma RefusedIs(codec: Codec, ctx: Context, t: Totals, line: seq<Byte>)
    ensures Judge(codec, line, ctx, t.previousOpen).Ok? ==> Refused(codec, ctx, t, line) == []
    ensures Judge(codec, line, ctx, t.previousOpen).Err? ==>
              var more := Refused(codec, ctx, t, line);
              |more| == 1 && more[0].kind == Judge(codec, line, ctx, t.previousOpen).error && OwnFailure(more[0], t.linesSeen + 1, line, codec, ctx)
  {
    hide Judge;
  }

  lemma RefusedStep(codec: Codec, ctx: Context, init: seq<seq<Byte>>, line: seq<Byte>, earlier: seq<Failure>)
    requires Fold(codec, ctx, init).Some? && Fold(codec, ctx, init).value.linesSeen == |init|
    requires OwnLines(earlier, init, codec, ctx) && RefusalsListed(earlier, codec, ctx, init, |init|)
    ensures var lines, failures := init + [line], earlier + Refused(codec, ctx, Fold(codec, ctx, init).value, line);
            OwnLines(failures, lines, codec, ctx) && RefusalsListed(failures, codec, ctx, lines, |lines|)
  {
    hide Fold, Judge, Refused, OwnLines, RefusalsListed;
    var t := Fold(codec, ctx, init).value;
    RefusedIs(codec, ctx, t, line);
    var more := Refused(codec, ctx, t, line);
    OwnLinesStep(earlier, more, init, line, codec, ctx);
    ListedStep(earlier, more, codec, ctx, init, line);
  }

  lemma OwnLinesStep(earlier: seq<Failure>, more: seq<Failure>, init: seq<seq<Byte>>, line: seq<Byte>, codec: Codec, ctx: Context)
    requires OwnLines(earlier, init, codec, ctx)
    requires more == [] || (|more| == 1 && OwnFailure(more[0], |init| + 1, line, codec, ctx))
    ensures OwnLines(earlier + more, init + [line], codec, ctx)
  {
    var failures, lines := earlier + more, init + [line];
    assert lines[|init|] == line && forall i :: 0 <= i < |init| ==> lines[i] == init[i];
    forall i | 0 <= i < |failures| ensures failures[i] == if i < |earlier| then earlier[i] else more[i - |earlier|] {}
  }

  lemma ListedStep(earlier: seq<Failure>, more: seq<Failure>, codec: Codec, ctx: Context, init: seq<seq<Byte>>, line: seq<Byte>)
    requires Fold(codec, ctx, init).Some? && RefusalsListed(earlier, codec, ctx, init, |init|) && OwnLines(earlier, init, codec, ctx)
    requires OneMore(more, |init| + 1, Judge(codec, line, ctx, Fold(codec, ctx, init).value.previousOpen))
    ensures RefusalsListed(earlier + more, codec, ctx, init + [line], |init| + 1)
  {
    hide Fold, Judge, OwnFailure, Told;
    var lines, failures := init + [line], earlier + more;
    forall i | 0 <= i < |lines|
      ensures Fold(codec, ctx, lines[..i]).Some?
      ensures Told(failures, i + 1, Judge(codec, lines[i], ctx, Fold(codec, ctx, lines[..i]).value.previousOpen))
    {
      if i == |init| {
        assert lines[..i] == init && lines[i] == line;
      } else {
        assert lines[..i] == init[..i] && lines[i] == init[i];
      }
      var verdict := Judge(codec, lines[i], ctx, Fold(codec, ctx, lines[..i]).value.previousOpen);
      ToldStep(earlier, more, |init|, i + 1, verdict);
    }
  }

  ghost predicate OneMore(more: seq<Failure>, n: nat, verdict: Result<Candle, FailureKind>) {
    if verdict.Ok? then more == [] else |more| == 1 && more[0].lineNumber == n && more[0].kind == verdict.error
  }

  lemma ToldStep(earlier: seq<Failure>, more: seq<Failure>, last: nat, n: nat, verdict: Result<Candle, FailureKind>)
    requires forall k :: 0 <= k < |earlier| ==> earlier[k].lineNumber <= last
    requires |more| <= 1 && (more != [] ==> more[0].lineNumber == last + 1)
    requires if n <= last then Told(earlier, n, verdict) else n == last + 1 && OneMore(more, n, verdict)
    ensures Told(earlier + more, n, verdict)
  {
    var all := earlier + more;
    assert forall k :: 0 <= k < |all| ==> all[k] == if k < |earlier| then earlier[k] else more[k - |earlier|];
    if n <= last {
      if k :| 0 <= k < |earlier| && earlier[k].lineNumber == n { assert all[k].lineNumber == n; }
    } else if more != [] {
      assert all[|earlier|] == more[0];
    }
  }

  lemma NothingInOrder(ctx: Context)
    ensures InOrder([], ctx)
  {
  }

  lemma OneMoreCandle(candles: seq<Candle>, c: Candle, ctx: Context)
    requires InOrder(candles, ctx)
    requires 0 <= c.openMs && ctx.StartMs() <= c.openMs < c.closeMs <= ctx.EndMs()
    requires Intervals.BoundaryAfter(c.openMs, ctx.interval) == Ok(c.closeMs)
    requires candles != [] ==> candles[|candles| - 1].openMs <= c.openMs
    ensures InOrder(candles + [c], ctx)
    ensures candles != [] ==> candles[0].openMs <= c.openMs && candles[|candles| - 1].closeMs <= c.closeMs
  {
    hide Intervals.BoundaryAfter;
    if candles != [] {
      CloseOrder(candles[|candles| - 1], c, ctx.interval);
      assert candles[0].openMs <= candles[|candles| - 1].openMs;
    }
    var all := candles + [c];
    forall i, j | 0 <= i < j < |all| ensures all[i].openMs <= all[j].openMs {
      if j == |candles| { assert candles[i].openMs <= candles[|candles| - 1].openMs; }
    }
  }

  lemma CloseOrder(a: Candle, b: Candle, interval: string)
    requires a.openMs <= b.openMs
    requires Intervals.BoundaryAfter(a.openMs, interval) == Ok(a.closeMs) && Intervals.BoundaryAfter(b.openMs, interval) == Ok(b.closeMs)
    ensures a.closeMs <= b.closeMs
  {
    hide Intervals.BoundaryAfter;
    if a.openMs < b.openMs {
      Intervals.BoundaryMonotone(a.openMs, b.openMs, interval);
    }
  }

  /** The report of a conversion is never rejected by its own checks. */
  lemma {:induction false} ReportNeverRejected(codec: Codec, ctx: Context, lines: seq<seq<Byte>>)
    requires Fold(codec, ctx, lines).Some?
    ensures ReportAccepted(ReportOf(codec, ctx, Fold(codec, ctx, lines).value))
  {
    hide Fold, AcceptedCandles, TotalsOf, ReportAccepted;
    FoldFacts(codec, ctx, lines);
    TotalsReportAccepted(codec, ctx, Fold(codec, ctx, lines).value, AcceptedCandles(codec, ctx, lines));
  }

  lemma TotalsReportAccepted(codec: Codec, ctx: Context, t: Totals, candles: seq<Candle>)
    requires TotalsOf(t, candles, codec, ctx)
    ensures ReportAccepted(ReportOf(codec, ctx, t))
  {
    hide CandleTexts, Intervals.BoundaryAfter;
    if candles != [] {
      assert candles[0].openMs <= candles[|candles| - 1].openMs < candles[|candles| - 1].closeMs;
    }
  }

  // ---------------------------------------------------------------- the bounded-memory converter

  datatype StreamError = ReadRaw | WriteResearch | WriteFailure | BadRange | BadReport

  /** An over-long line, from its first chunk: read to its own newline and digested whole. */
  method Oversized(raw: RawStream, first: seq<Byte>, readSize: nat, ghost line: seq<Byte>, ghost behind: seq<Byte>)
    returns (ok: bool, digested: seq<Byte>)
    requires readSize > 0 && first != [] && IsLine(line) && |first| <= |line| && first == line[..|first|]
    requires line[|line| - 1] != NEWLINE ==> behind == []
    requires raw.rest == line[|first|..] + behind
    modifies raw
    ensures raw.largest <= if old(raw.largest) > readSize then old(raw.largest) else readSize
    ensures ok ==> digested == line && raw.rest == behind
    ensures !ok ==> exists call :: raw.broken(call)
  {
    hide IsLine, LineLength, Min;
    var chunk := first;
    digested := [];
    ghost var n := |first|;
    while true
      invariant 0 < |chunk| <= n <= |line| && chunk == line[n - |chunk|..n] && digested == line[..n - |chunk|]
      invariant raw.rest == line[n..] + behind
      invariant raw.largest <= if old(raw.largest) > readSize then old(raw.largest) else readSize
      decreases |line| - n
    {
      digested := digested + chunk;
      assert digested == line[..n];
      if chunk[|chunk| - 1] == NEWLINE {
        EndsAtNewline(line, n);
        break;
      }
      ReadPart(line, behind, n, readSize);
      var read;
      read, chunk := raw.ReadLine(readSize);
      if !read {
        return false, digested;
      }
      if chunk == [] {
        break;
      }
      n := n + |chunk|;
    }
    return true, digested;
  }

  lemma EndsAtNewline(line: seq<Byte>, n: nat)
    requires IsLine(line) && 0 < n <= |line| && line[n - 1] == NEWLINE
    ensures n == |line|
  {
  }

  lemma Tail(line: seq<Byte>, n: nat)
    requires IsLine(line) && n <= |line|
    ensures line[n..] != [] ==> IsLine(line[n..]) && line[n..][|line| - n - 1] == line[|line| - 1]
  {
  }

  /** What one read takes from the middle of a line. */
  lemma ReadPart(line: seq<Byte>, behind: seq<Byte>, n: nat, size: nat)
    requires IsLine(line) && n <= |line| && size > 0 && (line[|line| - 1] != NEWLINE ==> behind == [])
    requires n == |line| ==> line[n - 1] != NEWLINE
    ensures var rest := line[n..] + behind;
            var k := Min(size, LineLength(rest));
            && (k == 0 <==> n == |line|) && n + k <= |line|
            && rest[..k] == line[n..n + k] && rest[k..] == line[n + k..] + behind
  {
    hide IsLine, LineLength;
    Tail(line, n);
    FirstLineOf(line[n..], behind);
    var rest := line[n..] + behind;
    if n < |line| {
      var k := Min(size, LineLength(rest));
      assert rest[..k] == line[n..n + k];
    }
  }

  /** The first line of what follows. */
  lemma FirstLineOf(line: seq<Byte>, behind: seq<Byte>)
    requires line != [] ==> IsLine(line) && (line[|line| - 1] != NEWLINE ==> behind == [])
    ensures line != [] ==> LineLength(line + behind) == |line| && (line + behind)[..|line|] == line && (line + behind)[|line|..] == behind
  {
    if |line| == 1 {
      assert line[0] != NEWLINE ==> line + behind == line && line[1..] == [];
    } else if line != [] {
      FirstLineOf(line[1..], behind);
      assert (line + behind)[1..] == line[1..] + behind;
    }
  }

  /** A byte count and a digest are those of what a sink received since. */
  predicate Received(bytes: nat, sha: string, codec: Codec, before: seq<Byte>, now: seq<Byte>) {
    before <= now && bytes == |now| - |before| && sha == codec.sha(now[|before|..])
  }

  lemma ReportTells(codec: Codec, ctx: Context, lines: seq<seq<Byte>>, research: seq<Byte>, failure: seq<Byte>)
    requires Fold(codec, ctx, lines).Some?
    ensures var t := Fold(codec, ctx, lines).value;
            var report := ReportOf(codec, ctx, t);
            && Received(report.researchBytes, report.researchSha, codec, research, research + t.research)
            && Received(report.failureBytes, report.failureSha, codec, failure, failure + t.failures)
            && report.linesSeen == |lines| == report.written + report.quarantined
            && report.file == ctx.file && (report.success <==> report.quarantined == 0)
  {
    hide Fold, AcceptedCandles, CandleTexts, InOrder;
    FoldFacts(codec, ctx, lines);
    var t := Fold(codec, ctx, lines).value;
    assert (research + t.research)[|research|..] == t.research && (failure + t.failures)[|failure|..] == t.failures;
  }

  /** Reads one logical line at a time, never asking for more than `maxLineBytes + 1` bytes. On success both sinks have received
      exactly what the fold over the whole lines produces, and the report is the one of that fold; with sinks that accept any
      positive part of a chunk and a stream that does not fail, it succeeds. */
  method ConvertStream(raw: RawStream, research: Sink, failure: Sink, codec: Codec, ctx: Context)
    returns (r: Result<Report, StreamError>)
    requires research != failure && ctx.maxLineBytes >= 1
    modifies raw, research, failure
    ensures r.Ok? ==>
              && Fold(codec, ctx, Lines(old(raw.rest))).Some?
              && var t := Fold(codec, ctx, Lines(old(raw.rest))).value;
              && research.received == old(research.received) + t.research
              && failure.received == old(failure.received) + t.failures
              && r.value == ReportOf(codec, ctx, t)
              && raw.rest == []
    ensures r.Ok? ==>
              && Received(r.value.researchBytes, r.value.researchSha, codec, old(research.received), research.received)
              && Received(r.value.failureBytes, r.value.failureSha, codec, old(failure.received), failure.received)
              && r.value.linesSeen == |Lines(old(raw.rest))| == r.value.written + r.value.quarantined
              && r.value.file == ctx.file && (r.value.success <==> r.value.quarantined == 0)
    ensures raw.largest <= if old(raw.largest) > ctx.maxLineBytes + 1 then old(raw.largest) else ctx.maxLineBytes + 1
    ensures r == Err(BadRange) ==> !Converts(ctx, Lines(old(raw.rest)))
    ensures r != Err(BadReport)
    ensures (forall call :: !raw.broken(call)) && research.WellBehaved() && failure.WellBehaved() ==>
              if Converts(ctx, Lines(old(raw.rest))) then r.Ok? else r == Err(BadRange)
  {
    hide Fold, Judge, Lines, IsLine, ForOutput, ReportAccepted, Received;
    var readSize := ctx.maxLineBytes + 1;
    var t := NOTHING;
    ghost var lines := Lines(raw.rest);
    ghost var done: seq<seq<Byte>> := [];
    FoldNothing(codec, ctx);
    while true
      invariant lines == done + Lines(raw.rest)
      invariant Fold(codec, ctx, done) == Some(t)
      invariant research.received == old(research.received) + t.research
      invariant failure.received == old(failure.received) + t.failures
      invariant raw.largest <= if old(raw.largest) > readSize then old(raw.largest) else readSize
      decreases |raw.rest|
    {
      ghost var data := raw.rest;
      LinesStep(data);
      var read, chunk := raw.ReadLine(readSize);
      if !read {
        return Err(ReadRaw);
      }
      if chunk == [] {
        break;
      }
      ghost var line, behind := data[..LineLength(data)], data[LineLength(data)..];
      var result: LineResult;
      if |chunk| > ctx.maxLineBytes {
        var ok, digested := Oversized(raw, chunk, readSize, line, behind);
        if !ok {
          return Err(ReadRaw);
        }
        result := Quarantined(Failure(ctx.file, t.linesSeen + 1, LineTooLarge, None, codec.sha(digested)));
      } else {
        assert chunk == line;
        result := ConvertLine(codec, chunk, t.linesSeen + 1, ctx, t.previousOpen);
        if result.RangeUnsupported? {
          assert lines[|done|] == line;
          return Err(BadRange);
        }
      }
      assert raw.rest == behind;
      assert result == LineInStream(codec, line, t.linesSeen + 1, ctx, t.previousOpen);
      var error;
      error, t := Deliver(research, failure, codec, t, result);
      if error.Some? {
        return Err(error.value);
      }
      FoldAppend(codec, ctx, done, line);
      done := done + [line];
    }
    assert done == lines;
    FoldConverts(codec, ctx, done);
    ReportNeverRejected(codec, ctx, done);
    ReportTells(codec, ctx, done, old(research.received), old(failure.received));
    var report := ReportOf(codec, ctx, t);
    if !ReportAccepted(report) {
      return Err(BadReport);
    }
    return Ok(report);
  }

  /** Writes one result to its sink and counts it. */
  method Deliver(research: Sink, failure: Sink, codec: Codec, t: Totals, result: LineResult) returns (error: Option<StreamError>, next: Totals)
    requires research != failure && !result.RangeUnsupported?
    modifies research, failure
    ensures error.None? ==>
              && next == Counted(codec, t, result)
              && (forall base :: old(research.received) == base + t.research ==> research.received == base + next.research)
              && (forall base :: old(failure.received) == base + t.failures ==> failure.received == base + next.failures)
    ensures error.Some? ==> error.value in {WriteResearch, WriteFailure} && !(research.WellBehaved() && failure.WellBehaved())
  {
    match result {
      case Converted(c) =>
        var output := codec.candleText(c);
        var ok := WriteAll(research, output);
        if !ok {
          return Some(WriteResearch), t;
        }
        next := t.(linesSeen := t.linesSeen + 1, written := t.written + 1, previousOpen := Some(c.openMs),
                   coverageStart := Some(if t.coverageStart.Some? && t.coverageStart.value < c.openMs then t.coverageStart.value else c.openMs),
                   coverageEnd := Some(if t.coverageEnd.Some? && t.coverageEnd.value > c.closeMs then t.coverageEnd.value else c.closeMs),
                   research := t.research + output);
      case Quarantined(f) =>
        var output := codec.failureText(ForOutput(f));
        var ok := WriteAll(failure, output);
        if !ok {
          return Some(WriteFailure), t;
        }
        next := t.(linesSeen := t.linesSeen + 1, quarantined := t.quarantined + 1, failures := t.failures + output);
    }
    return None, next;
  }

  lemma FoldNothing(codec: Codec, ctx: Context)
    ensures Fold(codec, ctx, []) == Some(NOTHING)
  {
  }

  lemma FoldAppend(codec: Codec, ctx: Context, lines: seq<seq<Byte>>, line: seq<Byte>)
    requires Fold(codec, ctx, lines).Some?
    ensures Fold(codec, ctx, lines + [line]) == StepLine(codec, ctx, Fold(codec, ctx, lines).value, line)
  {
    assert (lines + [line])[..|lines|] == lines;
    hide StepLine;
  }

  lemma LinesStep(data: seq<Byte>)
    ensures data == [] <==> Lines(data) == []
    ensures data != [] ==>
              var n := LineLength(data);
              && Lines(data) == [data[..n]] + Lines(data[n..])
              && IsLine(data[..n]) && (data[n - 1] != NEWLINE ==> data[n..] == [])
              && data == data[..n] + data[n..]
  {
    if data != [] {
      var n := LineLength(data);
      LinesUnfold(data);
      hide Lines, LineLength;
      assert data == data[..n] + data[n..];
    }
  }

  lemma LinesUnfold(data: seq<Byte>)
    requires data != []
    ensures Lines(data) == [data[..LineLength(data)]] + Lines(data[LineLength(data)..])
  {
    hide LineLength;
  }

}
