/** packages/market_data/datasets/converter.py and the candle construction of research_format.py: one raw archive line becomes
    one research candle or one typed failure. */
module Converter {
  import opened Wrappers
  import opened Json
  import opened Intervals
  import opened Decimals
  import Dataset

  type Byte = b: int | 0 <= b < 256

  const NEWLINE: Byte := 10

  // ---------------------------------------------------------------- research candles

  /** All numbers are canonical texts; `closeMs` is the exclusive end. */
  datatype Candle = Candle(
    symbol: string, interval: string, openTime: string, openMs: int, closeTime: string, closeMs: int,
    open: string, high: string, low: string, close: string, volume: string, quoteVolume: string,
    tradeCount: int, takerBuyBase: string, takerBuyQuote: string)

  datatype CandleError = CandleInvalid

  function DecimalField(field: Json): (r: Result<string, CandleError>)
    ensures r.Ok? ==> Parse(r.value).Some?
  {
    if !field.Str? then Err(CandleInvalid)
    else match CanonicalDecimal(field.chars)
      case Err(_) => Err(CandleInvalid)
      case Ok(text) => PreservesNumber(field.chars); Ok(text)
  }

  /** Times of a raw kline payload: integers, representable, and an inclusive close that ends exactly at the boundary. */
  function PayloadSpan(items: seq<Json>, interval: string): Result<Dataset.Downloader.Span, CandleError>
    requires |items| == 12
  {
    if !items[0].Int? || !items[6].Int? || !items[8].Int? || !items[11].Str? then Err(CandleInvalid)
    else if !Representable(items[0].value) || !Representable(items[6].value) then Err(CandleInvalid)
    else match BoundaryAfter(items[0].value, interval)
      case Err(_) => Err(CandleInvalid)
      case Ok(close) =>
        if items[6].value + 1 != close || !Representable(close) then Err(CandleInvalid)
        else Ok(Dataset.Downloader.Span(items[0].value, close))
  }

  predicate PricesOrdered(open: string, high: string, low: string, close: string)
    requires Parse(open).Some? && Parse(high).Some? && Parse(low).Some? && Parse(close).Some?
  {
    var (o, h, l, c) := (NumberOf(open), NumberOf(high), NumberOf(low), NumberOf(close));
    h >= l && h >= o && h >= c && l <= o && l <= c
  }

  predicate NonNegative(text: string)
    requires Parse(text).Some?
  {
    NumberOf(text) >= 0.0
  }

  datatype Amounts = Amounts(
    open: string, high: string, low: string, close: string, volume: string, quoteVolume: string,
    tradeCount: int, takerBuyBase: string, takerBuyQuote: string)

  /** The amounts of a raw payload: canonical decimals, ordered prices, and volumes that are not negative. */
  function AmountsOf(items: seq<Json>): Result<Amounts, CandleError>
    requires |items| == 12
  {
    var open :- DecimalField(items[1]);
    var high :- DecimalField(items[2]);
    var low :- DecimalField(items[3]);
    var close :- DecimalField(items[4]);
    var volume :- DecimalField(items[5]);
    var quoteVolume :- DecimalField(items[7]);
    var takerBuyBase :- DecimalField(items[9]);
    var takerBuyQuote :- DecimalField(items[10]);
    if items[8].Int? && items[8].value >= 0 && PricesOrdered(open, high, low, close)
       && NonNegative(volume) && NonNegative(quoteVolume) && NonNegative(takerBuyBase) && NonNegative(takerBuyQuote) then
      Ok(Amounts(open, high, low, close, volume, quoteVolume, items[8].value, takerBuyBase, takerBuyQuote))
    else Err(CandleInvalid)
  }

  function CandleFromKline(payload: Json, symbol: string, interval: string): Result<Candle, CandleError> {
    if !payload.Arr? || |payload.items| != 12 then Err(CandleInvalid)
    else
      var span :- PayloadSpan(payload.items, interval);
      var a :- AmountsOf(payload.items);
      if !Representable(span.open) || !Representable(span.close) || span.close <= span.open then Err(CandleInvalid)
      else Ok(Candle(symbol, interval, Dataset.IsoMs(span.open), span.open, Dataset.IsoMs(span.close), span.close,
                     a.open, a.high, a.low, a.close, a.volume, a.quoteVolume, a.tradeCount, a.takerBuyBase, a.takerBuyQuote))
  }

  /** The times of an accepted payload are the ones the downloader validated. */
  lemma CandleTimes(payload: Json, symbol: string, interval: string)
    requires CandleFromKline(payload, symbol, interval).Ok?
    ensures var c := CandleFromKline(payload, symbol, interval).value;
            && c.symbol == symbol && c.interval == interval
            && BoundaryAfter(c.openMs, interval) == Ok(c.closeMs) && 0 <= c.openMs < c.closeMs
            && Representable(c.openMs) && Representable(c.closeMs)
            && c.openTime == Dataset.IsoMs(c.openMs) && c.closeTime == Dataset.IsoMs(c.closeMs)
            && Dataset.Downloader.KlineSpan(payload, interval) == Ok(Dataset.Downloader.Span(c.openMs, c.closeMs))
  {
    hide AmountsOf, BoundaryAfter, Dataset.IsoMs;
  }

  /** A raw field that is a decimal literal whose fixed-point text is within the bound. */
  predicate DecimalText(field: Json) {
    && field.Str? && Parse(field.chars).Some? && WellFormed(Parse(field.chars).value)
    && |FixedPoint(ToDecimal(Parse(field.chars).value))| <= 4_096
  }

  /** A text in normal form with the number of a raw field. */
  ghost predicate Carries(field: Json, text: string) {
    && field.Str? && Parse(field.chars).Some? && Parse(text).Some? && NumberOf(text) == NumberOf(field.chars)
    && exists p :: Canonical(p) && Show(p) == text
  }

  lemma DecimalFieldCarries(field: Json)
    ensures DecimalField(field).Ok? <==> DecimalText(field)
    ensures DecimalField(field).Ok? ==> Carries(field, DecimalField(field).value)
  {
    hide CanonicalDecimal, Parse, NumberOf, Show, Canonical;
    if field.Str? {
      Accepted(field.chars);
      if CanonicalDecimal(field.chars).Ok? { PreservesNumber(field.chars); }
    }
  }

  /** Every price and amount of an accepted candle is the number in its own place of the payload, as a text in normal form. */
  lemma CandleAmounts(payload: Json, symbol: string, interval: string)
    requires CandleFromKline(payload, symbol, interval).Ok?
    ensures payload.Arr? && |payload.items| == 12
    ensures var items, c := payload.items, CandleFromKline(payload, symbol, interval).value;
            && Carries(items[1], c.open) && Carries(items[2], c.high) && Carries(items[3], c.low) && Carries(items[4], c.close)
            && Carries(items[5], c.volume) && Carries(items[7], c.quoteVolume)
            && items[8] == Int(c.tradeCount) && Carries(items[9], c.takerBuyBase) && Carries(items[10], c.takerBuyQuote)
  {
    hide PayloadSpan, DecimalField, Carries, DecimalText, PricesOrdered, NonNegative, Dataset.IsoMs, Parse;
    forall i | 0 <= i < 12 { DecimalFieldCarries(payload.items[i]); }
  }

  function NumberIn(field: Json): real
    requires DecimalText(field)
  {
    NumberOf(field.chars)
  }

  /** The price and amount fields are decimals: prices in order, and amounts that are not negative. */
  ghost predicate FairNumbers(items: seq<Json>)
    requires |items| == 12
  {
    && DecimalText(items[1]) && DecimalText(items[2]) && DecimalText(items[3]) && DecimalText(items[4])
    && NumberIn(items[3]) <= NumberIn(items[1]) <= NumberIn(items[2]) && NumberIn(items[3]) <= NumberIn(items[4]) <= NumberIn(items[2])
    && DecimalText(items[5]) && NumberIn(items[5]) >= 0.0 && DecimalText(items[7]) && NumberIn(items[7]) >= 0.0
    && DecimalText(items[9]) && NumberIn(items[9]) >= 0.0 && DecimalText(items[10]) && NumberIn(items[10]) >= 0.0
  }

  /** Integers in the time and count fields, and a representable span from its open to the millisecond behind its close. */
  ghost predicate FairTimes(items: seq<Json>, interval: string)
    requires |items| == 12
  {
    && items[0].Int? && items[6].Int? && items[8].Int? && items[8].value >= 0 && items[11].Str?
    && Representable(items[0].value) && Representable(items[6].value + 1) && items[0].value <= items[6].value
    && BoundaryAfter(items[0].value, interval) == Ok(items[6].value + 1)
  }

  lemma SpanAccepted(items: seq<Json>, interval: string)
    requires |items| == 12
    ensures PayloadSpan(items, interval).Ok? && items[8].value >= 0 <==> FairTimes(items, interval)
    ensures PayloadSpan(items, interval).Ok? ==>
              var span := PayloadSpan(items, interval).value;
              Representable(span.open) && Representable(span.close) && span.open < span.close
  {
    hide BoundaryAfter;
    if items[0].Int? && BoundaryAfter(items[0].value, interval).Ok? { Intervals.BoundaryAhead(items[0].value, interval); }
  }

  lemma AmountsAccepted(items: seq<Json>)
    requires |items| == 12
    ensures AmountsOf(items).Ok? <==>
            items[8].Int? && items[8].value >= 0 && FairNumbers(items)
  {
    hide DecimalField, DecimalText, NumberOf, Parse, Canonical, Show;
    forall i | 0 <= i < 12 { DecimalFieldCarries(items[i]); }
  }

  /** Exactly these payloads become candles. */
  lemma CandleAcceptedExactly(payload: Json, symbol: string, interval: string)
    ensures CandleFromKline(payload, symbol, interval).Ok? <==>
            payload.Arr? && |payload.items| == 12 && FairTimes(payload.items, interval) && FairNumbers(payload.items)
  {
    hide BoundaryAfter, Representable, DecimalField, DecimalText, Carries, NumberOf, Parse, Dataset.IsoMs, FairNumbers, AmountsOf;
    if payload.Arr? && |payload.items| == 12 {
      SpanAccepted(payload.items, interval);
      AmountsAccepted(payload.items);
    }
  }

  // ---------------------------------------------------------------- one line

  datatype FailureKind =
    LineTooLarge | InvalidUtf8 | MalformedJson | InvalidEnvelope | InvalidCandle | OutOfRange | OrderingViolation

  datatype Failure = Failure(file: string, lineNumber: nat, kind: FailureKind, preview: Option<string>, sha: string)

  /** UTF-8 and JSON decoding of a line without its line ending; repeated object keys are reported. */
  datatype Decoded = NotUtf8 | NotJson | RepeatedKey | Parsed(value: Json)

  /** Library functions that stay abstract: decoding, the sanitized preview, SHA-256 and the two serializations. */
  datatype Codec = Codec(
    decode: seq<Byte> -> Decoded, preview: seq<Byte> -> Option<string>, sha: seq<Byte> -> string,
    candleText: Candle -> seq<Byte>, failureText: Failure -> seq<Byte>)

  datatype Context = Context(
    file: string, symbol: string, interval: string, rangeStartUs: int, rangeEndUs: int, maxLineBytes: nat)
  {
    /** A range that starts before the epoch passes the constructor but aborts the conversion of every line. */
    predicate RangeSupported() { 0 <= rangeStartUs < rangeEndUs }
    function StartMs(): int { rangeStartUs / 1000 }
    function EndMs(): int { rangeEndUs / 1000 }
  }

  /** `RangeUnsupported` is the exception that aborts the call. */
  datatype LineResult = Converted(candle: Candle) | Quarantined(failure: Failure) | RangeUnsupported

  const ENVELOPE_KEYS: set<string> := {"symbol", "interval", "open_time", "close_time", "source", "payload"}

  /** Why a decoded value is not the envelope of the expected file, if it is not. */
  predicate IsEnvelope(value: Json, ctx: Context) {
    && value.Obj? && value.members.Keys == ENVELOPE_KEYS
    && value.members["symbol"] == Str(ctx.symbol) && value.members["interval"] == Str(ctx.interval)
    && value.members["open_time"].Str? && value.members["close_time"].Str?
    && value.members["source"] == Str(Dataset.SOURCE) && value.members["payload"].Arr?
  }

  function Field(envelope: Json, key: string, ctx: Context): Json
    requires IsEnvelope(envelope, ctx) && key in ENVELOPE_KEYS
  {
    envelope.members[key]
  }

  /** The checks on a candle, in order, once its payload is valid. */
  function CheckCandle(envelope: Json, candle: Candle, ctx: Context, previousOpen: Option<int>): Option<FailureKind>
    requires IsEnvelope(envelope, ctx)
  {
    if Field(envelope, "open_time", ctx) != Str(candle.openTime) || Field(envelope, "close_time", ctx) != Str(candle.closeTime) then
      Some(InvalidEnvelope)
    else if !(ctx.StartMs() <= candle.openMs < ctx.EndMs() && candle.closeMs <= ctx.EndMs()) then Some(FailureKind.OutOfRange)
    else if previousOpen.Some? && candle.openMs < previousOpen.value then Some(OrderingViolation)
    else None
  }

  function Judge(codec: Codec, line: seq<Byte>, ctx: Context, previousOpen: Option<int>): Result<Candle, FailureKind> {
    if |line| > ctx.maxLineBytes then Err(LineTooLarge)
    else match codec.decode(line)
      case NotUtf8 => Err(InvalidUtf8)
      case RepeatedKey => Err(InvalidEnvelope)
      case NotJson => Err(MalformedJson)
      case Parsed(value) =>
        if !IsEnvelope(value, ctx) then Err(InvalidEnvelope)
        else match CandleFromKline(Field(value, "payload", ctx), ctx.symbol, ctx.interval)
          case Err(_) => Err(InvalidCandle)
          case Ok(candle) =>
            match CheckCandle(value, candle, ctx, previousOpen)
            case Some(kind) => Err(kind)
            case None => Ok(candle)
  }

  /** A range that starts before the epoch aborts every call, before the line is looked at. */
  function ConvertLine(codec: Codec, line: seq<Byte>, lineNumber: nat, ctx: Context, previousOpen: Option<int>): LineResult {
    if !ctx.RangeSupported() then RangeUnsupported else Judged(codec, line, lineNumber, ctx, previousOpen)
  }

  function Judged(codec: Codec, line: seq<Byte>, lineNumber: nat, ctx: Context, previousOpen: Option<int>): (r: LineResult)
    ensures !r.RangeUnsupported?
  {
    match Judge(codec, line, ctx, previousOpen)
    case Ok(candle) => Converted(candle)
    case Err(kind) =>
      var preview := if kind == LineTooLarge || kind == InvalidUtf8 then None else codec.preview(line);
      Quarantined(Failure(ctx.file, lineNumber, kind, preview, codec.sha(line)))
  }

  /** A line is judged exactly when the range is supported, and then on its own. */
  lemma AbortsExactly(codec: Codec, line: seq<Byte>, lineNumber: nat, ctx: Context, previousOpen: Option<int>)
    ensures var result := ConvertLine(codec, line, lineNumber, ctx, previousOpen);
            && (result.RangeUnsupported? <==> !ctx.RangeSupported())
            && (result.Converted? <==> ctx.RangeSupported() && Judge(codec, line, ctx, previousOpen).Ok?)
            && (result.Converted? ==> result.candle == Judge(codec, line, ctx, previousOpen).value)
            && (result.Quarantined? ==>
                  result.failure == Failure(ctx.file, lineNumber, Judge(codec, line, ctx, previousOpen).error,
                                            if |line| > ctx.maxLineBytes || codec.decode(line).NotUtf8? then None else codec.preview(line),
                                            codec.sha(line)))
  {
    hide Judge, CandleIn, TimesMatch;
    VerdictExactly(codec, line, ctx, previousOpen);
  }

  /** What an accepted line guarantees, whatever the library functions are. */
  lemma AcceptedLine(codec: Codec, line: seq<Byte>, ctx: Context, previousOpen: Option<int>)
    requires Judge(codec, line, ctx, previousOpen).Ok?
    ensures var c := Judge(codec, line, ctx, previousOpen).value;
            && ctx.StartMs() <= c.openMs < c.closeMs <= ctx.EndMs()
            && 0 <= c.openMs
            && (previousOpen.Some? ==> previousOpen.value <= c.openMs)
            && BoundaryAfter(c.openMs, ctx.interval) == Ok(c.closeMs)
            && |line| <= ctx.maxLineBytes
  {
    hide CandleFromKline, BoundaryAfter, IsEnvelope, Field, Judge;
    JudgeOk(codec, line, ctx, previousOpen);
    CandleTimes(Field(codec.decode(line).value, "payload", ctx), ctx.symbol, ctx.interval);
  }

  /** The candle of a decoded line, if its envelope is right and its payload valid. */
  function CandleIn(codec: Codec, line: seq<Byte>, ctx: Context): Option<Candle> {
    match codec.decode(line)
    case Parsed(value) =>
      if IsEnvelope(value, ctx) && CandleFromKline(Field(value, "payload", ctx), ctx.symbol, ctx.interval).Ok? then
        Some(CandleFromKline(Field(value, "payload", ctx), ctx.symbol, ctx.interval).value)
      else None
    case _ => None
  }

  /** What a line within the limit is refused for, whatever else is wrong with it further down: encoding, JSON, envelope, payload,
      the times the envelope tells, the range in whole milliseconds, and the order of opens. Otherwise its candle is accepted. */
  lemma VerdictExactly(codec: Codec, line: seq<Byte>, ctx: Context, previousOpen: Option<int>)
    ensures var verdict, decoded, candle := Judge(codec, line, ctx, previousOpen), codec.decode(line), CandleIn(codec, line, ctx);
            && (verdict == Err(LineTooLarge) <==> |line| > ctx.maxLineBytes)
            && (|line| <= ctx.maxLineBytes ==>
                  && (verdict == Err(InvalidUtf8) <==> decoded.NotUtf8?) && (verdict == Err(MalformedJson) <==> decoded.NotJson?)
                  && (verdict == Err(InvalidCandle) <==> decoded.Parsed? && IsEnvelope(decoded.value, ctx) && candle.None?)
                  && (verdict == Err(InvalidEnvelope) <==>
                        || decoded.RepeatedKey? || (decoded.Parsed? && !IsEnvelope(decoded.value, ctx))
                        || (candle.Some? && !TimesMatch(decoded, candle.value)))
                  && (verdict == Err(FailureKind.OutOfRange) <==>
                        candle.Some? && TimesMatch(decoded, candle.value)
                        && (candle.value.openMs < ctx.rangeStartUs / 1000 || candle.value.closeMs > ctx.rangeEndUs / 1000))
                  && (verdict.Ok? <==>
                        candle.Some? && TimesMatch(decoded, candle.value)
                        && ctx.rangeStartUs / 1000 <= candle.value.openMs && candle.value.closeMs <= ctx.rangeEndUs / 1000
                        && (previousOpen.Some? ==> previousOpen.value <= candle.value.openMs))
                  && (verdict.Ok? ==> verdict.value == candle.value))
  {
    hide IsEnvelope, CandleFromKline, BoundaryAfter, Dataset.IsoMs;
    var decoded := codec.decode(line);
    if decoded.Parsed? && IsEnvelope(decoded.value, ctx) {
      EnvelopeFields(decoded.value, ctx);
      if CandleIn(codec, line, ctx).Some? { CandleTimes(Field(decoded.value, "payload", ctx), ctx.symbol, ctx.interval); }
    }
  }

  /** An envelope has its six keys and no others, and names the symbol, the interval and the source that are expected. */
  lemma EnvelopeFields(value: Json, ctx: Context)
    requires IsEnvelope(value, ctx)
    ensures value.Obj? && value.members.Keys == {"symbol", "interval", "open_time", "close_time", "source", "payload"}
    ensures value.members["symbol"] == Str(ctx.symbol) && value.members["interval"] == Str(ctx.interval)
    ensures value.members["open_time"].Str? && value.members["close_time"].Str?
    ensures value.members["source"] == Str("binance_public_rest") && value.members["payload"].Arr?
  {
  }

  /** The envelope tells the open and the close of the candle. */
  predicate TimesMatch(decoded: Decoded, candle: Candle) {
    && decoded.Parsed? && decoded.value.Obj? && "open_time" in decoded.value.members && "close_time" in decoded.value.members
    && decoded.value.members["open_time"] == Str(candle.openTime) && decoded.value.members["close_time"] == Str(candle.closeTime)
  }

  lemma JudgeOk(codec: Codec, line: seq<Byte>, ctx: Context, previousOpen: Option<int>)
    requires Judge(codec, line, ctx, previousOpen).Ok?
    ensures |line| <= ctx.maxLineBytes && codec.decode(line).Parsed? && IsEnvelope(codec.decode(line).value, ctx)
    ensures var value, c := codec.decode(line).value, Judge(codec, line, ctx, previousOpen).value;
            CandleFromKline(Field(value, "payload", ctx), ctx.symbol, ctx.interval) == Ok(c) && CheckCandle(value, c, ctx, previousOpen).None?
  {
    hide CandleFromKline, IsEnvelope, Field, CheckCandle;
  }
}
