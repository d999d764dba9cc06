# Market-data verification model

A Dafny model of the market-data side of the repository, with proofs about it: the historical downloader and its resume, the
conversion of raw archives into research candles and the manifests around both, canonical decimals and calendar boundaries,
the WebSocket subscription protocol and the coordinator above it, rate limiting and the circuit breaker, and the local candle
store. Verify with `dafny verify dfyconfig.toml`.

## How the model is built

- One module per component. Objects whose methods update fields are classes (`DatasetDirectory`, `BinanceWebSocketAdapter`,
  `SubscriptionCoordinator`, `WebSocketRateBudget`, `BinanceRateLimitCoordinator`, `Breaker`, `SqliteMarketDataStore`), and so are the
  endpoints they talk to, with a log of what they were sent (`KlineEndpoint`, `HttpTransport`, `RawStream`, `Sink`); loops over
  variables are methods with invariants. Each is tied to a function or to a history of events, and the theorems are about those.
- Time is an integer (milliseconds or microseconds since the epoch) or, for the sliding window, a real; clocks never run
  backwards. `DateTime` is the proleptic Gregorian calendar of years 1 to 9999 with microseconds; what Python cannot represent is
  an error here as well.
- A remote server is either arbitrary (safety, termination) or honest: it answers from an ascending history of klines that do not
  overlap, with the first `limit` klines that open in the requested range, or it fails.
- A JSON number that is not an integer is its text and whether it is finite; NaN and infinities are numbers to the reader of a
  response, but what is written for them is not JSON. A timestamp is a local time and an offset from UTC.
- SHA-256, UTF-8, JSON text, previews and the two serializations are functions about which nothing is assumed, except where a
  contract says so: reading a written record gives it back if all its numbers are finite and fails otherwise, serialized records
  are not empty, and only the empty text has the digest of the empty text.
- Concurrency of the subscription protocol is a state machine over atomic steps (a send begins, a batch is recorded and written,
  a reply is handled) with every interleaving allowed.

## What the proofs found

Where the code does not meet a property everywhere, the exact condition is a theorem, with a concrete run or input beside it.

- The stream limit of one WebSocket connection can be exceeded in two ways: by overlapping SUBSCRIBE requests of which one is
  rejected (`OverlapBreaksLimit`), and by two calls whose batches interleave (`InterleavingBreaksLimit`). A call that is admitted
  keeps the limit, whatever follows without another call, exactly when everything committed before and its own streams fit
  (`CallKeepsLimitExactly`; from any state, `LimitBreaksExactly`). The code counts what is active and pending instead.
- Two symbols that only differ in where the base ends have the same stream name (`NameCollision`; AB/C and A/BC,
  `CollisionWitness`). A coordinator round converges for every order of replies exactly when the names involved are distinct
  (`ConvergesExactly`; those two symbols, `DivergenceWitness`).
- A new connection keeps the control state of the old one, so after a reconnect a desired stream is requested exactly when its
  subscription did not count as active, and all desired streams are exactly when none did (`Reconnect`, `RequestedExactly`). After
  a reconnect from a converged state nothing is requested (`ReconnectWitness`).
- A rejected UNSUBSCRIBE is not sent again while its stream stays active: a removal stays pending exactly as long as its
  subscription is confirmed each time (`RemovalStaysPending`; synchronize, reject, synchronize, `RejectedRemovalWitness`).
- The downloader keeps a kline that opens in the millisecond of the requested start, even if the start lies later in that
  millisecond; the manifest validator then refuses the download. Exactly then (`CompletedManifestAccepted`; a start at half a
  millisecond, `RejectedManifest`).
- A request may start before the epoch, but the converter raises on the first line it judges in such a range. The file of a fresh
  download converts exactly when the range does not start before the epoch or every line is too long to be judged
  (`FreshFileConverts`; a start one minute before the epoch, `AbortedConversion`), and so the whole pipeline succeeds exactly when
  no pair has a kline in the millisecond of an uneven start and no conversion aborts (`PipelineSucceedsExactly`).
- The downloader stores a kline with a number that is NaN or infinite; the converter quarantines exactly such lines, of those within
  the limit, as malformed JSON (`FreshFileConverts`; an infinite volume, `NotFiniteWitness`).
- The `actual_start` and `actual_end` of a download manifest are those of its first and last file. They are the extremes of the
  data exactly when no other file starts before the first, and none ends after the last (`ActualRangeExactly`; two pairs of which the
  second starts earlier and the first ends later, `ActualRangeWitness`).
- The three boundary rules part only on month opens with a residue below one second (`EventCopiesAgree`; `ResidueWitness`) and on
  ends past year 9999 (`BoundariesAgree`; `LastMinuteWitness`).
- Candles and outbox stay side by side exactly while every arriving event has both its key and its id taken, or neither
  (`MatchedExactly`; two ids for one key, `MatchedWitness`).
- Events may carry timestamps with any offset, but the store selects and sorts candles by ISO-8601 text. Text order is time order on
  the timestamps of some zones exactly when there is one zone only (`OrderedAlikeExactly`; 05:30+05:30 and 00:30+00:00,
  `OffsetWitness`), and exactly then a range query selects what opens in the range (`SelectionExactly`; a candle missing from its range
  and found in the next, `MissedWitness`).

## Model

| member | source | states |
|---|---|---|
| Intervals.MonthStartAccepted | packages/domain/enums/timeframe.py:55-73 | a UTC month start is accepted and answered with the next month start, 28 to 31 days later; December 9999 is the one exception |
| Intervals.OnlyMonthStartsAccepted | packages/domain/enums/timeframe.py:55-73 | whatever "1M" accepts is a month start |
| Intervals.IterationVisitsEveryMonth | packages/domain/enums/timeframe.py:43-77 | iterating the monthly boundary visits the following month starts one by one, none skipped and none repeated |
| Intervals.BoundaryAhead | packages/domain/enums/timeframe.py:43-77 | a boundary lies at least the shortest duration of its interval ahead of the open |
| Intervals.BoundaryMonotone | packages/domain/enums/timeframe.py:43-77 | boundaries keep the order of the opens |
| Intervals.SupportedExactly | packages/domain/enums/timeframe.py:21-38 | the intervals that are supported |
| Intervals.EventCopiesAgree | packages/market_data/adapters/binance_normalizer.py:354-378 | the normalizer and the event rule agree exactly unless a month open has a residue below one second |
| Intervals.BoundariesAgree | packages/market_data/contracts/events.py:38-61 | on every supported interval the event rule and the epoch-millisecond rule give the same instant, except exactly where the end of a fixed interval lies past year 9999 |
| Intervals.ResidueWitness | packages/market_data/adapters/binance_normalizer.py:354-378 | half a second into a month the normalizer answers and the event rule refuses |
| Intervals.LastMinuteWitness | packages/market_data/contracts/events.py:38-61 | the last minute of year 9999 ends for the millisecond rule and not for the event rule |
| Intervals.MultiMonthInterval | packages/market_data/contracts/events.py:46-57 | one step of a k-month interval is k steps of one month, errors included, for every way of writing the amount that `int` reads as a positive number |
| Intervals.AmountsRead | packages/market_data/contracts/events.py:38-45 | what an amount text means: its digits, also in two groups joined by an underscore; a minus sign negates, a plus sign and white space do nothing |
| TextOrder.RawNameOrder | packages/market_data/datasets/downloader.py:900-915 | raw and failure file names identify the pair, and raw names sort like (symbol, interval) |
| TextOrder.NameTexts | packages/market_data/datasets/downloader.py:900-901 | both file names of a pair, spelled out |
| TextOrder.ZonedOrder | packages/market_data/persistence/sqlite_store.py:391-412 | texts of timestamps in any zones compare by local time and then by the text of the zone, with or without a fraction |
| TextOrder.IsoOrder | packages/market_data/persistence/sqlite_store.py:391-412 | for UTC timestamps text order is time order and equal texts are equal instants |
| TextOrder.IsoExample | packages/market_data/persistence/sqlite_store.py:399-403 | the text of 05:06:07.000008 on a leap day, piece by piece |
| Timestamps.TextIdentifies | packages/market_data/persistence/sqlite_store.py:192-204 | the text of an aware timestamp tells its local time and its offset, so the text in the primary key is the timestamp |
| Timestamps.OneZoneOrder | packages/market_data/persistence/sqlite_store.py:399-403 | of timestamps in one zone, text order is time order |
| Timestamps.OrderedAlikeExactly | packages/market_data/contracts/events.py:25-28 | on all timestamps of some zones text order is time order exactly when there is one zone only |
| Timestamps.OffsetWitness | packages/market_data/contracts/events.py:25-28 | 05:30+05:30 is before 00:30+00:00 and its text sorts behind |
| Timestamps.ZoneExamples | packages/market_data/persistence/sqlite_store.py:192-204 | UTC is +00:00, and offsets of five and a half hours are +05:30 and -05:30 |
| Decimals.ParseSound | packages/market_data/datasets/research_format.py:27 | what the literal pattern matches is a well-formed literal, and spelling it gives the text back |
| Decimals.ParseComplete | packages/market_data/datasets/research_format.py:27 | every well-formed literal is matched, in one way only |
| Decimals.PlainLiteral | packages/market_data/datasets/research_format.py:93-111 | the number of a literal without exponent is its digits over a power of ten for every digit behind the point; "-" negates it, "+" does not |
| Decimals.ExponentLiteral | packages/market_data/datasets/research_format.py:93-111 | an exponent multiplies that number by its power of ten, and divides by it if its sign is "-" |
| Decimals.PositionalValue | packages/market_data/datasets/research_format.py:93-111 | digits have their positional value |
| Decimals.Spelled | packages/market_data/datasets/research_format.py:93-120 | "1E-8" becomes "0.00000001" |
| Decimals.LengthFormulaExact | packages/market_data/datasets/research_format.py:75-90 | the closed formula is the exact length of the fixed-point text for every sign, coefficient and exponent |
| Decimals.PreservesNumber | packages/market_data/datasets/research_format.py:93-120 | the output denotes the same number as the input and is the text of a decimal in normal form |
| Decimals.Idempotent | packages/market_data/datasets/research_format.py:93-120 | an output is accepted and returned unchanged |
| Decimals.NormalForm | packages/market_data/datasets/research_format.py:93-120 | two accepted texts get the same output exactly when they denote the same number |
| Decimals.OutputShape | packages/market_data/datasets/research_format.py:112-120 | the output has no exponent, no plus sign, no trailing fractional zero or point, and is never "-0" |
| Decimals.Accepted | packages/market_data/datasets/research_format.py:93-111 | exactly the literals whose fixed-point text fits the bound are accepted |
| Decimals.CanonicalTextIsFixed | packages/market_data/datasets/research_format.py:93-120 | a canonical text within the bound is returned unchanged: the bound never rejects an output |
| RateLimit.BudgetNeverExceeded | packages/market_data/services/rate_limit.py:173-180 | over every run with a non-decreasing clock no half-open window holds more than the maximum of grants |
| RateLimit.RecentExactly | packages/market_data/services/rate_limit.py:173-180 | a grant counts while it is younger than the window, and no longer at that age |
| RateLimit.AttemptDeque.Reserve | packages/market_data/services/rate_limit.py:173-180 | a reservation is refused exactly when the maximum of grants lies in the last window of the full log, although the deque is pruned |
| RateLimit.WebSocketRateBudget.ReserveControlMessage | packages/market_data/services/rate_limit.py:157-163 | the same for control messages, without touching connection attempts |
| RateLimit.WebSocketRateBudget.ReserveConnectionAttempt | packages/market_data/services/rate_limit.py:165-171 | the same for connection attempts, without touching control messages |
| RateLimit.BinanceRateLimitCoordinator.Acquire | packages/market_data/services/rate_limit.py:56-75 | a request is admitted exactly when every cooldown end ever observed has been reached, although one deadline is stored and cleared on expiry |
| RateLimit.BinanceRateLimitCoordinator.ObserveResponse | packages/market_data/services/rate_limit.py:77-103 | after a 429 or 418, and only then, one cooldown end is added: now plus the Retry-After delay, or plus the time from the second clock reading to its date (section 10.2.3 of RFC 9110), never before now, or plus the default of the status; or the call overflows, exactly if no such end is representable; the used weights that the headers tell are recorded |
| RateLimit.HeaderIsLast | packages/market_data/services/rate_limit.py:84 | a header is found whatever the case of its name, and of two the last one counts |
| RateLimit.WeightTold | packages/market_data/services/rate_limit.py:84-90 | what is known of a used weight after a response: what its header tells, if it is one and an integer, and else what was known |
| RateLimit.RequestOnce | packages/market_data/datasets/downloader.py:516-610 | the requests sent, the cooldown ends known afterwards and the outcome are those of the rounds played: who sends, what an answer adds, which answers end the loop, and how |
| RateLimit.SendsBounded | packages/market_data/datasets/downloader.py:516-610 | at most `max_attempts` requests are sent, one if that is zero, although blocked rounds use up attempts |
| RateLimit.SentExactly | packages/market_data/datasets/downloader.py:516-610 | a round sends exactly when no answer before was final and every cooldown end known by then has been reached |
| RateLimit.CooldownsRespected | packages/market_data/datasets/downloader.py:516-610 | no request is sent before a cooldown end that was known before the call or brought by an earlier request of it |
| RateLimit.PlayAccounted | packages/market_data/datasets/downloader.py:516-610 | the ends known after a call are those known before and those its requests brought, in order |
| RateLimit.OutcomeExactly | packages/market_data/datasets/downloader.py:555-610 | a call ends with the answer to its last request: success exactly for 200, an error at once for 403, other client errors and the rest, an error in the last attempt for no answer, 429 and 418; while it goes on it only got the latter |
| CircuitBreaker.Breaker.RecordSuccess | packages/market_data/adapters/connection_supervisor.py:56-64 | the new state of the breaker after a success |
| CircuitBreaker.Breaker.RecordFailure | packages/market_data/adapters/connection_supervisor.py:66-74 | the new state of the breaker after a failure |
| CircuitBreaker.Breaker.AllowRequest | packages/market_data/adapters/connection_supervisor.py:76-93 | the new state of the breaker after a question, and the answer |
| CircuitBreaker.AdmissionRule | packages/market_data/adapters/connection_supervisor.py:76-93 | admission in terms of the run alone: closed, or open with the recovery time over, or half-open with no probe unsettled |
| CircuitBreaker.NothingBeforeRecovery | packages/market_data/adapters/connection_supervisor.py:76-93 | after an opening nothing is admitted before the recovery time is over |
| CircuitBreaker.HalfOpenEra | packages/market_data/adapters/connection_supervisor.py:56-93 | in a half-open era two probes are never unsettled at once, and at most `success_threshold` are admitted |
| CircuitBreaker.ClosedLeftExactly | packages/market_data/adapters/connection_supervisor.py:66-74 | the closed phase is left exactly by the failure that completes the threshold with no success between |
| CircuitBreaker.ClosedCountsStreak | packages/market_data/adapters/connection_supervisor.py:56-119 | a closed breaker counts the failures since the last success: those recorded while open leave no trace |
| CircuitBreaker.ClosedEnteredBySuccess | packages/market_data/adapters/connection_supervisor.py:56-64 | only a success closes the breaker |
| CircuitBreaker.HalfOpenLeftExactly | packages/market_data/adapters/connection_supervisor.py:56-74 | the half-open phase is left exactly by a failure, which opens the breaker anew at that time, or by the success that completes the threshold in its era, which closes it |
| CircuitBreaker.OpenLeftExactly | packages/market_data/adapters/connection_supervisor.py:80-90 | the open phase is left exactly by a request once the recovery time since the last opening is over, and that request is the first probe of a new era |
| CircuitBreaker.AdmittedAfterRecovery | packages/market_data/adapters/connection_supervisor.py:66-93 | after any opening, a failed probe included, the first request at or behind the end of the recovery time is admitted and none before, whatever else is recorded |
| CircuitBreaker.FailedProbe | packages/market_data/adapters/connection_supervisor.py:66-93 | a concrete run with a failed probe and a later admission |
| Downloader.DecodeKlines | packages/market_data/datasets/downloader.py:684-709 | a response is accepted exactly when it is a list of valid klines; the closed ones of the slice are kept in order |
| Downloader.ValidRowExactly | packages/market_data/datasets/downloader.py:836-849 | a kline is valid exactly with twelve fields, integer times, and a seventh field that is the last millisecond before the boundary of the first |
| Downloader.DownloadOne | packages/market_data/datasets/downloader.py:612-682 | against any server: the requests, logged by the endpoint, have growing start times in the slice and are bounded by the range over the interval duration; existing rows stay, added rows are closed klines of the slice, the call fails for a request exactly when the last one failed, and "no forward progress" never happens; against an honest server, for every page size: exactly the wanted rows, or a failed request |
| Downloader.WantedKeys | packages/market_data/datasets/downloader.py:627-682 | the wanted rows are exactly the klines of the history that open at or after the start and are closed by the end of the range and the server time |
| Downloader.WantedDependsOn | packages/market_data/datasets/downloader.py:627-682 | the wanted rows do not depend on the page size |
| Dataset.FreshExactly | packages/market_data/datasets/downloader.py:612-682 | a fresh run of a request keeps exactly the klines whose raw open and close fields lie in the requested range, not before 1970, and before the server time |
| Dataset.WriteKlineFile | packages/market_data/datasets/downloader.py:777-790 | writing succeeds exactly on rows stored under their own open time with representable ends, and gives one record per row in ascending order |
| Dataset.ReadKlineFile | packages/market_data/datasets/downloader.py:867-897 | reading gives the payload of every line under its own open time, or an error |
| Dataset.ReadBack | packages/market_data/datasets/downloader.py:777-897 | a written file is read back as the same rows |
| Dataset.RecordSays | packages/market_data/datasets/downloader.py:852-864 | a record names the pair and the source, holds the payload as it is, and its two texts are those of exactly the instants of the open and the end |
| Dataset.ResumeEqualsFresh | packages/market_data/datasets/downloader.py:655-682 | restarting from the watermark of what an earlier, complete run of the slice stored, and merging, gives the rows of a fresh run now |
| Dataset.HistoryCarriesOver | packages/market_data/datasets/downloader.py:655-682 | over an append-only history, what the earlier run stored is what the later history says about that time |
| Dataset.WatermarkIsLatest | packages/market_data/datasets/downloader.py:918-921 | the watermark is the end of the latest stored row |
| Dataset.RequestedPairs | packages/market_data/datasets/downloader.py:406-412 | the pairs of a request, each once, in (symbol, interval) order |
| Dataset.DatasetDirectory.DownloadPair | packages/market_data/datasets/downloader.py:406-456 | one pair: stored rows are read if the run resumes, kept, and nothing before their watermark is asked for again; whatever was stored by a consistent earlier run, the file is afterwards that of a fresh run; other files are untouched |
| Dataset.DatasetDirectory.Download | packages/market_data/datasets/downloader.py:363-467 | a run may stop at any pair and leaves consistent files; a completed one leaves the files and the manifest of a fresh run, so resuming leaves no trace; a completed dataset is returned as it is, a foreign one refused |
| Dataset.DatasetDirectory.GrownHistoriesStillConsistent | packages/market_data/datasets/downloader.py:406-456 | the files stay those of fresh runs when the histories grow between two runs |
| Agreement.CompletedManifestTells | packages/market_data/datasets/downloader.py:723-756 | the manifest of a completed download repeats the request and the server time, and lists for every pair with rows their number and the range they span; its record count is their sum |
| RestPager.GetClosedKlines | packages/market_data/adapters/binance_rest.py:111-170 | against any server the requests, logged by the endpoint, have growing start times in the range, so they are at most its milliseconds; against an honest one the messages are exactly the klines of the range, in order, or the last request failed |
| RestPager.PaginatorsAgree | packages/market_data/adapters/binance_rest.py:131-170 | once the server time has passed the end, the downloader's rows in key order are the REST adapter's messages |
| Converter.CandleTimes | packages/market_data/datasets/research_format.py:418-478 | the times of an accepted candle are those the downloader validates: a boundary-aligned, representable half-open span |
| Converter.CandleAmounts | packages/market_data/datasets/research_format.py:418-478 | every price and amount of an accepted candle is the number in its own field of the payload, in normal form, and the trade count is the raw one |
| Converter.CandleAcceptedExactly | packages/market_data/datasets/research_format.py:418-478 | a payload is accepted exactly with twelve fields, fair times, decimal fields within the length bound, ordered prices, and amounts and a count that are not negative |
| Converter.AcceptedLine | packages/market_data/datasets/converter.py:267-426 | a line that is judged and accepted lies in the requested range, ends at its boundary, and does not open before the previous accepted one |
| Converter.VerdictExactly | packages/market_data/datasets/converter.py:286-426 | why a line is refused: each failure kind has its exact condition, in the order of the checks; otherwise its candle is accepted |
| Converter.EnvelopeFields | packages/market_data/datasets/converter.py:334-380 | an envelope has exactly six keys and names the expected symbol, interval and source |
| Converter.AbortsExactly | packages/market_data/datasets/converter.py:260-290 | a line aborts the conversion exactly when the range is not supported, that is, starts before the epoch (or is empty, which no context allows); otherwise it is converted or quarantined by its judgement, with its file, number, preview and digest |
| ConversionStream.LinesPartition | packages/market_data/datasets/conversion_stream.py:298-345 | the logical lines are newline-delimited and partition the input |
| ConversionStream.WriteAll | packages/market_data/datasets/conversion_stream.py:195-228 | under short writes the whole payload is received, or a proper prefix and a failure, which a sink that accepts any positive count never causes; no write offers more than the one before it accepted |
| ConversionStream.Oversized | packages/market_data/datasets/conversion_stream.py:231-254 | an over-long line is consumed to its own newline and digested whole |
| ConversionStream.ConvertStream | packages/market_data/datasets/conversion_stream.py:269-387 | never asking the stream for more than `max_line_bytes` + 1 bytes, both sinks receive exactly what the fold of the line conversion over the whole lines produces, and the report tells the lines, and the bytes and digest of what each sink received; with a stream and sinks that behave it succeeds exactly when no line within the limit meets an unsupported range |
| ConversionStream.FoldFacts | packages/market_data/datasets/conversion_stream.py:347-387 | lines seen = written + quarantined; the research bytes are the accepted candles in order; accepted opens never decrease, so coverage is the first open and the last close |
| ConversionStream.FailureFacts | packages/market_data/datasets/conversion_stream.py:347-387 | the failure bytes are the failures of exactly the refused lines, in order, each with its line number, digest and kind; previews of invalid candles are withheld |
| ConversionStream.FoldConverts | packages/market_data/datasets/conversion_stream.py:298-387 | the fold has a result exactly when the range is supported or every line is too long to be judged |
| ConversionStream.ReportNeverRejected | packages/market_data/datasets/conversion_stream.py:102-133 | the report of a conversion always passes its own checks |
| Manifest.ConversionYieldsArtifact | packages/market_data/datasets/conversion_manifest.py:544-653 | the report of any conversion of a pair's file passes every artifact check, and the artifact has the sizes and digests of the raw file and of both outputs, the line counts and the coverage |
| Manifest.ArtifactAcceptedExactly | packages/market_data/datasets/conversion_manifest.py:544-653 | which artifacts are accepted: named after their pair, nothing lost between lines, records and failures, and every text empty together with its count and its digest |
| Manifest.ValidateRawManifest | packages/market_data/datasets/conversion_manifest.py:1054-1243 | the validator accepts exactly the valid raw manifests |
| Manifest.ValidManifestFiles | packages/market_data/datasets/conversion_manifest.py:1054-1243 | in an accepted manifest every file is of a requested pair, names are distinct, ranges lie in the requested one, and the records add up |
| Manifest.ArtifactBelongs | packages/market_data/datasets/conversion_manifest.py:826-830 | an artifact of a listed raw file belongs to a requested symbol and interval, because names identify pairs |
| Manifest.ArtifactsDistinct | packages/market_data/datasets/conversion_manifest.py:811-825 | artifacts in raw-name order differ in research name, failure name and pair |
| Manifest.CoverageFacts | packages/market_data/datasets/conversion_manifest.py:864-906 | the aggregated coverage exists exactly when a record was written, is increasing and lies in the requested millisecond range |
| Manifest.CoverageExtremes | packages/market_data/datasets/conversion_manifest.py:1290-1305 | the aggregated coverage is the earliest start and the latest end over the artifacts with records |
| Manifest.BuiltManifestTruthful | packages/market_data/datasets/conversion_manifest.py:780-910 | any manifest that is built tells the truth about its artifacts: their totals, the earliest start and latest end of those with records, within the request; each belongs to a raw file with as many records as it has lines; it is complete exactly when no raw file is missing |
| Manifest.BuildSucceedsExactly | packages/market_data/datasets/conversion_manifest.py:1258-1332 | for a valid raw manifest, sorted planned artifacts and a truthful completion status, building succeeds exactly when no accepted candle opens before the requested start, and the totals are conserved sums |
| Manifest.AlignedStartBuilds | packages/market_data/datasets/conversion_manifest.py:864-886 | with a millisecond-aligned start that condition always holds |
| StrictJson.StrictJsonObject | packages/market_data/datasets/conversion_manifest.py:222-230 | the hook gives the dictionary in source order, or the marker exactly when a key repeats or a value holds the marker |
| StrictJson.RejectDuplicateKeys | packages/market_data/datasets/converter.py:221-227 | the other hook gives the dictionary, or aborts exactly when a key repeats |
| StrictJson.DetectionExact | packages/market_data/datasets/conversion_manifest.py:209-230 | reading any tree bottom-up, the marker is found exactly when some object at some path repeats a key; otherwise the value is unchanged |
| StrictJson.HooksAgree | packages/market_data/datasets/conversion_manifest.py:1034-1048 | the marking and the aborting hook agree on every tree |
| Agreement.FreshFileConverts | packages/market_data/datasets/converter.py:334-426 | a file of a fresh download, converted for the same symbol, interval and range, converts exactly when the range does not start before the epoch or no line is within the limit; then no line has an envelope, range or order failure, lines seen are the rows, and a line is malformed exactly if it is within the limit and holds a number that is not finite |
| Agreement.AbortedConversion | packages/market_data/datasets/converter.py:260-290 | a concrete valid download that starts before the epoch and whose conversion aborts |
| Agreement.NotFiniteWitness | packages/market_data/datasets/converter.py:315-325 | a concrete kline with an infinite volume that is downloaded and written, and quarantined as malformed |
| Agreement.FileConverts | packages/market_data/datasets/downloader.py:852-864 | line by line: the verdict is that of the byte limit, the finiteness of the numbers and the candle payload alone |
| Agreement.LinesWritten | packages/market_data/datasets/downloader.py:777-790 | the converter sees exactly the lines that were written |
| Agreement.ListingAscending | packages/market_data/datasets/downloader.py:904-915 | the file list of a download is always sorted by name without duplicates |
| Agreement.CompletedManifestAccepted | packages/market_data/datasets/conversion_manifest.py:1196-1213 | the manifest of a completed download is valid for conversion exactly when no kline opens in the millisecond of a start that is not a full millisecond |
| Agreement.RejectedManifest | packages/market_data/datasets/downloader.py:655-682 | a concrete completed download whose manifest is refused |
| Agreement.ActualRangeExactly | packages/market_data/datasets/downloader.py:723-756 | actual_start is the earliest open exactly when no listed pair opens before the first listed one, actual_end the latest end exactly when none ends after the last listed one |
| Agreement.ActualRangeWitness | packages/market_data/datasets/downloader.py:723-756 | a concrete two-pair download in which both are not |
| Agreement.PipelineSucceedsExactly | packages/market_data/datasets/conversion_manifest.py:1258-1332 | download, conversion and manifest together: the raw manifest is accepted and the research manifest built exactly when every pair starts clean and no conversion aborts; its lines are then the record count of the download, each written or quarantined |
| WebSocketControl.NameCollision | packages/market_data/adapters/binance_ws.py:58-79 | two subscriptions share a stream name exactly when the kinds are equal and base and quote join to the same text |
| WebSocketControl.CollisionWitness | packages/market_data/adapters/binance_ws.py:58-79 | the trade streams of AB/C and A/BC are both "abc@trade" |
| WebSocketControl.StreamNames | packages/market_data/adapters/binance_ws.py:58-79 | the three stream names by their text |
| Texts.CapitalsLowered | packages/market_data/adapters/binance_ws.py:58-79 | lower case changes the letters A to Z, each to its own small letter, and nothing else |
| WebSocketControl.ReplyExactly | packages/market_data/adapters/binance_ws.py:362-387 | what one control message changes: nothing without the id of an outstanding request; otherwise that request is settled, by a rejection that is kept with its message or by an acknowledgement that changes exactly its streams |
| WebSocketControl.ActiveIsLastAcknowledged | packages/market_data/adapters/binance_ws.py:362-387 | over all interleavings: a stream is active exactly when the last acknowledged request naming it was a SUBSCRIBE, with a subscription of that request |
| WebSocketControl.AnsweredAtMostOnce | packages/market_data/adapters/binance_ws.py:293-368 | ids are given out in order, each is settled at most once, and outstanding is what was sent and not settled |
| WebSocketControl.PendingIsOwned | packages/market_data/adapters/binance_ws.py:265-308 | every pending stream belongs to an outstanding SUBSCRIBE, every pending removal to an outstanding UNSUBSCRIBE |
| WebSocketControl.LimitKept | packages/market_data/adapters/binance_ws.py:280-308 | while outstanding SUBSCRIBEs do not overlap and calls do not interleave, pending is their union and the limit holds in every state, counting all that is still to be sent, also when the budget stops a call part way |
| WebSocketControl.LimitBreaksExactly | packages/market_data/adapters/binance_ws.py:280-308 | from any reachable state the limit can be exceeded without a further call exactly when more streams are committed than it allows |
| WebSocketControl.CallKeepsLimitExactly | packages/market_data/adapters/binance_ws.py:280-308 | a SUBSCRIBE admitted in any reachable state keeps the limit under every continuation without another call exactly when what was committed and its own streams fit |
| WebSocketControl.OverlapBreaksLimit | packages/market_data/adapters/binance_ws.py:369-376 | a run with overlapping SUBSCRIBEs and a rejection that exceeds the limit |
| WebSocketControl.InterleavingBreaksLimit | packages/market_data/adapters/binance_ws.py:280-308 | a run without overlap, with two interleaved calls, that exceeds the limit |
| WebSocketAdapter.BatchesPartition | packages/market_data/adapters/binance_ws.py:289-291 | the batches of a call are its plan, cut into full batches and one remainder |
| WebSocketAdapter.BinanceWebSocketAdapter.Connect | packages/market_data/adapters/binance_ws.py:228-255 | a connection is opened when the budget allows it; the control state is kept and nothing is sent |
| WebSocketAdapter.BinanceWebSocketAdapter.SendBatch | packages/market_data/adapters/binance_ws.py:289-308 | a batch is refused exactly when the budget is used up, and then changes nothing; otherwise it is recorded under the next id before it is written |
| WebSocketAdapter.BinanceWebSocketAdapter.SendControl | packages/market_data/adapters/binance_ws.py:265-308 | each outcome of a call and when it comes: not connected, over the limit, the first batch that the budget refuses, the first that the socket loses, or all; the state, the frames written and the budget taken are those of the batches before the stop |
| WebSocketAdapter.BinanceWebSocketAdapter.HandleControlMessage | packages/market_data/adapters/binance_ws.py:362-387 | unknown, repeated or malformed ids change nothing; a rejection or an acknowledgement settles its request; only acknowledgements are observed |
| Coordinator.KeyIdentifies | packages/market_data/adapters/subscription_coordinator.py:30-55 | a subscription key stands for one subscription |
| Coordinator.SubscriptionCoordinator.AddSubscription | packages/market_data/adapters/subscription_coordinator.py:142-161 | the subscription is desired afterwards, nothing else changes |
| Coordinator.SubscriptionCoordinator.RemoveSubscription | packages/market_data/adapters/subscription_coordinator.py:163-182 | the subscription is no longer desired, nothing else changes |
| Coordinator.SubscriptionCoordinator.ReconcileConfirmed | packages/market_data/adapters/subscription_coordinator.py:255-266 | exactly the confirmed subscriptions are active; a removal stays pending only while its subscription is active |
| Coordinator.SubscriptionCoordinator.SyncWithAdapter | packages/market_data/adapters/subscription_coordinator.py:206-225 | what is dropped (not again while pending) and added; it is submitted exactly when both calls pass limit, budget and socket, and then its frames name exactly these streams; nothing is sent when active equals desired |
| Coordinator.RoundConverges | packages/market_data/adapters/subscription_coordinator.py:206-225 | after a synchronization, any order of positive replies, repeated and unknown ones included, that leaves nothing outstanding makes the desired subscriptions the active ones |
| Coordinator.ConvergesExactly | packages/market_data/adapters/subscription_coordinator.py:206-225 | that holds for every order of replies exactly when the stream names of desired and active subscriptions are distinct |
| Coordinator.DivergenceWitness | packages/market_data/adapters/subscription_coordinator.py:206-225 | with AB/C and A/BC desired, some order of positive replies ends elsewhere |
| Coordinator.Round | packages/market_data/adapters/connection_supervisor.py:182-184 | the round through the observer that the supervisor installs is submitted exactly when both calls pass; then, with positive replies, both sides end up with the desired subscriptions and nothing pending |
| Coordinator.Reconnect | packages/market_data/adapters/connection_supervisor.py:237-254 | when a new connection opens, when its synchronization is submitted, and that its frames name exactly the desired streams that do not count as active; with distinct names every desired stream is requested exactly when none was active |
| Coordinator.RequestedExactly | packages/market_data/adapters/subscription_coordinator.py:206-225 | with distinct names the streams of desired but not active subscriptions include all desired ones exactly when no desired one is active |
| Coordinator.ReconnectWitness | packages/market_data/adapters/connection_supervisor.py:237-254 | a concrete run from nothing to convergence and over a reconnect: one stream is desired, and the new connection was asked for nothing |
| Coordinator.RemovalStaysPending | packages/market_data/adapters/subscription_coordinator.py:216-266 | a removal stays pending exactly as long as its subscription is confirmed every time, so a rejected UNSUBSCRIBE is never repeated while the stream stays active |
| Coordinator.RejectedRemovalWitness | packages/market_data/adapters/subscription_coordinator.py:206-225 | a concrete run: an UNSUBSCRIBE is rejected, and the next synchronization sends nothing although the stream is active and nothing is desired |
| Coordinator.GetShards | packages/market_data/adapters/subscription_coordinator.py:286-305 | shards are an ordered partition of the desired subscriptions into full shards and one remainder |
| Coordinator.SortedUnique | packages/market_data/adapters/subscription_coordinator.py:398-400 | the order by key is unique, so shards depend on the desired set alone |
| Coordinator.KeyTexts | packages/market_data/adapters/value_types.py:104-110 | the key text of each kind, behind the constant exchange and market |
| CandleStore.SqliteMarketDataStore.PersistClosedCandleAndOutbox | packages/market_data/persistence/sqlite_store.py:186-245 | the result names what the transaction did, and persisting an event again changes nothing |
| CandleStore.TablesDescribeHistory | packages/market_data/persistence/sqlite_store.py:186-245 | after any events in any order: every key keeps its first candle, every watermark is the latest open of its stream, the outbox holds the first event of every id in order of arrival |
| CandleStore.WatermarkOfStored | packages/market_data/persistence/sqlite_store.py:211-233 | the watermark is the maximum open time among the stored candles of the stream |
| CandleStore.PersistAgain | packages/market_data/persistence/sqlite_store.py:186-245 | re-persisting changes nothing, whatever happened in between |
| CandleStore.OrderIrrelevant | packages/market_data/persistence/sqlite_store.py:186-245 | keys, queued ids and the instants of the watermarks depend only on the set of events |
| CandleStore.MatchedExactly | packages/market_data/persistence/sqlite_store.py:192-240 | candles and outbox hold the same events in every state of a run exactly when every arrival has key and id both taken or both free |
| CandleStore.MatchedWitness | packages/market_data/persistence/sqlite_store.py:192-240 | two candles with one key and two ids: both are queued, one is stored |
| CandleStore.OneToOneAligned | packages/market_data/persistence/sqlite_store.py:192-240 | that is so when ids and natural keys correspond one to one |
| CandleStore.StoredIsDeliveredOrListed | packages/market_data/persistence/sqlite_store.py:310-327 | then every stored candle is listed as undelivered or was marked relayed |
| CandleStore.RelayedWhenMarked | packages/market_data/persistence/sqlite_store.py:321-327 | a row is relayed at the time of its last mark after it was queued |
| CandleStore.UndeliveredInOrder | packages/market_data/persistence/sqlite_store.py:310-319 | undelivered events come in order of arrival |
| CandleStore.SqliteMarketDataStore.ListUndelivered | packages/market_data/persistence/sqlite_store.py:310-319 | the rows that are not relayed, in rowid order |
| CandleStore.SqliteMarketDataStore.MarkOutboxRelayed | packages/market_data/persistence/sqlite_store.py:321-327 | the mark joins the history that the tables describe, and nothing but the outbox changes |
| CandleStore.SqliteMarketDataStore.SetTickerCache | packages/market_data/persistence/sqlite_store.py:329-365 | whether the ticker was stored, and the table afterwards |
| CandleStore.TickerIsLatest | packages/market_data/persistence/sqlite_store.py:329-365 | the cache holds, for every symbol, the ticker with the latest instant and, among those, the highest sequence number (none counts as -1), of equals the last to arrive |
| CandleStore.SqliteMarketDataStore.ListCandles | packages/market_data/persistence/sqlite_store.py:382-416 | exactly the stored candles of the stream selected by text, in strictly ascending order of text; if candles and bounds are in one zone, exactly those of the half-open range, in time order |
| CandleStore.SelectionExactly | packages/market_data/persistence/sqlite_store.py:382-404 | the text conditions select what opens in the range, for all candles and bounds in some zones, exactly when there is one zone only |
| CandleStore.MissedWitness | packages/market_data/persistence/sqlite_store.py:382-404 | a candle of 05:30+05:30 is stored, missing from the range up to 00:30 in UTC and found in the range from there |

## Left out

- HTTP and WebSocket transports, tasks, sleeps, jitter and lifecycle states: their effects are parameters (answers, lost writes, clock readings).
- Coordinator.Reconnect: does not model the lifecycle check that refuses `connect` outside "stopped" and "backing_off".
- Publication of converted datasets, the backtest engine, the API, the workers and the trading entities.
- The breaker reads its clock twice when a failure opens it (connection_supervisor.py:66-74 and 107-112); an event carries the reading that `_open` stores. The other, `last_failure_time`, is only reported by snapshots, which are not modelled.
- Dataset.RequestedPairs: the loops over symbols and intervals stay nested here, the paging of the pairs runs over their result; sorting the collected pairs again is the identity on that order.
- Checks that only compare version constants, sources, digest formats and basenames.
- Memory use of the converter is modelled as the size of one read; the digests are functions of the bytes that are fed to them.
- Runtime type checks that Dafny's types already give, exception texts, and the sanitizing of previews.
- Unicode: symbols, digits, white space and JSON texts are ASCII where their characters matter; `int`, which also reads other decimal digits, is modelled on ASCII.
- Gap records and the raw capture table of the store.
- Decimals.Accepted: exponents are unbounded integers; the exponent limits of Python's decimal context are not modelled.
- Liveness tracking and stale detection of the coordinator.
