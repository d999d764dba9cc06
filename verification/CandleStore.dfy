/** packages/market_data/persistence/sqlite_store.py: closed candles, watermarks, outbox and ticker cache as tables. */
module CandleStore {
  import opened Wrappers
  import opened Calendar
  import opened TextOrder
  import opened Timestamps

  // ---------------------------------------------------------------- events and tables

  datatype Stream = Stream(symbol: string, interval: string)

  /** Timestamps of events may be in any zone. `body` is the rest of the serialized event. */
  datatype CandleEvent = CandleEvent(eventId: string, stream: Stream, openTime: Stamp, body: string)

  datatype TickerEvent = TickerEvent(symbol: string, occurredAt: Stamp, sequence: Option<int>, body: string)

  /** Primary key of a candle; the open time is kept as text. */
  datatype CandleKey = CandleKey(stream: Stream, openText: string)

  function KeyOf(e: CandleEvent): CandleKey { CandleKey(e.stream, e.openTime.Text()) }

  datatype OutboxRow = OutboxRow(event: CandleEvent, relayedAt: Option<Stamp>)

  /** Outbox rows are in rowid order. */
  datatype Tables = Tables(
    candles: map<CandleKey, CandleEvent>, watermarks: map<Stream, Stamp>, outbox: seq<OutboxRow>, tickers: map<string, TickerEvent>)

  const EMPTY := Tables(map[], map[], [], map[])

  predicate HasId(outbox: seq<OutboxRow>, id: string) {
    exists i :: 0 <= i < |outbox| && outbox[i].event.eventId == id
  }

  function InsertedCandles(candles: map<CandleKey, CandleEvent>, e: CandleEvent): map<CandleKey, CandleEvent> {
    if KeyOf(e) in candles then candles else candles[KeyOf(e) := e]
  }

  function AdvancedWatermarks(watermarks: map<Stream, Stamp>, e: CandleEvent): map<Stream, Stamp> {
    if e.stream in watermarks && !Before(watermarks[e.stream], e.openTime) then watermarks else watermarks[e.stream := e.openTime]
  }

  function QueuedOutbox(outbox: seq<OutboxRow>, e: CandleEvent): seq<OutboxRow> {
    if HasId(outbox, e.eventId) then outbox else outbox + [OutboxRow(e, None)]
  }

  function RelayedOutbox(outbox: seq<OutboxRow>, id: string, at: Stamp): (r: seq<OutboxRow>)
    ensures |r| == |outbox|
    ensures forall i :: 0 <= i < |outbox| ==> r[i] == if outbox[i].event.eventId == id then OutboxRow(outbox[i].event, Some(at)) else outbox[i]
  {
    seq(|outbox|, i requires 0 <= i < |outbox| =>
      if outbox[i].event.eventId == id then OutboxRow(outbox[i].event, Some(at)) else outbox[i])
  }

  function Sequence(t: TickerEvent): int { if t.sequence.Some? then t.sequence.value else -1 }

  /** The tuple order of `(occurred_at, receive_sequence)`. */
  predicate Newer(a: TickerEvent, b: TickerEvent) {
    Before(b.occurredAt, a.occurredAt) || (a.occurredAt.Instant() == b.occurredAt.Instant() && Sequence(a) > Sequence(b))
  }

  function CachedTickers(tickers: map<string, TickerEvent>, t: TickerEvent): map<string, TickerEvent> {
    if t.symbol in tickers && Newer(tickers[t.symbol], t) then tickers else tickers[t.symbol := t]
  }

  /** Everything the store is told. */
  datatype Event = Persist(candle: CandleEvent) | Relay(eventId: string, at: Stamp) | Tick(ticker: TickerEvent)

  function Apply(t: Tables, event: Event): Tables {
    match event
    case Persist(e) =>
      t.(candles := InsertedCandles(t.candles, e), watermarks := AdvancedWatermarks(t.watermarks, e), outbox := QueuedOutbox(t.outbox, e))
    case Relay(id, at) => t.(outbox := RelayedOutbox(t.outbox, id, at))
    case Tick(ticker) => t.(tickers := CachedTickers(t.tickers, ticker))
  }

  function After(log: seq<Event>): Tables {
    if log == [] then EMPTY else Apply(After(log[..|log| - 1]), log[|log| - 1])
  }

  /** The candles the store was told to persist, in order. */
  function Candles(log: seq<Event>): seq<CandleEvent> {
    if log == [] then []
    else Candles(log[..|log| - 1]) + if log[|log| - 1].Persist? then [log[|log| - 1].candle] else []
  }

  function Ticks(log: seq<Event>): seq<TickerEvent> {
    if log == [] then []
    else Ticks(log[..|log| - 1]) + if log[|log| - 1].Tick? then [log[|log| - 1].ticker] else []
  }

  // ---------------------------------------------------------------- the tables describe the whole history

  /** The stored candles: for every key the first candle with that key. */
  ghost predicate KeepsFirst(candles: map<CandleKey, CandleEvent>, list: seq<CandleEvent>) {
    && (forall e :: e in list ==> KeyOf(e) in candles)
    && (forall key :: key in candles ==>
          exists i :: 0 <= i < |list| && list[i] == candles[key] && KeyOf(list[i]) == key && forall j :: 0 <= j < i ==> KeyOf(list[j]) != key)
  }

  /** The watermark of a stream: the latest open time of its candles. */
  ghost predicate IsMaximum(watermarks: map<Stream, Stamp>, list: seq<CandleEvent>) {
    && (forall e :: e in list ==> e.stream in watermarks && !Before(watermarks[e.stream], e.openTime))
    && (forall stream :: stream in watermarks ==> exists i :: 0 <= i < |list| && list[i].stream == stream && list[i].openTime == watermarks[stream])
  }

  /** The queued events: for every id the first event with that id, in order of arrival. */
  ghost predicate QueuesFirst(outbox: seq<OutboxRow>, list: seq<CandleEvent>) {
    (forall e :: e in list ==> HasId(outbox, e.eventId)) && exists arrivals: seq<nat> :: Arrivals(outbox, list, arrivals)
  }

  /** The rows arrived at these positions, in this order, each before any other event with its id. */
  ghost predicate Arrivals(outbox: seq<OutboxRow>, list: seq<CandleEvent>, arrivals: seq<nat>) {
    && |arrivals| == |outbox|
    && (forall i, j :: 0 <= i < j < |arrivals| ==> arrivals[i] < arrivals[j])
    && (forall i :: 0 <= i < |outbox| ==> FirstAt(list, outbox[i].event, arrivals[i]))
  }

  ghost predicate FirstAt(list: seq<CandleEvent>, e: CandleEvent, p: nat) {
    p < |list| && list[p] == e && forall j :: 0 <= j < p ==> list[j].eventId != e.eventId
  }

  lemma InsertKeepsFirst(candles: map<CandleKey, CandleEvent>, list: seq<CandleEvent>, e: CandleEvent)
    requires KeepsFirst(candles, list)
    ensures KeepsFirst(InsertedCandles(candles, e), list + [e])
  {
    hide KeyOf;
    var more, all := InsertedCandles(candles, e), list + [e];
    forall key | key in more
      ensures exists i :: 0 <= i < |all| && all[i] == more[key] && KeyOf(all[i]) == key && forall j :: 0 <= j < i ==> KeyOf(all[j]) != key
    {
      if key in candles {
        var i :| 0 <= i < |list| && list[i] == candles[key] && KeyOf(list[i]) == key && forall j :: 0 <= j < i ==> KeyOf(list[j]) != key;
        assert all[i] == more[key];
      } else {
        assert all[|list|] == e && forall j :: 0 <= j < |list| ==> all[j] in list;
      }
    }
  }

  lemma AdvanceKeepsMaximum(watermarks: map<Stream, Stamp>, list: seq<CandleEvent>, e: CandleEvent)
    requires IsMaximum(watermarks, list)
    ensures IsMaximum(AdvancedWatermarks(watermarks, e), list + [e])
  {
    hide Zoned.Instant;
    var more, all := AdvancedWatermarks(watermarks, e), list + [e];
    forall stream | stream in more ensures exists i :: 0 <= i < |all| && all[i].stream == stream && all[i].openTime == more[stream] {
      if stream in watermarks && more[stream] == watermarks[stream] {
        var i :| 0 <= i < |list| && list[i].stream == stream && list[i].openTime == watermarks[stream];
        assert all[i] == list[i];
      } else {
        assert all[|list|] == e;
      }
    }
  }

  lemma QueueKeepsFirst(outbox: seq<OutboxRow>, list: seq<CandleEvent>, e: CandleEvent)
    requires QueuesFirst(outbox, list)
    ensures QueuesFirst(QueuedOutbox(outbox, e), list + [e])
  {
    var more, all := QueuedOutbox(outbox, e), list + [e];
    var arrivals: seq<nat> :| Arrivals(outbox, list, arrivals);
    forall x | x in list ensures HasId(more, x.eventId) {
      var i :| 0 <= i < |outbox| && outbox[i].event.eventId == x.eventId;
      assert more[i] == outbox[i];
    }
    if HasId(outbox, e.eventId) {
      assert Arrivals(more, all, arrivals);
    } else {
      assert more[|outbox|].event == e;
      forall j | 0 <= j < |list| ensures list[j].eventId != e.eventId {
        assert list[j] in list;
      }
      var longer: seq<nat> := arrivals + [|list|];
      assert Arrivals(more, all, longer);
    }
  }

  lemma RelayKeepsFirst(outbox: seq<OutboxRow>, list: seq<CandleEvent>, id: string, at: Stamp)
    requires QueuesFirst(outbox, list)
    ensures QueuesFirst(RelayedOutbox(outbox, id, at), list)
  {
    var more := RelayedOutbox(outbox, id, at);
    var arrivals: seq<nat> :| Arrivals(outbox, list, arrivals);
    assert Arrivals(more, list, arrivals);
    forall x | x in list ensures HasId(more, x.eventId) {
      var i :| 0 <= i < |outbox| && outbox[i].event.eventId == x.eventId;
      assert more[i].event == outbox[i].event;
    }
  }

  /** Whatever arrives, in whatever order and however often: every key keeps its first candle, every watermark is the latest
      open time of its stream, and the outbox holds the first event of every id in order of arrival. */
  lemma {:induction false} TablesDescribeHistory(log: seq<Event>)
    ensures KeepsFirst(After(log).candles, Candles(log))
    ensures IsMaximum(After(log).watermarks, Candles(log))
    ensures QueuesFirst(After(log).outbox, Candles(log))
  {
    hide KeepsFirst, IsMaximum, QueuesFirst, InsertedCandles, AdvancedWatermarks, QueuedOutbox, RelayedOutbox, CachedTickers;
    if log == [] {
      EmptyTables();
    } else {
      var init, t := log[..|log| - 1], After(log[..|log| - 1]);
      TablesDescribeHistory(init);
      match log[|log| - 1] {
        case Persist(e) =>
          InsertKeepsFirst(t.candles, Candles(init), e);
          AdvanceKeepsMaximum(t.watermarks, Candles(init), e);
          QueueKeepsFirst(t.outbox, Candles(init), e);
        case Relay(id, at) =>
          assert Candles(log) == Candles(init);
          RelayKeepsFirst(t.outbox, Candles(init), id, at);
        case Tick(_) =>
          assert Candles(log) == Candles(init);
      }
    }
  }

  lemma EmptyTables()
    ensures KeepsFirst(map[], []) && IsMaximum(map[], []) && QueuesFirst([], [])
  {
    assert Arrivals([], [], []);
  }

  /** The text of the open time tells the time and its zone. */
  lemma KeyTime(a: CandleEvent, b: CandleEvent)
    requires KeyOf(a) == KeyOf(b)
    ensures a.stream == b.stream && a.openTime == b.openTime
  {
    TextIdentifies(a.openTime, b.openTime);
  }

  ghost predicate KeyedByOpen(candles: map<CandleKey, CandleEvent>) {
    forall key :: key in candles ==> KeyOf(candles[key]) == key
  }

  /** The watermark of a stream is the latest open time among its stored candles. */
  lemma WatermarkOfStored(log: seq<Event>)
    ensures var t := After(log);
            && KeyedByOpen(t.candles)
            && (forall key :: key in t.candles ==> key.stream in t.watermarks && !Before(t.watermarks[key.stream], t.candles[key].openTime))
            && (forall stream :: stream in t.watermarks ==>
                  exists key :: key in t.candles && key.stream == stream && t.candles[key].openTime == t.watermarks[stream])
  {
    TablesDescribeHistory(log);
    hide After, Candles, KeyOf, Zoned.Instant, QueuesFirst;
    var t, list := After(log), Candles(log);
    forall key | key in t.candles
      ensures key == KeyOf(t.candles[key]) && key.stream in t.watermarks && !Before(t.watermarks[key.stream], t.candles[key].openTime)
    {
      var i :| 0 <= i < |list| && list[i] == t.candles[key] && KeyOf(list[i]) == key;
      assert list[i] in list;
      KeyStream(list[i]);
    }
    forall stream | stream in t.watermarks
      ensures exists key :: key in t.candles && key.stream == stream && t.candles[key].openTime == t.watermarks[stream]
    {
      var i :| 0 <= i < |list| && list[i].stream == stream && list[i].openTime == t.watermarks[stream];
      assert list[i] in list;
      var key := KeyOf(list[i]);
      KeyStream(list[i]);
      KeyTime(t.candles[key], list[i]);
    }
  }

  lemma KeyStream(e: CandleEvent)
    ensures KeyOf(e).stream == e.stream
  {
    hide Zoned.Text;
  }

  /** Persisting again what was persisted before changes nothing, however much happened in between. */
  lemma PersistAgain(log: seq<Event>, e: CandleEvent)
    requires e in Candles(log)
    ensures Apply(After(log), Persist(e)) == After(log)
  {
    TablesDescribeHistory(log);
    hide After, Candles, KeyOf, Before;
  }

  /** The same candles in any order, with any repeats, give the same keys and queued ids and watermarks at the same instants. */
  lemma OrderIrrelevant(log: seq<Event>, other: seq<Event>)
    requires forall e :: e in Candles(log) <==> e in Candles(other)
    ensures After(log).candles.Keys == After(other).candles.Keys
    ensures After(log).watermarks.Keys == After(other).watermarks.Keys
    ensures forall stream :: stream in After(log).watermarks ==>
              After(log).watermarks[stream].Instant() == After(other).watermarks[stream].Instant()
    ensures forall id :: HasId(After(log).outbox, id) <==> HasId(After(other).outbox, id)
  {
    SubsetOfHistory(log, other);
    SubsetOfHistory(other, log);
    hide After, Candles, HasId, Zoned.Instant;
  }

  lemma SubsetOfHistory(log: seq<Event>, other: seq<Event>)
    requires forall e :: e in Candles(log) ==> e in Candles(other)
    ensures After(log).candles.Keys <= After(other).candles.Keys
    ensures forall stream :: stream in After(log).watermarks ==>
              stream in After(other).watermarks && After(log).watermarks[stream].Instant() <= After(other).watermarks[stream].Instant()
    ensures forall id :: HasId(After(log).outbox, id) ==> HasId(After(other).outbox, id)
  {
    TablesDescribeHistory(log);
    TablesDescribeHistory(other);
    hide After, Candles, KeyOf, Zoned.Instant;
    var list := Candles(log);
    forall key | key in After(log).candles ensures key in After(other).candles {
      var i :| 0 <= i < |list| && list[i] == After(log).candles[key] && KeyOf(list[i]) == key;
      assert list[i] in list;
    }
    forall stream | stream in After(log).watermarks
      ensures stream in After(other).watermarks && After(log).watermarks[stream].Instant() <= After(other).watermarks[stream].Instant()
    {
      var i :| 0 <= i < |list| && list[i].stream == stream && list[i].openTime == After(log).watermarks[stream];
      assert list[i] in list;
    }
    forall id | HasId(After(log).outbox, id) ensures HasId(After(other).outbox, id) {
      var i :| 0 <= i < |After(log).outbox| && After(log).outbox[i].event.eventId == id;
      var arrivals: seq<nat> :| Arrivals(After(log).outbox, list, arrivals);
      assert FirstAt(list, After(log).outbox[i].event, arrivals[i]);
      assert list[arrivals[i]] in list;
    }
  }

  // ---------------------------------------------------------------- candles and outbox side by side

  /** Candles and outbox hold the same events, so a stored candle is queued and a queued event is stored. */
  ghost predicate Matched(t: Tables) {
    && (forall key :: key in t.candles ==> Queued(t.outbox, t.candles[key]))
    && (forall i :: 0 <= i < |t.outbox| ==> t.outbox[i].event in t.candles.Values)
  }

  ghost predicate Queued(outbox: seq<OutboxRow>, e: CandleEvent) { exists i :: 0 <= i < |outbox| && outbox[i].event == e }

  /** The key of the event is taken exactly when its id is. */
  predicate Aligned(t: Tables, e: CandleEvent) { KeyOf(e) in t.candles <==> HasId(t.outbox, e.eventId) }

  ghost predicate RowsUnique(outbox: seq<OutboxRow>) {
    forall i, j :: 0 <= i < j < |outbox| ==> outbox[i].event.eventId != outbox[j].event.eventId
  }

  lemma OutboxUnique(log: seq<Event>)
    ensures RowsUnique(After(log).outbox)
  {
    TablesDescribeHistory(log);
    hide After, Candles;
    var outbox, list := After(log).outbox, Candles(log);
    var arrivals: seq<nat> :| Arrivals(outbox, list, arrivals);
    forall i, j | 0 <= i < j < |outbox| ensures outbox[i].event.eventId != outbox[j].event.eventId {
      assert FirstAt(list, outbox[j].event, arrivals[j]);
      assert list[arrivals[i]] == outbox[i].event;
    }
  }

  lemma AlignedKeepsMatched(t: Tables, e: CandleEvent)
    requires Matched(t) && KeyedByOpen(t.candles) && KeyOf(e) !in t.candles && !HasId(t.outbox, e.eventId)
    ensures Matched(Apply(t, Persist(e)))
  {
    hide KeyOf, AdvancedWatermarks;
    var u := Apply(t, Persist(e));
    assert u.outbox[|t.outbox|].event == e && u.candles[KeyOf(e)] == e;
    forall key | key in u.candles ensures Queued(u.outbox, u.candles[key]) {
      if key in t.candles {
        assert Queued(t.outbox, t.candles[key]);
        var i :| 0 <= i < |t.outbox| && t.outbox[i].event == t.candles[key];
        assert u.outbox[i].event == u.candles[key];
      }
    }
    forall i | 0 <= i < |u.outbox| ensures u.outbox[i].event in u.candles.Values {
      if i < |t.outbox| {
        assert t.outbox[i].event in t.candles.Values;
        assert u.candles[KeyOf(t.outbox[i].event)] == t.outbox[i].event;
      }
    }
  }

  lemma QueuedHasId(outbox: seq<OutboxRow>, e: CandleEvent)
    ensures Queued(outbox, e) ==> HasId(outbox, e.eventId)
  {
  }

  /** One arrival keeps candles and outbox side by side exactly when it is aligned. */
  lemma MatchedStep(t: Tables, e: CandleEvent)
    requires Matched(t) && KeyedByOpen(t.candles)
    ensures Matched(Apply(t, Persist(e))) <==> Aligned(t, e)
  {
    hide KeyOf, AdvancedWatermarks;
    var u := Apply(t, Persist(e));
    if Aligned(t, e) {
      if KeyOf(e) !in t.candles { AlignedKeepsMatched(t, e); }
    } else if KeyOf(e) in t.candles {
      assert u.outbox[|t.outbox|].event == e;
      forall key | key in t.candles ensures t.candles[key] != e {
        assert Queued(t.outbox, t.candles[key]);
        QueuedHasId(t.outbox, t.candles[key]);
      }
    } else {
      assert u.candles[KeyOf(e)] == e;
      forall i | 0 <= i < |t.outbox| ensures t.outbox[i].event != e {
        assert t.outbox[i].event in t.candles.Values;
      }
    }
  }

  lemma RelayKeepsMatched(t: Tables, id: string, at: Stamp)
    ensures Matched(Apply(t, Relay(id, at))) <==> Matched(t)
  {
    var u := Apply(t, Relay(id, at));
    assert |u.outbox| == |t.outbox| && forall i :: 0 <= i < |t.outbox| ==> u.outbox[i].event == t.outbox[i].event;
    assert forall e :: Queued(u.outbox, e) <==> Queued(t.outbox, e);
  }

  /** Every arrival so far was aligned. */
  ghost predicate AllAligned(log: seq<Event>) {
    forall n :: 0 <= n < |log| && log[n].Persist? ==> Aligned(After(log[..n]), log[n].candle)
  }

  ghost predicate AlwaysMatched(log: seq<Event>) {
    forall n :: 0 <= n <= |log| ==> Matched(After(log[..n]))
  }

  lemma MatchedLast(log: seq<Event>)
    requires log != [] && Matched(After(log[..|log| - 1]))
    ensures var last := log[|log| - 1];
            Matched(After(log)) <==> (last.Persist? ==> Aligned(After(log[..|log| - 1]), last.candle))
  {
    var t := After(log[..|log| - 1]);
    match log[|log| - 1] {
      case Persist(e) => WatermarkOfStored(log[..|log| - 1]); MatchedStep(t, e);
      case Relay(id, at) => RelayKeepsMatched(t, id, at);
      case Tick(_) =>
    }
    hide Matched, Aligned, KeyedByOpen, InsertedCandles, AdvancedWatermarks, QueuedOutbox, RelayedOutbox, CachedTickers;
  }

  lemma MatchedPrefixes(log: seq<Event>)
    requires log != []
    ensures AlwaysMatched(log) <==> AlwaysMatched(log[..|log| - 1]) && Matched(After(log))
    ensures AlwaysMatched(log[..|log| - 1]) ==> Matched(After(log[..|log| - 1]))
  {
    hide After, Matched;
    var init := log[..|log| - 1];
    assert log[..|log|] == log && init[..|init|] == init;
    assert forall n :: 0 <= n <= |init| ==> init[..n] == log[..n];
  }

  lemma AlignedPrefixes(log: seq<Event>)
    requires log != []
    ensures AllAligned(log) <==>
              AllAligned(log[..|log| - 1]) && (log[|log| - 1].Persist? ==> Aligned(After(log[..|log| - 1]), log[|log| - 1].candle))
  {
    hide After, Aligned;
    var init := log[..|log| - 1];
    forall n | 0 <= n < |init| ensures init[n] == log[n] && init[..n] == log[..n] {}
    if AllAligned(log) {
      forall n | 0 <= n < |init| && init[n].Persist? ensures Aligned(After(init[..n]), init[n].candle) {
        assert log[n].Persist?;
      }
    }
  }

  /** Candles and outbox stay side by side throughout a run exactly when every arrival is aligned. */
  lemma {:induction false} MatchedExactly(log: seq<Event>)
    ensures AlwaysMatched(log) <==> AllAligned(log)
  {
    if log == [] {
      assert log[..0] == [];
    } else {
      hide After, Matched, Aligned, AlwaysMatched, AllAligned;
      MatchedPrefixes(log);
      AlignedPrefixes(log);
      MatchedExactly(log[..|log| - 1]);
      if AlwaysMatched(log[..|log| - 1]) { MatchedLast(log); }
    }
  }

  /** Concretely: of two candles with one key and two ids, both are queued but only the first is stored. */
  lemma MatchedWitness(stream: Stream, open: Stamp)
    ensures var first, second := CandleEvent("first", stream, open, ""), CandleEvent("second", stream, open, "");
            var log := [Persist(first), Persist(second)];
            && After(log).outbox == [OutboxRow(first, None), OutboxRow(second, None)] && After(log).candles == map[KeyOf(first) := first]
            && !AllAligned(log) && !AlwaysMatched(log)
  {
    hide Zoned.Text, Zoned.Instant, AlwaysMatched, Matched, Before;
    var first, second := CandleEvent("first", stream, open, ""), CandleEvent("second", stream, open, "");
    var log := [Persist(first), Persist(second)];
    Appended([], Persist(first));
    Appended([Persist(first)], Persist(second));
    assert [] + [Persist(first)] == [Persist(first)] == log[..1] && [Persist(first)] + [Persist(second)] == log;
    assert log[1].Persist? && log[..2] == log;
    var t := After(log[..1]);
    assert t == Apply(EMPTY, Persist(first)) && t.outbox[0].event == first;
    assert !HasId(t.outbox, "second") && KeyOf(second) in t.candles;
    MatchedExactly(log);
  }

  /** Ids and keys correspond one to one. */
  ghost predicate OneToOne(list: seq<CandleEvent>) {
    forall e, f :: e in list && f in list ==> (KeyOf(e) == KeyOf(f) <==> e.eventId == f.eventId)
  }

  lemma {:induction false} CandlesBefore(log: seq<Event>, n: nat)
    requires n <= |log|
    ensures forall e :: e in Candles(log[..n]) ==> e in Candles(log)
    decreases |log|
  {
    if n == |log| {
      assert log[..n] == log;
    } else {
      CandlesBefore(log[..|log| - 1], n);
      assert log[..|log| - 1][..n] == log[..n];
    }
  }

  /** If ids and keys correspond one to one, every arrival is aligned: candles and outbox stay side by side. */
  lemma OneToOneAligned(log: seq<Event>)
    requires OneToOne(Candles(log))
    ensures AllAligned(log) && AlwaysMatched(log)
  {
    hide After, Candles, Aligned, OneToOne;
    forall n | 0 <= n < |log| && log[n].Persist? ensures Aligned(After(log[..n]), log[n].candle) {
      OneToOneAlignedAt(log, n);
    }
    MatchedExactly(log);
  }

  lemma OneToOneAlignedAt(log: seq<Event>, n: nat)
    requires OneToOne(Candles(log)) && n < |log| && log[n].Persist?
    ensures Aligned(After(log[..n]), log[n].candle)
  {
    hide After, Aligned, KeyOf;
    CandlesBefore(log, n);
    CandlesBefore(log, n + 1);
    assert log[..n + 1][..n] == log[..n];
    assert log[n].candle in Candles(log[..n + 1]);
    AlignedByHistory(log[..n], log[n].candle);
  }

  lemma AlignedByHistory(log: seq<Event>, e: CandleEvent)
    requires forall f :: f in Candles(log) ==> (KeyOf(e) == KeyOf(f) <==> e.eventId == f.eventId)
    ensures Aligned(After(log), e)
  {
    TablesDescribeHistory(log);
    hide After, Candles, KeyOf;
    var t, list := After(log), Candles(log);
    if KeyOf(e) in t.candles {
      var i :| 0 <= i < |list| && list[i] == t.candles[KeyOf(e)] && KeyOf(list[i]) == KeyOf(e);
      assert list[i] in list;
    }
    if HasId(t.outbox, e.eventId) {
      var i :| 0 <= i < |t.outbox| && t.outbox[i].event.eventId == e.eventId;
      var arrivals: seq<nat> :| Arrivals(t.outbox, list, arrivals);
      assert FirstAt(list, t.outbox[i].event, arrivals[i]);
      assert t.outbox[i].event in list;
    }
  }

  // ---------------------------------------------------------------- delivery

  /** The last mark for an id that was queued by then; marks for unknown ids are lost. */
  function LastRelay(log: seq<Event>, id: string): Option<Stamp> {
    if log == [] then None
    else
      var init, last := log[..|log| - 1], log[|log| - 1];
      if last.Relay? && last.eventId == id && HasId(After(init).outbox, id) then Some(last.at) else LastRelay(init, id)
  }

  lemma {:induction false} NeverQueued(log: seq<Event>, id: string)
    requires !HasId(After(log).outbox, id)
    ensures LastRelay(log, id) == None
  {
    if log != [] {
      var init := log[..|log| - 1];
      var before, after := After(init).outbox, After(log).outbox;
      assert |before| <= |after| && forall i :: 0 <= i < |before| ==> after[i].event == before[i].event;
      NeverQueued(init, id);
    }
  }

  lemma {:induction false} RelayedWhenMarked(log: seq<Event>)
    ensures forall i :: 0 <= i < |After(log).outbox| ==> After(log).outbox[i].relayedAt == LastRelay(log, After(log).outbox[i].event.eventId)
  {
    if log != [] {
      var init, last := log[..|log| - 1], log[|log| - 1];
      RelayedWhenMarked(init);
      var before, after := After(init).outbox, After(log).outbox;
      if last.Persist? && !HasId(before, last.candle.eventId) { NeverQueued(init, last.candle.eventId); }
      forall i | 0 <= i < |after| ensures after[i].relayedAt == LastRelay(log, after[i].event.eventId) {
        assert i < |before| ==> HasId(before, before[i].event.eventId);
      }
    }
  }

  /** `relayed_at IS NULL ORDER BY rowid`. */
  function Undelivered(outbox: seq<OutboxRow>): seq<CandleEvent> {
    if outbox == [] then []
    else Undelivered(outbox[..|outbox| - 1]) + if outbox[|outbox| - 1].relayedAt.None? then [outbox[|outbox| - 1].event] else []
  }

  lemma {:induction false} UndeliveredMembers(outbox: seq<OutboxRow>, e: CandleEvent)
    ensures e in Undelivered(outbox) <==> exists i :: 0 <= i < |outbox| && outbox[i] == OutboxRow(e, None)
  {
    if outbox != [] {
      var init, last := outbox[..|outbox| - 1], outbox[|outbox| - 1];
      UndeliveredMembers(init, e);
      if e in Undelivered(init) {
        var i :| 0 <= i < |init| && init[i] == OutboxRow(e, None);
        assert outbox[i] == init[i];
      }
      if i :| 0 <= i < |outbox| && outbox[i] == OutboxRow(e, None) {
        assert i < |init| ==> init[i] == outbox[i];
      }
    }
  }

  /** The events arrived at these positions, in this order, each before any other event with its id. */
  ghost predicate ArrivedAt(events: seq<CandleEvent>, list: seq<CandleEvent>, arrivals: seq<nat>) {
    && |arrivals| == |events|
    && (forall i, j :: 0 <= i < j < |arrivals| ==> arrivals[i] < arrivals[j])
    && (forall i :: 0 <= i < |events| ==> FirstAt(list, events[i], arrivals[i]))
  }

  /** Undelivered events come in order of arrival. */
  lemma {:induction false} UndeliveredInOrder(outbox: seq<OutboxRow>, list: seq<CandleEvent>, arrivals: seq<nat>) returns (kept: seq<nat>)
    requires Arrivals(outbox, list, arrivals)
    ensures ArrivedAt(Undelivered(outbox), list, kept) && |kept| == |Undelivered(outbox)|
    ensures kept != [] ==> kept[|kept| - 1] <= arrivals[|arrivals| - 1]
  {
    hide FirstAt, Arrivals, ArrivedAt;
    if outbox == [] {
      NoneArrived(list);
      return [];
    }
    var n := |outbox| - 1;
    EarlierArrivals(outbox, list, arrivals);
    kept := UndeliveredInOrder(outbox[..n], list, arrivals[..n]);
    assert n > 0 ==> arrivals[..n][n - 1] == arrivals[n - 1] < arrivals[n];
    assert n == 0 ==> outbox[..n] == [];
    if outbox[n].relayedAt.None? {
      OneMoreArrival(Undelivered(outbox[..n]), list, kept, outbox[n].event, arrivals[n]);
      kept := kept + [arrivals[n]];
    } else {
      assert Undelivered(outbox) == Undelivered(outbox[..n]);
    }
  }

  lemma NoneArrived(list: seq<CandleEvent>)
    ensures ArrivedAt([], list, [])
  {
  }

  lemma EarlierArrivals(outbox: seq<OutboxRow>, list: seq<CandleEvent>, arrivals: seq<nat>)
    requires Arrivals(outbox, list, arrivals) && outbox != []
    ensures var n := |outbox| - 1;
            && |arrivals| == n + 1 && Arrivals(outbox[..n], list, arrivals[..n]) && FirstAt(list, outbox[n].event, arrivals[n])
            && (n > 0 ==> arrivals[n - 1] < arrivals[n])
  {
    hide FirstAt;
  }

  lemma OneMoreArrival(events: seq<CandleEvent>, list: seq<CandleEvent>, arrivals: seq<nat>, e: CandleEvent, p: nat)
    requires ArrivedAt(events, list, arrivals) && FirstAt(list, e, p)
    requires arrivals != [] ==> arrivals[|arrivals| - 1] < p
    ensures ArrivedAt(events + [e], list, arrivals + [p])
  {
    hide FirstAt;
    var all := arrivals + [p];
    forall i, j | 0 <= i < j < |all| ensures all[i] < all[j] {
      if j == |arrivals| { assert arrivals[i] <= arrivals[|arrivals| - 1]; }
    }
  }

  /** If ids and keys correspond one to one, every stored candle is either undelivered, listed in order of arrival, or was marked
      as relayed. */
  lemma StoredIsDeliveredOrListed(log: seq<Event>, key: CandleKey)
    requires OneToOne(Candles(log)) && key in After(log).candles
    ensures var e := After(log).candles[key];
            e in Undelivered(After(log).outbox) <==> LastRelay(log, e.eventId).None?
  {
    OneToOneAligned(log);
    assert log[..|log|] == log;
    RelayedWhenMarked(log);
    OutboxUnique(log);
    hide After, Candles, LastRelay, Aligned;
    var t := After(log);
    var e := t.candles[key];
    assert Matched(t) && Queued(t.outbox, e);
    var i :| 0 <= i < |t.outbox| && t.outbox[i].event == e;
    UndeliveredMembers(t.outbox, e);
    if e in Undelivered(t.outbox) {
      var j :| 0 <= j < |t.outbox| && t.outbox[j] == OutboxRow(e, None);
      assert i == j;
    }
  }

  // ---------------------------------------------------------------- ticker cache

  /** Later, or at the same instant with a higher sequence number; no number counts as -1. */
  ghost predicate Supersedes(a: TickerEvent, b: TickerEvent) {
    var m, n := a.occurredAt.Instant(), b.occurredAt.Instant();
    m > n || (m == n && match (a.sequence, b.sequence)
                        case (Some(i), Some(j)) => i > j
                        case (Some(i), None) => i > -1
                        case (None, Some(j)) => j < -1
                        case (None, None) => false)
  }

  lemma NewerSupersedes(a: TickerEvent, b: TickerEvent)
    ensures Newer(a, b) <==> Supersedes(a, b)
  {
    hide Zoned.Instant;
  }

  /** The ticker at position `p`: nothing for its symbol supersedes it, and it supersedes everything that arrived later. */
  ghost predicate LatestAt(list: seq<TickerEvent>, symbol: string, p: nat) {
    && p < |list| && list[p].symbol == symbol
    && (forall j :: 0 <= j < |list| && list[j].symbol == symbol ==> !Supersedes(list[j], list[p]))
    && (forall j :: p < j < |list| && list[j].symbol == symbol ==> Supersedes(list[p], list[j]))
  }

  ghost predicate CacheLatest(tickers: map<string, TickerEvent>, list: seq<TickerEvent>) {
    && (forall t :: t in list ==> t.symbol in tickers)
    && (forall symbol :: symbol in tickers ==> exists p: nat :: LatestAt(list, symbol, p) && list[p] == tickers[symbol])
  }

  lemma CacheStep(tickers: map<string, TickerEvent>, list: seq<TickerEvent>, t: TickerEvent)
    requires CacheLatest(tickers, list)
    ensures CacheLatest(CachedTickers(tickers, t), list + [t])
  {
    hide Newer, Supersedes;
    var after, all := CachedTickers(tickers, t), list + [t];
    forall symbol | symbol in after ensures exists p: nat :: LatestAt(all, symbol, p) && all[p] == after[symbol] {
      if symbol in tickers {
        var p: nat :| LatestAt(list, symbol, p) && list[p] == tickers[symbol];
        LatestStep(list, symbol, p, t);
        assert all[p] == list[p];
      } else {
        LatestAlone(list, t);
      }
    }
  }

  lemma LatestAlone(list: seq<TickerEvent>, t: TickerEvent)
    requires forall other :: other in list ==> other.symbol != t.symbol
    ensures LatestAt(list + [t], t.symbol, |list|)
  {
    hide Zoned.Instant;
    assert forall j :: 0 <= j < |list| ==> (list + [t])[j] in list;
  }

  /** The cache holds the greatest (occurred_at, receive_sequence) of every symbol, of equals the last to arrive. */
  lemma {:induction false} TickerIsLatest(log: seq<Event>)
    ensures CacheLatest(After(log).tickers, Ticks(log))
  {
    hide CacheLatest, CachedTickers, InsertedCandles, AdvancedWatermarks, QueuedOutbox, RelayedOutbox;
    if log == [] {
      NothingCached();
    } else {
      var init, last := log[..|log| - 1], log[|log| - 1];
      TickerIsLatest(init);
      if last.Tick? {
        CacheStep(After(init).tickers, Ticks(init), last.ticker);
      } else {
        assert Ticks(log) == Ticks(init);
      }
    }
  }

  lemma NothingCached()
    ensures CacheLatest(map[], [])
  {
  }

  lemma LatestStep(list: seq<TickerEvent>, symbol: string, p: nat, t: TickerEvent)
    requires LatestAt(list, symbol, p)
    ensures LatestAt(list + [t], symbol, if t.symbol != symbol || Newer(list[p], t) then p else |list|)
  {
    hide Zoned.Instant;
    NewerSupersedes(list[p], t);
    hide Newer;
    var all := list + [t];
    assert forall j :: 0 <= j < |list| ==> all[j] == list[j];
  }

  // ---------------------------------------------------------------- the store

  datatype Written = Inserted | Duplicate
  datatype PersistResult = PersistResult(candle: Written, watermarkAdvanced: bool, outbox: Written)

  ghost predicate InRange(e: CandleEvent, stream: Stream, start: Option<Stamp>, end: Option<Stamp>) {
    e.stream == stream && (start.Some? ==> !Before(e.openTime, start.value)) && (end.Some? ==> Before(e.openTime, end.value))
  }

  /** The text conditions of the query. */
  predicate Selected(key: CandleKey, stream: Stream, start: Option<Stamp>, end: Option<Stamp>) {
    && key.stream == stream
    && (start.Some? ==> !LexLess(key.openText, start.value.Text()))
    && (end.Some? ==> LexLess(key.openText, end.value.Text()))
  }

  /** The open time and the bounds that are given are in zones of these offsets. */
  predicate ZonesIn(e: CandleEvent, start: Option<Stamp>, end: Option<Stamp>, offsets: set<int>) {
    e.openTime.offset in offsets && (start.Some? ==> start.value.offset in offsets) && (end.Some? ==> end.value.offset in offsets)
  }

  lemma SelectedInRange(e: CandleEvent, stream: Stream, start: Option<Stamp>, end: Option<Stamp>, offset: int)
    requires ZonesIn(e, start, end, {offset})
    ensures Selected(KeyOf(e), stream, start, end) <==> InRange(e, stream, start, end)
  {
    hide Zoned.Text, LexLess, Zoned.Instant, Zoned.Valid;
    if start.Some? { OneZoneOrder(e.openTime, start.value); }
    if end.Some? { OneZoneOrder(e.openTime, end.value); }
  }

  /** The query selects as text what opens in the range, for all candles and bounds in some zones, exactly when there is only one
      zone. */
  lemma SelectionExactly(offsets: set<int>, stream: Stream)
    requires forall o :: o in offsets ==> -US_PER_DAY < o < US_PER_DAY
    ensures (forall e: CandleEvent, start: Option<Stamp>, end: Option<Stamp> :: ZonesIn(e, start, end, offsets) ==>
               (Selected(KeyOf(e), stream, start, end) <==> InRange(e, stream, start, end)))
       <==> forall m, n :: m in offsets && n in offsets ==> m == n
  {
    hide Zoned.Text, LexLess, Zoned.Instant, Zoned.Valid;
    if forall m, n :: m in offsets && n in offsets ==> m == n {
      forall e: CandleEvent, start: Option<Stamp>, end: Option<Stamp> | ZonesIn(e, start, end, offsets)
        ensures Selected(KeyOf(e), stream, start, end) <==> InRange(e, stream, start, end)
      {
        SelectedInRange(e, stream, start, end, e.openTime.offset);
      }
    } else {
      var m, n :| m in offsets && n in offsets && m != n;
      var a, b := ZonesDisagree(if m > n then m else n, if m > n then n else m);
      var e := CandleEvent("", stream, a, "");
      assert ZonesIn(e, Some(b), None, offsets);
    }
  }

  /** Concretely: a candle that opens at midnight in UTC, written as 05:30+05:30, is missing from the range that ends at 00:30 in
      UTC and turns up in the range that starts there. */
  lemma MissedWitness(stream: Stream)
    ensures var e := CandleEvent("candle", stream, HALF_PAST_FIVE, "");
            var key, bound := KeyOf(e), Some(HALF_PAST_MIDNIGHT);
            && After([Persist(e)]).candles == map[key := e]
            && InRange(e, stream, None, bound) && !Selected(key, stream, None, bound)
            && Selected(key, stream, bound, None) && !InRange(e, stream, bound, None)
  {
    OffsetWitness();
    hide Zoned.Text, LexLess, Zoned.Instant, Zoned.Valid, HALF_PAST_FIVE, HALF_PAST_MIDNIGHT;
    var e := CandleEvent("candle", stream, HALF_PAST_FIVE, "");
    LexAsymmetric(HALF_PAST_MIDNIGHT.Text(), HALF_PAST_FIVE.Text());
    assert [Persist(e)][..0] == [];
  }

  /** The answer to a query: the stored candles selected by text, in strict order of text. */
  ghost predicate Lists(events: seq<CandleEvent>, candles: map<CandleKey, CandleEvent>, stream: Stream, start: Option<Stamp>, end: Option<Stamp>) {
    && (forall e :: e in events <==> e in candles.Values && Selected(KeyOf(e), stream, start, end))
    && (forall i, j :: 0 <= i < j < |events| ==> LexLess(events[i].openTime.Text(), events[j].openTime.Text()))
  }

  /** All stored candles of the stream and the bounds are in the zone of this offset. */
  ghost predicate OneZone(candles: map<CandleKey, CandleEvent>, stream: Stream, start: Option<Stamp>, end: Option<Stamp>, offset: int) {
    forall e :: e in candles.Values && e.stream == stream ==> ZonesIn(e, start, end, {offset})
  }

  /** In one zone the answer holds the candles that open in the half-open range, in time order. */
  lemma ListsByTime(events: seq<CandleEvent>, candles: map<CandleKey, CandleEvent>, stream: Stream, start: Option<Stamp>, end: Option<Stamp>,
                    offset: int)
    requires Lists(events, candles, stream, start, end) && OneZone(candles, stream, start, end, offset)
    ensures forall e :: e in events <==> e in candles.Values && InRange(e, stream, start, end)
    ensures forall i, j :: 0 <= i < j < |events| ==> Before(events[i].openTime, events[j].openTime)
  {
    hide Zoned.Text, LexLess, Zoned.Instant, Zoned.Valid;
    forall e ensures e in events <==> e in candles.Values && InRange(e, stream, start, end) {
      if e in candles.Values && e.stream == stream { SelectedInRange(e, stream, start, end, offset); }
    }
    forall i, j | 0 <= i < j < |events| ensures Before(events[i].openTime, events[j].openTime) {
      assert events[i] in events && events[j] in events;
      OneZoneOrder(events[i].openTime, events[j].openTime);
    }
  }

  class SqliteMarketDataStore {
    var candles: map<CandleKey, CandleEvent>
    var watermarks: map<Stream, Stamp>
    var outbox: seq<OutboxRow>
    var tickers: map<string, TickerEvent>
    ghost var log: seq<Event>

    function State(): Tables
      reads `candles, `watermarks, `outbox, `tickers
    {
      Tables(candles, watermarks, outbox, tickers)
    }

    /** The tables are what all events so far make them. */
    ghost predicate Valid()
      reads this
    {
      State() == After(log)
    }

    constructor ()
      ensures Valid() && log == []
    {
      candles, watermarks, outbox, tickers, log := map[], map[], [], map[], [];
    }

    /** One transaction: insert the candle if its key is free, advance the watermark, queue the event if its id is free. */
    method PersistClosedCandleAndOutbox(e: CandleEvent) returns (r: PersistResult)
      requires Valid()
      modifies this
      ensures Valid() && log == old(log) + [Persist(e)]
      ensures r.candle == (if KeyOf(e) in old(candles) then Duplicate else Inserted)
      ensures r.outbox == (if HasId(old(outbox), e.eventId) then Duplicate else Inserted)
      ensures r.watermarkAdvanced <==> watermarks != old(watermarks)
      ensures e in old(Candles(log)) ==> State() == old(State()) && r == PersistResult(Duplicate, false, Duplicate)
    {
      hide KeyOf, HasId, Zoned.Instant, Candles;
      if e in Candles(log) { PersistAgain(log, e); }
      Appended(log, Persist(e));
      log := log + [Persist(e)];
      var candle, queued := Duplicate, Duplicate;
      if KeyOf(e) !in candles {
        candles := candles[KeyOf(e) := e];
        candle := Inserted;
      }
      var advance := true;
      if e.stream in watermarks {
        advance := Before(watermarks[e.stream], e.openTime);
      }
      if advance {
        watermarks := watermarks[e.stream := e.openTime];
      }
      if !HasId(outbox, e.eventId) {
        outbox := outbox + [OutboxRow(e, None)];
        queued := Inserted;
      }
      return PersistResult(candle, advance, queued);
    }

    method MarkOutboxRelayed(id: string, at: Stamp)
      requires Valid()
      modifies `outbox, `log
      ensures Valid() && log == old(log) + [Relay(id, at)]
    {
      hide RelayedOutbox;
      Appended(log, Relay(id, at));
      log := log + [Relay(id, at)];
      outbox := RelayedOutbox(outbox, id, at);
    }

    method SetTickerCache(t: TickerEvent) returns (stored: bool)
      requires Valid()
      modifies `tickers, `log
      ensures Valid() && log == old(log) + [Tick(t)]
      ensures stored <==> tickers == old(tickers)[t.symbol := t]
    {
      Appended(log, Tick(t));
      log := log + [Tick(t)];
      stored := !(t.symbol in tickers && Newer(tickers[t.symbol], t));
      if stored {
        tickers := tickers[t.symbol := t];
      }
    }

    method ListUndelivered() returns (events: seq<CandleEvent>)
      ensures events == Undelivered(outbox)
    {
      events := [];
      for i := 0 to |outbox|
        invariant events == Undelivered(outbox[..i])
      {
        assert outbox[..i + 1][..i] == outbox[..i];
        if outbox[i].relayedAt.None? {
          events := events + [outbox[i].event];
        }
      }
      assert outbox[..|outbox|] == outbox;
    }

    /** The stored candles of a stream selected and sorted as text: those that open in the half-open range, in time order, if
        candles and bounds are in one zone. */
    method ListCandles(stream: Stream, start: Option<Stamp>, end: Option<Stamp>) returns (events: seq<CandleEvent>)
      requires Valid()
      ensures Lists(events, candles, stream, start, end)
      ensures (exists offset :: OneZone(candles, stream, start, end, offset)) ==>
                && (forall e :: e in events <==> e in candles.Values && InRange(e, stream, start, end))
                && (forall i, j :: 0 <= i < j < |events| ==> Before(events[i].openTime, events[j].openTime))
    {
      hide After, Selected, InRange, Before, KeyOf, Lists, OneZone;
      WatermarkOfStored(log);
      var stored := candles;
      var order := Ordered((set key | key in stored.Keys && Selected(key, stream, start, end)), OpenText);
      assert forall i :: 0 <= i < |order| ==> order[i] in order;
      events := seq(|order|, i requires 0 <= i < |order| => stored[order[i]]);
      ListedKeys(stored, order, events, stream, start, end);
      if offset :| OneZone(stored, stream, start, end, offset) {
        ListsByTime(events, stored, stream, start, end, offset);
      }
    }
  }

  function OpenText(key: CandleKey): string { key.openText }

  lemma ListedKeys(candles: map<CandleKey, CandleEvent>, order: seq<CandleKey>, events: seq<CandleEvent>,
                   stream: Stream, start: Option<Stamp>, end: Option<Stamp>)
    requires KeyedByOpen(candles) && |events| == |order| && forall i :: 0 <= i < |order| ==> order[i] in candles && events[i] == candles[order[i]]
    requires SortedBy(order, (set key | key in candles && Selected(key, stream, start, end)), OpenText)
    ensures Lists(events, candles, stream, start, end)
  {
    hide LexLess, Zoned.Text, Zoned.Instant, Zoned.Valid;
    forall e ensures e in events <==> e in candles.Values && Selected(KeyOf(e), stream, start, end) {
      if e in candles.Values && Selected(KeyOf(e), stream, start, end) {
        assert KeyOf(e) in order;
        var i :| 0 <= i < |order| && order[i] == KeyOf(e);
        assert events[i] == e;
      }
      if e in events {
        var i :| 0 <= i < |events| && events[i] == e;
        assert order[i] in order;
      }
    }
    forall i, j | 0 <= i < j < |events| ensures LexLess(events[i].openTime.Text(), events[j].openTime.Text()) {
      assert order[i] in order && order[j] in order;
      LexTotal(order[i].openText, order[j].openText);
    }
  }

  lemma Appended(log: seq<Event>, event: Event)
    ensures After(log + [event]) == Apply(After(log), event)
  {
    hide Apply;
    assert (log + [event])[..|log|] == log;
  }
}
