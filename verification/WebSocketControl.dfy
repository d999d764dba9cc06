/** packages/market_data/adapters/binance_ws.py: SUBSCRIBE and UNSUBSCRIBE requests, their acknowledgements and rejections. */
module WebSocketControl {
  import opened Wrappers
  import opened Json
  import opened TextOrder
  import opened Texts

  // ---------------------------------------------------------------- subscriptions and stream names

  datatype Kind = Trade | Ticker | Kline(interval: string)

  predicate UpperOrDigit(c: char) { 'A' <= c <= 'Z' || '0' <= c <= '9' }

  predicate SpotSymbol(s: MarketSymbol) {
    && s.base != "" && s.quote != ""
    && (forall i :: 0 <= i < |s.base| ==> UpperOrDigit(s.base[i])) && (forall i :: 0 <= i < |s.quote| ==> UpperOrDigit(s.quote[i]))
  }

  datatype StreamSubscription = Subscription(symbol: MarketSymbol, kind: Kind)

  /** What the constructors of the symbol and the subscription let through. */
  type Subscription = sub: StreamSubscription | SpotSymbol(sub.symbol) && sub.kind != Kline("")
    witness Subscription(MarketSymbol("BTC", "USDT"), Trade)

  function Suffix(kind: Kind): string {
    match kind
    case Trade => "trade"
    case Ticker => "ticker"
    case Kline(interval) => "kline_" + interval
  }

  function StreamName(sub: Subscription): string {
    Lower(sub.symbol.base + sub.symbol.quote) + ("@" + Suffix(sub.kind))
  }

  /** The stream names of the exchange: the joined symbol in lower case, and the kind behind an at sign. */
  lemma StreamNames(symbol: MarketSymbol, interval: string)
    requires SpotSymbol(symbol) && interval != ""
    ensures var joined := Lower(symbol.base + symbol.quote);
            && StreamName(Subscription(symbol, Trade)) == joined + "@trade"
            && StreamName(Subscription(symbol, Ticker)) == joined + "@ticker"
            && StreamName(Subscription(symbol, Kline(interval))) == joined + "@kline_" + interval
    ensures Lower("BTC" + "USDT") == "btcusdt"
  {
    var joined := Lower(symbol.base + symbol.quote);
    assert joined + "@kline_" + interval == joined + ("@" + ("kline_" + interval));
    assert joined + "@trade" == joined + ("@" + "trade") && joined + "@ticker" == joined + ("@" + "ticker");
    assert "BTC" + "USDT" == "BTCUSDT" && Lower("BTCUSDT") == "btcusdt";
  }

  lemma SuffixInjective(k: Kind, l: Kind)
    ensures Suffix(k) == Suffix(l) <==> k == l
  {
    var s, t := Suffix(k), Suffix(l);
    if s == t {
      assert s[0] == t[0] && s[1] == t[1];
      if k.Kline? { assert k.interval == s[6..] == t[6..]; }
    }
  }

  lemma SplitAt(c: char, p: string, x: string, q: string, y: string)
    requires c !in p && c !in q && p + ([c] + x) == q + ([c] + y)
    ensures p == q && x == y
  {
    var s, t := p + ([c] + x), q + ([c] + y);
    assert s[|p|] == c && t[|q|] == c;
    assert forall i :: 0 <= i < |p| ==> s[i] == p[i] && p[i] in p;
    assert forall i :: 0 <= i < |q| ==> t[i] == q[i] && q[i] in q;
    assert p == s[..|p|] && x == s[|p| + 1..] && q == t[..|q|] && y == t[|q| + 1..];
  }

  /** Two subscriptions share a stream name exactly when they have the same kind and their symbols only differ in where the base
      ends: AB/C and A/BC cannot be told apart. */
  lemma NameCollision(a: Subscription, b: Subscription)
    ensures StreamName(a) == StreamName(b) <==> a.kind == b.kind && a.symbol.base + a.symbol.quote == b.symbol.base + b.symbol.quote
  {
    var s, t := a.symbol.base + a.symbol.quote, b.symbol.base + b.symbol.quote;
    assert forall i :: 0 <= i < |s| ==> UpperOrDigit(s[i]);
    assert forall i :: 0 <= i < |t| ==> UpperOrDigit(t[i]);
    if StreamName(a) == StreamName(b) {
      SplitAt('@', Lower(s), Suffix(a.kind), Lower(t), Suffix(b.kind));
      SuffixInjective(a.kind, b.kind);
      forall i | 0 <= i < |s| ensures s[i] == t[i] {
        assert LowerChar(s[i]) == Lower(s)[i] == Lower(t)[i] == LowerChar(t[i]);
      }
    }
  }

  const AB_C: Subscription := Subscription(MarketSymbol("AB", "C"), Trade)
  const A_BC: Subscription := Subscription(MarketSymbol("A", "BC"), Trade)

  /** Concretely, both are the stream "abc@trade". */
  lemma CollisionWitness()
    ensures AB_C != A_BC && StreamName(AB_C) == StreamName(A_BC) == "abc@trade"
  {
    assert AB_C.symbol.base != A_BC.symbol.base by { assert |AB_C.symbol.base| == 2; }
    assert AB_C.symbol.base + AB_C.symbol.quote == "ABC" == A_BC.symbol.base + A_BC.symbol.quote;
    assert Lower("ABC") == "abc";
  }

  // ---------------------------------------------------------------- control state

  datatype Operation = Subscribe | Unsubscribe
  datatype Named = Named(stream: string, sub: Subscription)
  datatype Request = Request(op: Operation, batch: seq<Named>)
  type Payload = map<string, Json>

  datatype Control = Control(
    active: map<string, Subscription>, pending: map<string, Subscription>, pendingUnsub: set<string>,
    requests: map<int, Request>, errors: map<int, Json>, nextId: int)

  const INITIAL := Control(map[], map[], {}, map[], map[], 1)

  function StreamsOf(batch: seq<Named>): set<string> { set n | n in batch :: n.stream }

  /** `dict.update` with the pairs of a batch, in order. */
  function Updated(m: map<string, Subscription>, batch: seq<Named>): map<string, Subscription> {
    if batch == [] then m else Updated(m, batch[..|batch| - 1])[batch[|batch| - 1].stream := batch[|batch| - 1].sub]
  }

  function Projected(c: Control, plan: seq<Named>): set<string> { c.active.Keys + c.pending.Keys + StreamsOf(plan) }

  /** A batch is recorded under the next id before it is sent. */
  function Recorded(c: Control, r: Request): Control {
    var d := c.(requests := c.requests[c.nextId := r], nextId := c.nextId + 1);
    if r.op.Subscribe? then d.(pending := Updated(c.pending, r.batch)) else d.(pendingUnsub := c.pendingUnsub + StreamsOf(r.batch))
  }

  /** The outstanding request that a control message answers. */
  function Answered(c: Control, p: Payload): Option<int> {
    if "id" in p && p["id"].Int? && p["id"].value in c.requests then Some(p["id"].value) else None
  }

  predicate Rejects(p: Payload) { "code" in p || ("result" in p && p["result"] != Null) }

  const NO_DETAIL := Str("Binance public control request rejected")

  function Settled(c: Control, id: int, p: Payload): Control
    requires id in c.requests
  {
    var r, rest := c.requests[id], c.(requests := c.requests - {id});
    var streams := StreamsOf(r.batch);
    if Rejects(p) then
      var d := rest.(errors := c.errors[id := if "msg" in p then p["msg"] else NO_DETAIL]);
      if r.op.Subscribe? then d.(pending := c.pending - streams) else d.(pendingUnsub := c.pendingUnsub - streams)
    else if r.op.Subscribe? then rest.(pending := c.pending - streams, active := Updated(c.active, r.batch))
    else rest.(pendingUnsub := c.pendingUnsub - streams, active := c.active - streams)
  }

  function Replied(c: Control, p: Payload): Control {
    match Answered(c, p)
    case None => c
    case Some(id) => Settled(c, id, p)
  }

  lemma {:induction false} UpdatedHas(m: map<string, Subscription>, batch: seq<Named>)
    ensures Updated(m, batch).Keys == m.Keys + StreamsOf(batch)
    ensures forall s :: s in m && s !in StreamsOf(batch) ==> Updated(m, batch)[s] == m[s]
    ensures forall s :: s in StreamsOf(batch) ==> Named(s, Updated(m, batch)[s]) in batch
  {
    if batch != [] {
      var init, last := batch[..|batch| - 1], batch[|batch| - 1];
      UpdatedHas(m, init);
      assert batch == init + [last];
      assert StreamsOf(batch) == StreamsOf(init) + {last.stream};
      hide StreamsOf;
    }
  }

  /** What one control message changes. Without the id of an outstanding request, nothing. Otherwise that request is no longer
      outstanding and its streams no longer pending; a code, or a result that is not null, rejects it, which is kept with its
      message; anything else acknowledges it. */
  lemma ReplyExactly(c: Control, p: Payload)
    ensures if !("id" in p && p["id"].Int? && p["id"].value in c.requests) then Replied(c, p) == c
            else
              var id := p["id"].value;
              && Released(c, id, Replied(c, p))
              && if "code" in p || ("result" in p && p["result"] != Null) then
                   && Replied(c, p).active == c.active
                   && Replied(c, p).errors == c.errors[id := if "msg" in p then p["msg"] else Str("Binance public control request rejected")]
                 else Replied(c, p).errors == c.errors && Acknowledges(c, id, Replied(c, p))
  {
    hide Settled, Released, Acknowledges, Rejects;
    if Answered(c, p).Some? { SettledExactly(c, p["id"].value, p); }
  }

  lemma SettledExactly(c: Control, id: int, p: Payload)
    requires id in c.requests
    ensures Released(c, id, Settled(c, id, p))
    ensures if "code" in p || ("result" in p && p["result"] != Null) then
              && Settled(c, id, p).active == c.active
              && Settled(c, id, p).errors == c.errors[id := if "msg" in p then p["msg"] else Str("Binance public control request rejected")]
            else Settled(c, id, p).errors == c.errors && Acknowledges(c, id, Settled(c, id, p))
  {
    hide Updated, StreamsOf;
    if !Rejects(p) && c.requests[id].op == Subscribe { UpdatedHas(c.active, c.requests[id].batch); }
  }

  /** The request is not outstanding any more, and its streams are not pending by it. */
  ghost predicate Released(c: Control, id: int, after: Control)
    requires id in c.requests
  {
    var Request(op, batch) := c.requests[id];
    && after.requests == c.requests - {id} && after.nextId == c.nextId
    && after.pending == (if op == Subscribe then c.pending - StreamsOf(batch) else c.pending)
    && after.pendingUnsub == (if op == Unsubscribe then c.pendingUnsub - StreamsOf(batch) else c.pendingUnsub)
  }

  /** Exactly the streams of the request have become active, or have ceased to be. */
  ghost predicate Acknowledges(c: Control, id: int, after: Control)
    requires id in c.requests
  {
    var Request(op, batch) := c.requests[id];
    && after.active.Keys == (if op == Subscribe then c.active.Keys + StreamsOf(batch) else c.active.Keys - StreamsOf(batch))
    && forall s :: s in after.active ==>
         if s in StreamsOf(batch) then Named(s, after.active[s]) in batch else s in c.active && after.active[s] == c.active[s]
  }

  // ---------------------------------------------------------------- interleavings

  /** A send in progress: between its batches it waits for the socket, and anything may happen. */
  datatype Sender = Sender(op: Operation, remaining: seq<Named>)

  datatype System = System(control: Control, senders: seq<Sender>)

  datatype Step =
    | Begin(op: Operation, plan: seq<Named>)
    | SendBatch(sender: nat, granted: bool, delivered: bool)
    | Reply(payload: Payload)

  datatype Limits = Limits(maxStreams: int, maxParams: int) {
    predicate Valid() { maxStreams >= 1 && maxParams >= 1 }
  }

  function Without(senders: seq<Sender>, k: nat): seq<Sender>
    requires k < |senders|
  {
    senders[..k] + senders[k + 1..]
  }

  function BatchSize(l: Limits, remaining: seq<Named>): nat
    requires l.Valid()
  {
    if l.maxParams < |remaining| then l.maxParams else |remaining|
  }

  predicate Admitted(c: Control, op: Operation, plan: seq<Named>, l: Limits) {
    plan != [] && (op.Subscribe? ==> |Projected(c, plan)| <= l.maxStreams)
  }

  /** One atomic step: the stream limit is checked once, when a send begins; every batch reserves its own budget; a batch that
      is refused, or whose write fails after it was recorded, ends its send. */
  function Next(l: Limits, s: System, step: Step): System
    requires l.Valid()
  {
    match step
    case Begin(op, plan) =>
      if Admitted(s.control, op, plan, l) then s.(senders := s.senders + [Sender(op, plan)]) else s
    case SendBatch(k, granted, delivered) =>
      if k >= |s.senders| then s
      else if !granted then s.(senders := Without(s.senders, k))
      else
        var Sender(op, remaining) := s.senders[k];
        var n := BatchSize(l, remaining);
        System(Recorded(s.control, Request(op, remaining[..n])),
               if !delivered || n == |remaining| then Without(s.senders, k) else s.senders[k := Sender(op, remaining[n..])])
    case Reply(p) => s.(control := Replied(s.control, p))
  }

  function Run(l: Limits, trace: seq<Step>): System
    requires l.Valid()
  {
    if trace == [] then System(INITIAL, []) else Next(l, Run(l, trace[..|trace| - 1]), trace[|trace| - 1])
  }

  // ---------------------------------------------------------------- history of a run

  /** Requests in the order they were sent; the request with id `k + 1` is the one at position `k`. */
  function Sent(l: Limits, trace: seq<Step>): seq<Request>
    requires l.Valid()
  {
    if trace == [] then []
    else
      var init, s, step := trace[..|trace| - 1], Run(l, trace[..|trace| - 1]), trace[|trace| - 1];
      Sent(l, init) +
        if step.SendBatch? && step.sender < |s.senders| && step.granted then
          var Sender(op, remaining) := s.senders[step.sender];
          [Request(op, remaining[..BatchSize(l, remaining)])]
        else []
  }

  /** Ids in the order they were answered, positively or not. */
  function Answers(l: Limits, trace: seq<Step>): seq<int>
    requires l.Valid()
  {
    if trace == [] then []
    else
      var init, s, step := trace[..|trace| - 1], Run(l, trace[..|trace| - 1]), trace[|trace| - 1];
      Answers(l, init) +
        if step.Reply? && Answered(s.control, step.payload).Some? then [Answered(s.control, step.payload).value] else []
  }

  /** Requests in the order they were acknowledged. */
  function Acknowledged(l: Limits, trace: seq<Step>): seq<Request>
    requires l.Valid()
  {
    if trace == [] then []
    else
      var init, s, step := trace[..|trace| - 1], Run(l, trace[..|trace| - 1]), trace[|trace| - 1];
      Acknowledged(l, init) +
        if step.Reply? && Answered(s.control, step.payload).Some? && !Rejects(step.payload) then
          [s.control.requests[Answered(s.control, step.payload).value]]
        else []
  }

  /** The last request of a list that names the stream. */
  function LastNaming(requests: seq<Request>, stream: string): Option<Request> {
    if requests == [] then None
    else if stream in StreamsOf(requests[|requests| - 1].batch) then Some(requests[|requests| - 1])
    else LastNaming(requests[..|requests| - 1], stream)
  }

  lemma LastNamingStep(requests: seq<Request>, r: Request, stream: string)
    ensures LastNaming(requests + [r], stream) == if stream in StreamsOf(r.batch) then Some(r) else LastNaming(requests, stream)
  {
    assert (requests + [r])[..|requests|] == requests;
  }

  ghost predicate ActiveMirrors(active: map<string, Subscription>, acknowledged: seq<Request>) {
    forall stream ::
      var last := LastNaming(acknowledged, stream);
      && (stream in active <==> last.Some? && last.value.op.Subscribe?)
      && (stream in active ==> Named(stream, active[stream]) in last.value.batch)
  }

  lemma SettledMirrors(c: Control, id: int, p: Payload, acknowledged: seq<Request>)
    requires id in c.requests && ActiveMirrors(c.active, acknowledged)
    ensures ActiveMirrors(Settled(c, id, p).active, acknowledged + if Rejects(p) then [] else [c.requests[id]])
  {
    var r := c.requests[id];
    if Rejects(p) {
      assert acknowledged + [] == acknowledged;
    } else {
      UpdatedHas(c.active, r.batch);
      hide LastNaming, Updated, StreamsOf;
      forall stream { LastNamingStep(acknowledged, r, stream); }
    }
  }

  /** A stream is active exactly when the last acknowledged request that names it was a SUBSCRIBE, and then with one of the
      subscriptions of that request; whatever was sent, refused, rejected or answered twice in between. */
  lemma {:induction false} ActiveIsLastAcknowledged(l: Limits, trace: seq<Step>)
    requires l.Valid()
    ensures ActiveMirrors(Run(l, trace).control.active, Acknowledged(l, trace))
  {
    hide Updated, StreamsOf, LastNaming;
    if trace == [] {
      NothingMirrored();
    } else {
      var init, step := trace[..|trace| - 1], trace[|trace| - 1];
      ActiveIsLastAcknowledged(l, init);
      var c := Run(l, init).control;
      if step.Reply? && Answered(c, step.payload).Some? {
        SettledMirrors(c, Answered(c, step.payload).value, step.payload, Acknowledged(l, init));
      } else {
        assert Acknowledged(l, trace) == Acknowledged(l, init);
      }
    }
  }

  lemma NothingMirrored()
    ensures ActiveMirrors(map[], [])
  {
  }

  /** Ids are given out in order, each is answered at most once, and what is outstanding is what was sent and not answered. */
  ghost predicate Accounted(c: Control, sent: seq<Request>, answers: seq<int>) {
    && c.nextId == |sent| + 1
    && (forall i, j :: 0 <= i < j < |answers| ==> answers[i] != answers[j])
    && (forall id :: id in answers ==> 1 <= id <= |sent|)
    && (forall id :: id in c.requests <==> 1 <= id <= |sent| && id !in answers)
    && (forall id :: id in c.requests ==> c.requests[id] == sent[id - 1])
  }

  lemma {:induction false} AnsweredAtMostOnce(l: Limits, trace: seq<Step>)
    requires l.Valid()
    ensures Accounted(Run(l, trace).control, Sent(l, trace), Answers(l, trace))
  {
    if trace != [] {
      var init, step := trace[..|trace| - 1], trace[|trace| - 1];
      AnsweredAtMostOnce(l, init);
      var s, sent, answers := Run(l, init), Sent(l, init), Answers(l, init);
      hide Accounted, Updated, StreamsOf, Recorded, Settled;
      match step {
        case Begin(_, _) =>
        case SendBatch(k, granted, _) =>
          if k < |s.senders| && granted {
            var Sender(op, remaining) := s.senders[k];
            RecordedAccounted(s.control, Request(op, remaining[..BatchSize(l, remaining)]), sent, answers);
          }
        case Reply(p) =>
          if Answered(s.control, p).Some? {
            SettledAccounted(s.control, Answered(s.control, p).value, p, sent, answers);
          }
      }
      assert sent + [] == sent && answers + [] == answers;
    }
  }

  lemma RecordedAccounted(c: Control, r: Request, sent: seq<Request>, answers: seq<int>)
    requires Accounted(c, sent, answers)
    ensures Accounted(Recorded(c, r), sent + [r], answers)
  {
    hide Updated, StreamsOf;
  }

  lemma SettledAccounted(c: Control, id: int, p: Payload, sent: seq<Request>, answers: seq<int>)
    requires Accounted(c, sent, answers) && id in c.requests
    ensures Accounted(Settled(c, id, p), sent, answers + [id])
  {
    hide Updated, StreamsOf;
  }

  // ---------------------------------------------------------------- the stream limit

  /** The stream is named by an outstanding request of the kind. */
  ghost predicate Awaited(requests: map<int, Request>, op: Operation, stream: string) {
    exists id :: id in requests && requests[id].op == op && stream in StreamsOf(requests[id].batch)
  }

  /** The streams named by outstanding SUBSCRIBE requests. */
  ghost function AwaitedStreams(requests: map<int, Request>): (streams: set<string>)
    ensures forall stream :: stream in streams <==> Awaited(requests, Subscribe, stream)
  {
    set id, n | id in requests && requests[id].op.Subscribe? && n in requests[id].batch :: n.stream
  }

  /** The streams that SUBSCRIBE sends in progress have still to name. */
  ghost function Unsent(senders: seq<Sender>): (streams: set<string>)
    ensures forall stream :: stream in streams <==>
              exists k :: 0 <= k < |senders| && senders[k].op.Subscribe? && stream in StreamsOf(senders[k].remaining)
  {
    set k, n | 0 <= k < |senders| && senders[k].op.Subscribe? && n in senders[k].remaining :: n.stream
  }

  /** Everything that may become active without a further call. */
  ghost function Committed(s: System): set<string> {
    s.control.active.Keys + AwaitedStreams(s.control.requests) + Unsent(s.senders)
  }

  /** Every pending stream belongs to an outstanding SUBSCRIBE, and every stream about to be dropped to an outstanding UNSUBSCRIBE. */
  ghost predicate PendingOwned(c: Control) {
    && (forall stream :: stream in c.pending ==> Awaited(c.requests, Subscribe, stream))
    && (forall stream :: stream in c.pendingUnsub ==> Awaited(c.requests, Unsubscribe, stream))
    && (forall id :: id in c.requests ==> id < c.nextId)
  }

  /** The outstanding SUBSCRIBE requests name pairwise different streams. */
  ghost predicate NoOverlap(requests: map<int, Request>) {
    forall id, id' :: id in requests && id' in requests && id != id' && requests[id].op.Subscribe? && requests[id'].op.Subscribe? ==>
      StreamsOf(requests[id].batch) !! StreamsOf(requests[id'].batch)
  }

  lemma AwaitedAdded(requests: map<int, Request>, id: int, r: Request, op: Operation, stream: string)
    requires id !in requests
    ensures Awaited(requests[id := r], op, stream) <==> Awaited(requests, op, stream) || (r.op == op && stream in StreamsOf(r.batch))
  {
    hide StreamsOf;
    var all := requests[id := r];
    assert all[id] == r;
    if Awaited(requests, op, stream) {
      var k :| k in requests && requests[k].op == op && stream in StreamsOf(requests[k].batch);
      assert k in all && all[k].op == op && stream in StreamsOf(all[k].batch);
    }
  }

  lemma AwaitedRemoved(requests: map<int, Request>, id: int, op: Operation, stream: string)
    requires id in requests
    ensures Awaited(requests, op, stream) <==>
              Awaited(requests - {id}, op, stream) || (requests[id].op == op && stream in StreamsOf(requests[id].batch))
  {
    hide StreamsOf;
    assert requests == (requests - {id})[id := requests[id]];
    AwaitedAdded(requests - {id}, id, requests[id], op, stream);
  }

  lemma RecordedAwaits(c: Control, r: Request)
    requires c.nextId !in c.requests
    ensures var d := Recorded(c, r);
            forall stream ::
              && (Awaited(d.requests, Subscribe, stream) <==> Awaited(c.requests, Subscribe, stream) || (r.op.Subscribe? && stream in StreamsOf(r.batch)))
              && (Awaited(d.requests, Unsubscribe, stream) <==> Awaited(c.requests, Unsubscribe, stream) || (r.op.Unsubscribe? && stream in StreamsOf(r.batch)))
  {
    hide Updated, StreamsOf, Awaited;
    var d := Recorded(c, r);
    forall stream
      ensures Awaited(d.requests, Subscribe, stream) <==> Awaited(c.requests, Subscribe, stream) || (r.op.Subscribe? && stream in StreamsOf(r.batch))
      ensures Awaited(d.requests, Unsubscribe, stream) <==> Awaited(c.requests, Unsubscribe, stream) || (r.op.Unsubscribe? && stream in StreamsOf(r.batch))
    {
      AwaitedAdded(c.requests, c.nextId, r, Subscribe, stream);
      AwaitedAdded(c.requests, c.nextId, r, Unsubscribe, stream);
    }
  }

  lemma RecordedOwned(c: Control, r: Request)
    requires PendingOwned(c)
    ensures PendingOwned(Recorded(c, r))
    ensures c.pending.Keys == AwaitedStreams(c.requests) ==> Recorded(c, r).pending.Keys == AwaitedStreams(Recorded(c, r).requests)
    ensures Recorded(c, r).active == c.active
    ensures AwaitedStreams(Recorded(c, r).requests) == AwaitedStreams(c.requests) + if r.op.Subscribe? then StreamsOf(r.batch) else {}
  {
    hide Updated, StreamsOf, Awaited, AwaitedStreams;
    RecordedAwaits(c, r);
    UpdatedHas(c.pending, r.batch);
    hide Recorded, PendingOwned;
    RecordedStillOwned(c, r);
  }

  lemma RecordedStillOwned(c: Control, r: Request)
    requires PendingOwned(c)
    ensures PendingOwned(Recorded(c, r)) && Recorded(c, r).active == c.active
    ensures Recorded(c, r).pending.Keys == c.pending.Keys + if r.op.Subscribe? then StreamsOf(r.batch) else {}
  {
    hide Updated, StreamsOf, Awaited;
    RecordedAwaits(c, r);
    UpdatedHas(c.pending, r.batch);
    var d := Recorded(c, r);
    assert d.requests == c.requests[c.nextId := r] && d.nextId == c.nextId + 1;
    forall stream | stream in d.pending ensures Awaited(d.requests, Subscribe, stream) {
      assert stream in c.pending || (r.op.Subscribe? && stream in StreamsOf(r.batch));
    }
  }

  lemma SettledAwaits(c: Control, id: int, p: Payload)
    requires id in c.requests
    ensures var (d, r) := (Settled(c, id, p), c.requests[id]);
            forall stream ::
              && (Awaited(c.requests, Subscribe, stream) <==> Awaited(d.requests, Subscribe, stream) || (r.op.Subscribe? && stream in StreamsOf(r.batch)))
              && (Awaited(c.requests, Unsubscribe, stream) <==> Awaited(d.requests, Unsubscribe, stream) || (r.op.Unsubscribe? && stream in StreamsOf(r.batch)))
  {
    hide Updated, StreamsOf, Awaited;
    var (d, r) := (Settled(c, id, p), c.requests[id]);
    forall stream
      ensures Awaited(c.requests, Subscribe, stream) <==> Awaited(d.requests, Subscribe, stream) || (r.op.Subscribe? && stream in StreamsOf(r.batch))
      ensures Awaited(c.requests, Unsubscribe, stream) <==> Awaited(d.requests, Unsubscribe, stream) || (r.op.Unsubscribe? && stream in StreamsOf(r.batch))
    {
      AwaitedRemoved(c.requests, id, Subscribe, stream);
      AwaitedRemoved(c.requests, id, Unsubscribe, stream);
    }
  }

  /** Settling a request: what stays pending is still owned. */
  lemma SettledOwned(c: Control, id: int, p: Payload)
    requires PendingOwned(c) && id in c.requests
    ensures PendingOwned(Settled(c, id, p))
  {
    SettledAwaits(c, id, p);
    hide Updated, StreamsOf, Awaited;
  }

  /** Nothing new is committed, and an acknowledged SUBSCRIBE stays committed. */
  lemma SettledCommits(c: Control, id: int, p: Payload)
    requires id in c.requests
    ensures var (d, r) := (Settled(c, id, p), c.requests[id]);
            && d.active.Keys + AwaitedStreams(d.requests) <= c.active.Keys + AwaitedStreams(c.requests)
            && (r.op.Subscribe? && !Rejects(p) ==>
                  d.active.Keys + AwaitedStreams(d.requests) == c.active.Keys + AwaitedStreams(c.requests))
  {
    UpdatedHas(c.active, c.requests[id].batch);
    SettledAwaits(c, id, p);
    hide Updated, StreamsOf, Awaited, AwaitedStreams;
  }

  /** Without overlap, settling a request leaves pending exactly what the other requests await. */
  lemma SettledPending(c: Control, id: int, p: Payload)
    requires id in c.requests && NoOverlap(c.requests) && c.pending.Keys == AwaitedStreams(c.requests)
    ensures Settled(c, id, p).pending.Keys == AwaitedStreams(Settled(c, id, p).requests)
  {
    SettledAwaits(c, id, p);
    if c.requests[id].op.Subscribe? {
      NotAwaitedTwice(c.requests, id);
    }
    hide Updated, StreamsOf, Awaited, AwaitedStreams, NoOverlap;
  }

  lemma NotAwaitedTwice(requests: map<int, Request>, id: int)
    requires NoOverlap(requests) && id in requests && requests[id].op.Subscribe?
    ensures forall stream :: stream in StreamsOf(requests[id].batch) ==> !Awaited(requests - {id}, Subscribe, stream)
  {
    hide StreamsOf;
  }

  lemma {:induction false} PendingIsOwned(l: Limits, trace: seq<Step>)
    requires l.Valid()
    ensures PendingOwned(Run(l, trace).control)
  {
    hide StreamsOf, Awaited;
    if trace != [] {
      var init, step := trace[..|trace| - 1], trace[|trace| - 1];
      PendingIsOwned(l, init);
      var s := Run(l, init);
      hide PendingOwned, Run, Recorded, Settled;
      RunStep(l, trace);
      match step {
        case Begin(_, _) =>
        case SendBatch(k, granted, _) =>
          if k < |s.senders| && granted {
            var Sender(op, remaining) := s.senders[k];
            RecordedOwned(s.control, Request(op, remaining[..BatchSize(l, remaining)]));
          }
        case Reply(p) =>
          if Answered(s.control, p).Some? { SettledOwned(s.control, Answered(s.control, p).value, p); }
      }
    }
  }

  lemma RunStep(l: Limits, trace: seq<Step>)
    requires l.Valid() && trace != []
    ensures Run(l, trace) == Next(l, Run(l, trace[..|trace| - 1]), trace[|trace| - 1])
  {
  }

  /** Outstanding SUBSCRIBEs never overlap. */
  ghost predicate NeverOverlapping(l: Limits, trace: seq<Step>)
    requires l.Valid()
  {
    forall n :: 0 <= n < |trace| ==> NoOverlap(Run(l, trace[..n]).control.requests)
  }

  /** No SUBSCRIBE begins while another one has batches left to send. */
  ghost predicate OneAtATime(l: Limits, trace: seq<Step>)
    requires l.Valid()
  {
    forall n :: 0 <= n < |trace| && trace[n].Begin? && trace[n].op.Subscribe? ==> Unsent(Run(l, trace[..n]).senders) == {}
  }

  /** Sending the next batch only moves streams from unsent to awaited; giving up drops them. */
  lemma SendCommits(l: Limits, s: System, k: nat, granted: bool, delivered: bool)
    requires l.Valid() && k < |s.senders| && PendingOwned(s.control)
    ensures Committed(Next(l, s, SendBatch(k, granted, delivered))) <= Committed(s)
    ensures granted && delivered ==> Committed(Next(l, s, SendBatch(k, granted, delivered))) == Committed(s)
  {
    hide Recorded, StreamsOf, AwaitedStreams, Unsent, Awaited, PendingOwned;
    var Sender(op, remaining) := s.senders[k];
    var n := BatchSize(l, remaining);
    if granted {
      RecordedOwned(s.control, Request(op, remaining[..n]));
      SplitStreams(remaining, n);
    }
    UnsentWithout(s.senders, k);
    if granted && delivered && n < |remaining| {
      UnsentReplaced(s.senders, k, Sender(op, remaining[n..]));
    }
  }

  lemma SplitStreams(batch: seq<Named>, n: nat)
    requires n <= |batch|
    ensures StreamsOf(batch) == StreamsOf(batch[..n]) + StreamsOf(batch[n..])
    ensures n == |batch| ==> StreamsOf(batch[n..]) == {}
  {
    assert batch == batch[..n] + batch[n..];
  }

  lemma UnsentWithout(senders: seq<Sender>, k: nat)
    requires k < |senders|
    ensures Unsent(senders) == Unsent(Without(senders, k)) + if senders[k].op.Subscribe? then StreamsOf(senders[k].remaining) else {}
  {
    hide StreamsOf;
    var fewer := Without(senders, k);
    forall stream | stream in Unsent(senders)
      ensures stream in Unsent(fewer) || (senders[k].op.Subscribe? && stream in StreamsOf(senders[k].remaining))
    {
      var i :| 0 <= i < |senders| && senders[i].op.Subscribe? && stream in StreamsOf(senders[i].remaining);
      if i != k { assert senders[i] == fewer[if i < k then i else i - 1]; }
    }
    forall stream | stream in Unsent(fewer) ensures stream in Unsent(senders) {
      var i :| 0 <= i < |fewer| && fewer[i].op.Subscribe? && stream in StreamsOf(fewer[i].remaining);
      assert fewer[i] == senders[if i < k then i else i + 1];
    }
  }

  lemma UnsentReplaced(senders: seq<Sender>, k: nat, other: Sender)
    requires k < |senders|
    ensures Unsent(senders[k := other]) == Unsent(Without(senders, k)) + if other.op.Subscribe? then StreamsOf(other.remaining) else {}
  {
    UnsentWithout(senders[k := other], k);
    assert Without(senders[k := other], k) == Without(senders, k);
  }

  lemma UnsentAppended(senders: seq<Sender>, other: Sender)
    ensures Unsent(senders + [other]) == Unsent(senders) + if other.op.Subscribe? then StreamsOf(other.remaining) else {}
  {
    UnsentWithout(senders + [other], |senders|);
    assert Without(senders + [other], |senders|) == senders;
  }

  /** Only beginning a SUBSCRIBE commits further streams: its own. */
  lemma StepCommits(l: Limits, s: System, step: Step)
    requires l.Valid() && PendingOwned(s.control)
    ensures Committed(Next(l, s, step)) <= Committed(s) + if step.Begin? && step.op.Subscribe? then StreamsOf(step.plan) else {}
    ensures step.Begin? && step.op.Subscribe? && Next(l, s, step) != s ==> |Projected(s.control, step.plan)| <= l.maxStreams
  {
    match step {
      case Begin(op, plan) => UnsentAppended(s.senders, Sender(op, plan));
      case SendBatch(k, granted, delivered) => if k < |s.senders| { SendCommits(l, s, k, granted, delivered); }
      case Reply(p) =>
        if Answered(s.control, p).Some? { SettledCommits(s.control, Answered(s.control, p).value, p); }
    }
    hide StreamsOf, AwaitedStreams, Unsent, Awaited, PendingOwned, Recorded, Settled;
  }

  lemma StepPending(l: Limits, s: System, step: Step)
    requires l.Valid() && PendingOwned(s.control)
    requires NoOverlap(s.control.requests) && s.control.pending.Keys == AwaitedStreams(s.control.requests)
    ensures Next(l, s, step).control.pending.Keys == AwaitedStreams(Next(l, s, step).control.requests)
  {
    match step {
      case Begin(_, _) =>
      case SendBatch(k, granted, _) =>
        if k < |s.senders| && granted {
          var Sender(op, remaining) := s.senders[k];
          RecordedOwned(s.control, Request(op, remaining[..BatchSize(l, remaining)]));
        }
      case Reply(p) =>
        if Answered(s.control, p).Some? { SettledPending(s.control, Answered(s.control, p).value, p); }
    }
    hide StreamsOf, AwaitedStreams, Unsent, Awaited, PendingOwned, Recorded, Settled, NoOverlap;
  }

  lemma SubsetSize<T>(s: set<T>, t: set<T>)
    requires s <= t
    ensures |s| <= |t|
  {
    assert t == s + (t - s);
  }

  /** In such runs the stream limit holds in every state, counting everything still to be sent or answered; a rate budget
      that stops a send part way, rejections, lost writes and stray replies change nothing about it. */
  lemma {:induction false} LimitKept(l: Limits, trace: seq<Step>)
    requires l.Valid() && NeverOverlapping(l, trace) && OneAtATime(l, trace)
    ensures Run(l, trace).control.pending.Keys == AwaitedStreams(Run(l, trace).control.requests)
    ensures |Committed(Run(l, trace))| <= l.maxStreams
    ensures |Run(l, trace).control.active.Keys + Run(l, trace).control.pending.Keys| <= l.maxStreams
  {
    if trace != [] {
      var init, step := trace[..|trace| - 1], trace[|trace| - 1];
      OrderlyBefore(l, trace);
      LimitKept(l, init);
      PendingIsOwned(l, init);
      RunStep(l, trace);
      var s, t := Run(l, init), Run(l, trace);
      hide Run, NeverOverlapping, OneAtATime, NoOverlap, StreamsOf, AwaitedStreams, Unsent, Awaited, PendingOwned, Recorded, Settled;
      StepPending(l, s, step);
      StepCommits(l, s, step);
      var bound := if t != s && step.Begin? && step.op.Subscribe? then Projected(s.control, step.plan) else Committed(s);
      assert Committed(t) <= bound;
      SubsetSize(Committed(t), bound);
      SubsetSize(t.control.active.Keys + t.control.pending.Keys, Committed(t));
    }
  }

  lemma OrderlyBefore(l: Limits, trace: seq<Step>)
    requires l.Valid() && NeverOverlapping(l, trace) && OneAtATime(l, trace) && trace != []
    ensures var s, step := Run(l, trace[..|trace| - 1]), trace[|trace| - 1];
            && NeverOverlapping(l, trace[..|trace| - 1]) && OneAtATime(l, trace[..|trace| - 1]) && NoOverlap(s.control.requests)
            && (step.Begin? && step.op.Subscribe? ==> Unsent(s.senders) == {})
  {
    hide Run, NoOverlap, Unsent;
    var init := trace[..|trace| - 1];
    assert forall n :: 0 <= n < |init| ==> init[..n] == trace[..n];
  }

  // ---------------------------------------------------------------- when the limit can break

  ghost predicate LimitHolds(l: Limits, c: Control) { |c.active.Keys + c.pending.Keys| <= l.maxStreams }

  predicate NoNewCalls(steps: seq<Step>) { forall i :: 0 <= i < |steps| ==> !steps[i].Begin? }

  function Backlog(senders: seq<Sender>): nat {
    if senders == [] then 0 else |senders[0].remaining| + 1 + Backlog(senders[1..])
  }

  function Positive(id: int): Payload { map["id" := Int(id), "result" := Null] }

  lemma BacklogShrinks(l: Limits, s: System)
    requires l.Valid() && s.senders != []
    ensures Backlog(Next(l, s, SendBatch(0, true, true)).senders) < Backlog(s.senders)
  {
    hide Recorded;
    var Sender(op, remaining) := s.senders[0];
    var n := BatchSize(l, remaining);
    assert Without(s.senders, 0) == s.senders[1..];
    assert s.senders[0 := Sender(op, remaining[n..])][1..] == s.senders[1..];
  }

  lemma RequestsShrink(c: Control, id: int)
    requires id in c.requests
    ensures Replied(c, Positive(id)) == Settled(c, id, Positive(id)) && !Rejects(Positive(id))
    ensures |Replied(c, Positive(id)).requests| < |c.requests|
  {
    SettledRequests(c, id, Positive(id));
    FewerRequests(c.requests, id);
    hide Settled;
  }

  lemma SettledRequests(c: Control, id: int, p: Payload)
    requires id in c.requests
    ensures Settled(c, id, p).requests == c.requests - {id}
  {
    hide Updated, StreamsOf;
  }

  lemma FewerRequests(requests: map<int, Request>, id: int)
    requires id in requests
    ensures |requests - {id}| < |requests|
  {
    assert requests.Keys == (requests - {id}).Keys + {id};
    assert |requests.Keys| == |(requests - {id}).Keys| + 1;
  }

  /** Sending the next batch, or acknowledging a SUBSCRIBE, keeps what is committed and leaves less to do. */
  lemma Advance(l: Limits, s: System) returns (step: Step)
    requires l.Valid() && PendingOwned(s.control)
    requires s.senders != [] || exists id :: id in s.control.requests && s.control.requests[id].op.Subscribe?
    ensures !step.Begin? && Committed(Next(l, s, step)) == Committed(s)
    ensures Backlog(Next(l, s, step).senders) < Backlog(s.senders)
         || (Next(l, s, step).senders == s.senders && |Next(l, s, step).control.requests| < |s.control.requests|)
  {
    if s.senders != [] {
      step := SendBatch(0, true, true);
      SendCommits(l, s, 0, true, true);
      BacklogShrinks(l, s);
    } else {
      var id :| id in s.control.requests && s.control.requests[id].op.Subscribe?;
      step := Reply(Positive(id));
      SettledCommits(s.control, id, Positive(id));
      RequestsShrink(s.control, id);
      hide Settled, Positive, Rejects, Answered, StreamsOf, AwaitedStreams, Unsent, PendingOwned;
    }
  }

  lemma NothingOpen(s: System)
    requires s.senders == [] && !exists id :: id in s.control.requests && s.control.requests[id].op.Subscribe?
    ensures Committed(s) == s.control.active.Keys
  {
    hide StreamsOf;
  }

  /** What is committed can all become active: send every batch, then acknowledge every SUBSCRIBE. */
  lemma {:induction false} CommittedCanActivate(l: Limits, trace: seq<Step>) returns (more: seq<Step>)
    requires l.Valid()
    ensures NoNewCalls(more) && Committed(Run(l, trace)) <= Run(l, trace + more).control.active.Keys
    decreases Backlog(Run(l, trace).senders), |Run(l, trace).control.requests|
  {
    hide Run, Committed, Next, PendingOwned, Backlog;
    var s := Run(l, trace);
    PendingIsOwned(l, trace);
    if s.senders == [] && !exists id :: id in s.control.requests && s.control.requests[id].op.Subscribe? {
      NothingOpen(s);
      assert trace + [] == trace;
      return [];
    }
    var step := Advance(l, s);
    RunAppended(l, trace, step);
    var rest := CommittedCanActivate(l, trace + [step]);
    assert trace + ([step] + rest) == (trace + [step]) + rest;
    more := [step] + rest;
  }

  lemma RunAppended(l: Limits, trace: seq<Step>, step: Step)
    requires l.Valid()
    ensures Run(l, trace + [step]) == Next(l, Run(l, trace), step)
  {
    assert (trace + [step])[..|trace|] == trace;
  }

  lemma {:induction false} CommittedShrinks(l: Limits, trace: seq<Step>, more: seq<Step>)
    requires l.Valid() && NoNewCalls(more)
    ensures Committed(Run(l, trace + more)) <= Committed(Run(l, trace))
  {
    hide Run, Committed, Next;
    if more == [] {
      assert trace + more == trace;
    } else {
      var init, step := more[..|more| - 1], more[|more| - 1];
      CommittedShrinks(l, trace, init);
      assert trace + more == (trace + init) + [step];
      RunAppended(l, trace + init, step);
      PendingIsOwned(l, trace + init);
      StepCommits(l, Run(l, trace + init), step);
    }
  }

  /** Exactly when the limit can still be exceeded without another call: when more streams are committed than it allows. */
  lemma LimitBreaksExactly(l: Limits, trace: seq<Step>)
    requires l.Valid()
    ensures (exists more :: NoNewCalls(more) && !LimitHolds(l, Run(l, trace + more).control)) <==> |Committed(Run(l, trace))| > l.maxStreams
  {
    hide Run, NoNewCalls;
    forall more | NoNewCalls(more)
      ensures |Run(l, trace + more).control.active.Keys + Run(l, trace + more).control.pending.Keys| <= |Committed(Run(l, trace))|
    {
      CommittedShrinks(l, trace, more);
      PendingIsOwned(l, trace + more);
      var c := Run(l, trace + more).control;
      SubsetSize(c.active.Keys + c.pending.Keys, Committed(Run(l, trace)));
    }
    if |Committed(Run(l, trace))| > l.maxStreams {
      var more := CommittedCanActivate(l, trace);
      var c := Run(l, trace + more).control;
      SubsetSize(Committed(Run(l, trace)), c.active.Keys + c.pending.Keys);
      assert !LimitHolds(l, c);
    }
  }

  /** The exact guard of a call: a SUBSCRIBE that is admitted keeps the limit, whatever follows without another call, exactly
      when everything committed before and its own streams fit. The code counts what is active and pending instead. */
  lemma CallKeepsLimitExactly(l: Limits, trace: seq<Step>, plan: seq<Named>)
    requires l.Valid() && Admitted(Run(l, trace).control, Subscribe, plan, l)
    ensures (forall more :: NoNewCalls(more) ==> LimitHolds(l, Run(l, trace + [Begin(Subscribe, plan)] + more).control))
       <==> |Committed(Run(l, trace)) + StreamsOf(plan)| <= l.maxStreams
  {
    var s := Run(l, trace);
    RunAppended(l, trace, Begin(Subscribe, plan));
    UnsentAppended(s.senders, Sender(Subscribe, plan));
    hide Run, NoNewCalls, LimitHolds, StreamsOf, AwaitedStreams, Unsent;
    assert Committed(Run(l, trace + [Begin(Subscribe, plan)])) == Committed(s) + StreamsOf(plan);
    LimitBreaksExactly(l, trace + [Begin(Subscribe, plan)]);
  }

  function Example(kind: Kind): Named
    requires kind != Kline("")
  {
    var sub := Subscription(MarketSymbol("BTC", "USDT"), kind);
    Named(StreamName(sub), sub)
  }

  lemma ExamplesDiffer()
    ensures Example(Trade).stream != Example(Ticker).stream && Example(Trade).stream != Example(Kline("1m")).stream
         && Example(Ticker).stream != Example(Kline("1m")).stream
  {
    var symbol := MarketSymbol("BTC", "USDT");
    NameCollision(Subscription(symbol, Trade), Subscription(symbol, Ticker));
    NameCollision(Subscription(symbol, Trade), Subscription(symbol, Kline("1m")));
    NameCollision(Subscription(symbol, Ticker), Subscription(symbol, Kline("1m")));
  }

  lemma StepKeepsOneAtATime(l: Limits, trace: seq<Step>, step: Step)
    requires l.Valid() && OneAtATime(l, trace)
    requires step.Begin? && step.op.Subscribe? ==> Unsent(Run(l, trace).senders) == {}
    ensures OneAtATime(l, trace + [step])
  {
    hide Run, Unsent;
    var all := trace + [step];
    assert all[..|trace|] == trace;
    assert forall n :: 0 <= n < |trace| ==> all[n] == trace[n] && all[..n] == trace[..n];
  }

  lemma StepKeepsDistinct(l: Limits, trace: seq<Step>, step: Step)
    requires l.Valid() && NeverOverlapping(l, trace) && NoOverlap(Run(l, trace).control.requests)
    ensures NeverOverlapping(l, trace + [step])
  {
    hide Run, NoOverlap;
    var all := trace + [step];
    assert all[..|trace|] == trace;
    assert forall n :: 0 <= n < |trace| ==> all[..n] == trace[..n];
  }

  function One(n: Named): Request { Request(Subscribe, [n]) }

  lemma OneStream(n: Named, m: map<string, Subscription>)
    ensures StreamsOf([n]) == {n.stream} && Updated(m, [n]) == m[n.stream := n.sub]
  {
    assert [n][..0] == [];
  }

  lemma RecordedOne(c: Control, n: Named)
    ensures Recorded(c, One(n)) ==
              Control(c.active, c.pending[n.stream := n.sub], c.pendingUnsub, c.requests[c.nextId := One(n)], c.errors, c.nextId + 1)
  {
    OneStream(n, c.pending);
  }

  lemma RepliedOne(c: Control, id: int, n: Named)
    requires id in c.requests && c.requests[id] == One(n)
    ensures Replied(c, Positive(id)) ==
              Control(c.active[n.stream := n.sub], c.pending - {n.stream}, c.pendingUnsub, c.requests - {id}, c.errors, c.nextId)
    ensures Replied(c, Negative(id)) ==
              Control(c.active, c.pending - {n.stream}, c.pendingUnsub, c.requests - {id}, c.errors[id := NO_DETAIL], c.nextId)
  {
    OneStream(n, c.active);
    hide StreamsOf, Updated;
  }

  function Negative(id: int): Payload { map["id" := Int(id), "code" := Int(2)] }

  /** One stream is requested by a send of its own. */
  lemma SendOne(l: Limits, trace: seq<Step>, n: Named) returns (next: seq<Step>)
    requires l.Valid() && OneAtATime(l, trace) && Run(l, trace).senders == []
    requires |Projected(Run(l, trace).control, [n])| <= l.maxStreams
    ensures OneAtATime(l, next) && Run(l, next) == System(Recorded(Run(l, trace).control, One(n)), [])
  {
    hide Run, Next, Recorded, Projected, OneAtATime, One;
    var begin, send, c := Begin(Subscribe, [n]), SendBatch(0, true, true), Run(l, trace).control;
    RunAppended(l, trace, begin);
    StepKeepsOneAtATime(l, trace, begin);
    NextBegin(l, c, [], [n]);
    assert [] + [Sender(Subscribe, [n])] == [Sender(Subscribe, [n])] + [];
    RunAppended(l, trace + [begin], send);
    StepKeepsOneAtATime(l, trace + [begin], send);
    NextLast(l, c, n, []);
    next := trace + [begin] + [send];
  }

  lemma OverlapControls(x: Named, y: Named)
    requires x.stream != y.stream
    ensures var c1 := Recorded(INITIAL, One(x));
            var c2 := Recorded(c1, One(x));
            var c3 := Replied(c2, Negative(1));
            var c4 := Recorded(c3, One(y));
            var c5 := Replied(c4, Positive(2));
            && |Projected(INITIAL, [x])| <= 1 && |Projected(c1, [x])| <= 1 && |Projected(c3, [y])| <= 1
            && !LimitHolds(Limits(1, 1), c5)
  {
    hide Recorded, Replied, Updated, StreamsOf, Projected, Positive, Negative, One;
    RejectedOverlap(x);
    var c1 := Recorded(INITIAL, One(x));
    var c3 := Replied(Recorded(c1, One(x)), Negative(1));
    Projection(INITIAL, x);
    Projection(c1, x);
    Projection(c3, y);
    RecordedOne(c3, y);
    var c4 := Recorded(c3, One(y));
    assert 2 in c4.requests && c4.requests[2] == One(x);
    RepliedOne(c4, 2, x);
    TwoNames(Projected(INITIAL, [x]), x.stream, x.stream);
    TwoNames(Projected(c1, [x]), x.stream, x.stream);
    TwoNames(Projected(c3, [y]), y.stream, y.stream);
    hide LimitHolds;
    TooMany(Limits(1, 1), Replied(c4, Positive(2)), [x.stream, y.stream]);
  }

  lemma Projection(c: Control, n: Named)
    ensures Projected(c, [n]) == c.active.Keys + c.pending.Keys + {n.stream}
  {
    OneStream(n, map[]);
  }

  lemma RejectedOverlap(x: Named)
    ensures var c1 := Recorded(INITIAL, One(x));
            var c3 := Replied(Recorded(c1, One(x)), Negative(1));
            && c1.active.Keys == {} && c1.pending.Keys == {x.stream}
            && c3.active.Keys == {} && c3.pending.Keys == {} && c3.nextId == 3 && 2 in c3.requests && c3.requests[2] == One(x)
  {
    hide Recorded, Replied, Updated, StreamsOf, Projected, Positive, Negative, One;
    RecordedOne(INITIAL, x);
    var c1 := Recorded(INITIAL, One(x));
    RecordedOne(c1, x);
    var c2 := Recorded(c1, One(x));
    assert 1 in c2.requests && c2.requests[1] == One(x);
    RepliedOne(c2, 1, x);
  }

  /** Two overlapping SUBSCRIBEs and one rejection exceed the limit: a rejection un-pends what the other one still awaits. */
  lemma OverlapBreaksLimit() returns (l: Limits, trace: seq<Step>)
    ensures l.Valid() && OneAtATime(l, trace) && !LimitHolds(l, Run(l, trace).control)
  {
    hide Example, Run, OneAtATime, LimitHolds;
    ExamplesDiffer();
    l := Limits(1, 1);
    trace := Overlapped(l, Example(Trade), Example(Ticker));
  }

  lemma Overlapped(l: Limits, x: Named, y: Named) returns (trace: seq<Step>)
    requires l == Limits(1, 1) && x.stream != y.stream
    ensures OneAtATime(l, trace) && !LimitHolds(l, Run(l, trace).control)
  {
    assert Run(l, []) == System(INITIAL, []) && OneAtATime(l, []);
    OverlapControls(x, y);
    hide Run, Next, OneAtATime, Recorded, Replied, Positive, Negative, Projected, One, INITIAL, LimitHolds;
    trace := SendOne(l, [], x);
    trace := SendOne(l, trace, x);
    trace := Answer(l, trace, Negative(1));
    trace := SendOne(l, trace, y);
    trace := Answer(l, trace, Positive(2));
  }

  lemma Answer(l: Limits, trace: seq<Step>, p: Payload) returns (next: seq<Step>)
    requires l.Valid() && OneAtATime(l, trace)
    ensures OneAtATime(l, next) && Run(l, next) == System(Replied(Run(l, trace).control, p), Run(l, trace).senders)
  {
    hide Run, OneAtATime, Replied;
    next := trace + [Reply(p)];
    RunAppended(l, trace, Reply(p));
    StepKeepsOneAtATime(l, trace, Reply(p));
  }

  lemma NoOverlapAdded(c: Control, n: Named)
    requires NoOverlap(c.requests) && c.nextId !in c.requests && !Awaited(c.requests, Subscribe, n.stream)
    ensures NoOverlap(Recorded(c, One(n)).requests)
    ensures forall stream :: Awaited(Recorded(c, One(n)).requests, Subscribe, stream) ==> Awaited(c.requests, Subscribe, stream) || stream == n.stream
  {
    OneStream(n, c.pending);
    RecordedAwaits(c, One(n));
    hide StreamsOf, Updated;
  }

  lemma NothingAwaited()
    ensures NoOverlap(INITIAL.requests) && forall stream :: !Awaited(INITIAL.requests, Subscribe, stream)
  {
  }

  lemma InterleavedAwaits(x: Named, y: Named)
    requires x.stream != y.stream
    ensures var c1 := Recorded(INITIAL, One(x));
            NoOverlap(INITIAL.requests) && NoOverlap(c1.requests) && NoOverlap(Recorded(c1, One(y)).requests)
  {
    hide Recorded, One, Awaited, NoOverlap;
    NothingAwaited();
    RecordedOne(INITIAL, x);
    NoOverlapAdded(INITIAL, x);
    NoOverlapAdded(Recorded(INITIAL, One(x)), y);
  }

  lemma TwoNames(names: set<string>, a: string, b: string)
    requires forall name :: name in names ==> name == a || name == b
    ensures |names| <= if a == b then 1 else 2
  {
    SubsetSize(names, {a, b});
  }

  lemma NothingProjected(x: Named, y: Named)
    ensures |Projected(INITIAL, [x] + [y])| <= 2
  {
    TwoNames(Projected(INITIAL, [x] + [y]), x.stream, y.stream);
  }

  lemma InterleavedAdmitted(x: Named, y: Named, z: Named)
    ensures |Projected(INITIAL, [x] + [y])| <= 2 && |Projected(Recorded(INITIAL, One(x)), [z])| <= 2
  {
    hide Recorded, Updated, StreamsOf, Projected;
    NothingProjected(x, y);
    RecordedOne(INITIAL, x);
    var c1 := Recorded(INITIAL, One(x));
    Projection(c1, z);
    TwoNames(Projected(c1, [z]), x.stream, z.stream);
  }

  lemma InterleavedControls(x: Named, y: Named, z: Named)
    requires x.stream != y.stream && x.stream != z.stream && y.stream != z.stream
    ensures var c1 := Recorded(INITIAL, One(x));
            !LimitHolds(Limits(2, 1), Recorded(Recorded(c1, One(y)), One(z)))
  {
    hide Recorded, Updated, LimitHolds, StreamsOf;
    RecordedOne(INITIAL, x);
    var c1 := Recorded(INITIAL, One(x));
    RecordedOne(c1, y);
    RecordedOne(Recorded(c1, One(y)), z);
    TooMany(Limits(2, 1), Recorded(Recorded(c1, One(y)), One(z)), [x.stream, y.stream, z.stream]);
  }

  /** Two sends whose batches interleave exceed the limit although no stream is named twice: each one checks the limit before
      the other has recorded its later batches. */
  lemma InterleavingBreaksLimit() returns (l: Limits, trace: seq<Step>)
    ensures l.Valid() && NeverOverlapping(l, trace) && !LimitHolds(l, Run(l, trace).control)
  {
    hide Example, Run, NeverOverlapping, LimitHolds;
    ExamplesDiffer();
    l := Limits(2, 1);
    trace := Interleaved(l, Example(Trade), Example(Ticker), Example(Kline("1m")));
  }

  lemma Interleaved(l: Limits, x: Named, y: Named, z: Named) returns (trace: seq<Step>)
    requires l == Limits(2, 1) && x.stream != y.stream && x.stream != z.stream && y.stream != z.stream
    ensures NeverOverlapping(l, trace) && !LimitHolds(l, Run(l, trace).control)
  {
    hide Run, Next, NeverOverlapping, NoOverlap, Recorded, Projected, One, LimitHolds, INITIAL;
    InterleavedAdmitted(x, y, z);
    InterleavedControls(x, y, z);
    InterleavedAwaits(x, y);
    var c1 := Recorded(INITIAL, One(x));
    trace := Start(l);
    NextBegin(l, INITIAL, [], [x] + [y]);
    trace := Append(l, trace, Begin(Subscribe, [x] + [y]), System(INITIAL, [] + [Sender(Subscribe, [x] + [y])]));
    assert [] + [Sender(Subscribe, [x] + [y])] == [Sender(Subscribe, [x] + [y])] + [];
    NextSend(l, INITIAL, x, [y], []);
    trace := Append(l, trace, SendBatch(0, true, true), System(c1, [Sender(Subscribe, [y])] + []));
    trace := InterleavedRest(l, trace, c1, y, z);
  }

  lemma InterleavedRest(l: Limits, before: seq<Step>, c1: Control, y: Named, z: Named) returns (trace: seq<Step>)
    requires l == Limits(2, 1) && NeverOverlapping(l, before) && |Projected(c1, [z])| <= 2
    requires Run(l, before) == System(c1, [Sender(Subscribe, [y])])
    requires NoOverlap(c1.requests) && NoOverlap(Recorded(c1, One(y)).requests)
    ensures NeverOverlapping(l, trace) && Run(l, trace) == System(Recorded(Recorded(c1, One(y)), One(z)), [])
  {
    hide Run, Next, NeverOverlapping, NoOverlap, Recorded, Projected, One;
    var onlyY, onlyZ, c2 := Sender(Subscribe, [y]), Sender(Subscribe, [z]), Recorded(c1, One(y));
    NextBegin(l, c1, [onlyY], [z]);
    trace := Append(l, before, Begin(Subscribe, [z]), System(c1, [onlyY] + [onlyZ]));
    NextLast(l, c1, y, [onlyZ]);
    trace := Append(l, trace, SendBatch(0, true, true), System(c2, [onlyZ]));
    NextLast(l, c2, z, []);
    assert [onlyZ] + [] == [onlyZ];
    trace := Append(l, trace, SendBatch(0, true, true), System(Recorded(c2, One(z)), []));
  }

  lemma {:induction false} DistinctSize(names: seq<string>)
    requires forall i, j :: 0 <= i < j < |names| ==> names[i] != names[j]
    ensures |(set name | name in names)| == |names|
  {
    if names != [] {
      var init, last := names[..|names| - 1], names[|names| - 1];
      DistinctSize(init);
      assert (set name | name in names) == (set name | name in init) + {last};
    }
  }

  lemma TooMany(l: Limits, c: Control, names: seq<string>)
    requires forall i, j :: 0 <= i < j < |names| ==> names[i] != names[j]
    requires |names| > l.maxStreams && forall name :: name in names ==> name in c.active.Keys + c.pending.Keys
    ensures !LimitHolds(l, c)
  {
    DistinctSize(names);
    SubsetSize((set name | name in names), c.active.Keys + c.pending.Keys);
  }

  lemma NextBegin(l: Limits, c: Control, senders: seq<Sender>, plan: seq<Named>)
    requires l.Valid() && plan != [] && |Projected(c, plan)| <= l.maxStreams
    ensures Next(l, System(c, senders), Begin(Subscribe, plan)) == System(c, senders + [Sender(Subscribe, plan)])
  {
  }

  /** Batches of one stream. */
  lemma NextSend(l: Limits, c: Control, n: Named, rest: seq<Named>, others: seq<Sender>)
    requires l.Valid() && l.maxParams == 1 && rest != []
    ensures Next(l, System(c, [Sender(Subscribe, [n] + rest)] + others), SendBatch(0, true, true)) ==
              System(Recorded(c, One(n)), [Sender(Subscribe, rest)] + others)
  {
    hide Recorded;
    var remaining := [n] + rest;
    assert remaining[..1] == [n] && remaining[1..] == rest;
    assert ([Sender(Subscribe, remaining)] + others)[0 := Sender(Subscribe, rest)] == [Sender(Subscribe, rest)] + others;
  }

  lemma NextLast(l: Limits, c: Control, n: Named, others: seq<Sender>)
    requires l.Valid()
    ensures Next(l, System(c, [Sender(Subscribe, [n])] + others), SendBatch(0, true, true)) == System(Recorded(c, One(n)), others)
  {
    hide Recorded;
    assert [n][..1] == [n];
    assert Without([Sender(Subscribe, [n])] + others, 0) == others;
  }

  lemma Start(l: Limits) returns (trace: seq<Step>)
    requires l.Valid()
    ensures NeverOverlapping(l, trace) && Run(l, trace) == System(INITIAL, [])
  {
    trace := [];
  }

  lemma Append(l: Limits, trace: seq<Step>, step: Step, next: System) returns (more: seq<Step>)
    requires l.Valid() && NeverOverlapping(l, trace) && NoOverlap(Run(l, trace).control.requests)
    requires next == Next(l, Run(l, trace), step)
    ensures NeverOverlapping(l, more) && Run(l, more) == next
  {
    more := trace + [step];
    RunAppended(l, trace, step);
    StepKeepsDistinct(l, trace, step);
  }
}
