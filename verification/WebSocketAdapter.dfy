/** `BinanceWebSocketAdapter` of packages/market_data/adapters/binance_ws.py: the dictionaries behind the control protocol. */
module WebSocketAdapter {
  import opened Wrappers
  import opened Json
  import opened TextOrder
  import opened WebSocketControl
  import opened RateLimit

  // ---------------------------------------------------------------- plans and batches

  function PlanOf(list: seq<Subscription>): (plan: seq<Named>)
    ensures |plan| == |list| && forall i :: 0 <= i < |list| ==> plan[i] == Named(StreamName(list[i]), list[i])
  {
    seq(|list|, i requires 0 <= i < |list| => Named(StreamName(list[i]), list[i]))
  }

  /** Slices of at most `size`, in order. */
  function Batches(plan: seq<Named>, size: int): seq<seq<Named>>
    requires size >= 1
  {
    if plan == [] then []
    else if |plan| <= size then [plan]
    else [plan[..size]] + Batches(plan[size..], size)
  }

  function RecordedAll(c: Control, op: Operation, batches: seq<seq<Named>>): Control {
    if batches == [] then c
    else Recorded(RecordedAll(c, op, batches[..|batches| - 1]), Request(op, batches[|batches| - 1]))
  }

  function Flat(batches: seq<seq<Named>>): seq<Named> {
    if batches == [] then [] else batches[0] + Flat(batches[1..])
  }

  /** The batches of a plan are the plan, cut into full batches and one remainder. */
  lemma {:induction false} BatchesPartition(plan: seq<Named>, size: int)
    requires size >= 1
    ensures Flat(Batches(plan, size)) == plan
    ensures forall i :: 0 <= i < |Batches(plan, size)| - 1 ==> |Batches(plan, size)[i]| == size
    ensures plan != [] ==> Batches(plan, size) != [] && 1 <= |Batches(plan, size)[|Batches(plan, size)| - 1]| <= size
  {
    if |plan| > size {
      BatchesPartition(plan[size..], size);
      var rest := Batches(plan[size..], size);
      assert ([plan[..size]] + rest)[1..] == rest;
      assert plan == plan[..size] + plan[size..];
    } else if plan != [] {
      assert [plan][1..] == [] && plan + [] == plan;
    }
  }

  lemma RecordedNone(c: Control, op: Operation)
    ensures RecordedAll(c, op, []) == c
  {
  }

  lemma RecordedOneMore(c: Control, op: Operation, batches: seq<seq<Named>>, batch: seq<Named>)
    ensures RecordedAll(c, op, batches + [batch]) == Recorded(RecordedAll(c, op, batches), Request(op, batch))
  {
    hide Recorded;
    assert (batches + [batch])[..|batches|] == batches;
  }

  lemma SliceAt(plan: seq<Named>, start: nat, l: Limits)
    requires l.Valid() && start < |plan|
    ensures var end := if start + l.maxParams < |plan| then start + l.maxParams else |plan|;
            var n := BatchSize(l, plan[start..]);
            && plan[start..end] == plan[start..][..n] && plan[end..] == plan[start..][n..] && n <= |plan[start..]| && (n == |plan[start..]| <==> end == |plan|)
  {
  }

  lemma BatchesNone(size: int)
    requires size >= 1
    ensures Batches([], size) == []
  {
  }

  lemma BatchesStep(plan: seq<Named>, l: Limits)
    requires l.Valid() && plan != []
    ensures Batches(plan, l.maxParams) == [plan[..BatchSize(l, plan)]] + Batches(plan[BatchSize(l, plan)..], l.maxParams)
  {
    assert plan[..|plan|] == plan && plan[|plan|..] == [];
  }

  lemma NextOfOne(l: Limits, c: Control, op: Operation, remaining: seq<Named>, granted: bool, delivered: bool)
    requires l.Valid()
    ensures var n := BatchSize(l, remaining);
            Next(l, System(c, [Sender(op, remaining)]), SendBatch(0, granted, delivered)) ==
              System(if granted then Recorded(c, Request(op, remaining[..n])) else c,
                     if granted && delivered && n < |remaining| then [Sender(op, remaining[n..])] else [])
  {
    hide Recorded;
  }

  lemma NextBegins(l: Limits, c: Control, op: Operation, plan: seq<Named>)
    requires l.Valid() && Admitted(c, op, plan, l)
    ensures Next(l, System(c, []), Begin(op, plan)) == System(c, [Sender(op, plan)])
  {
  }

  lemma RunOfOne(l: Limits, trace: seq<Step>, c: Control, op: Operation, remaining: seq<Named>, granted: bool, delivered: bool)
    requires l.Valid() && Run(l, trace) == System(c, [Sender(op, remaining)])
    ensures var n := BatchSize(l, remaining);
            Run(l, trace + [Step.SendBatch(0, granted, delivered)]) ==
              System(if granted then Recorded(c, Request(op, remaining[..n])) else c,
                     if granted && delivered && n < |remaining| then [Sender(op, remaining[n..])] else [])
  {
    hide Run, Next, Recorded;
    NextOfOne(l, c, op, remaining, granted, delivered);
    RunAppended(l, trace, Step.SendBatch(0, granted, delivered));
  }

  // ---------------------------------------------------------------- the adapter

  datatype SendOutcome = Submitted | NotConnected | OverLimit | NoBudget | SendFailed

  /** A control message on the wire. */
  datatype Frame = Frame(id: int, op: Operation, streams: seq<string>)

  /** Monotonic clock readings of a call, and the writes of the socket that fail. */
  datatype Wire = Wire(clock: nat -> real, lost: nat -> bool) {
    /** The same wire, `n` batches later. */
    function From(n: nat): Wire { Wire((i: nat) => clock(i + n), (i: nat) => lost(i + n)) }

    ghost predicate Monotonic(from: real) { from <= clock(0) && forall i: nat, j: nat :: i <= j ==> clock(i) <= clock(j) }
  }

  function Streams(batch: seq<Named>): (streams: seq<string>)
    ensures |streams| == |batch| && forall i :: 0 <= i < |batch| ==> streams[i] == batch[i].stream
  {
    seq(|batch|, i requires 0 <= i < |batch| => batch[i].stream)
  }

  /** The first `n` clock readings of a call. */
  ghost function ReadingsOf(wire: Wire, n: nat): (readings: seq<real>)
    ensures |readings| == n && forall i :: 0 <= i < n ==> readings[i] == wire.clock(i)
  {
    seq(n, i requires 0 <= i < n => wire.clock(i))
  }

  /** What a budget has seen and what it allows. */
  datatype Allowance = Allowance(readings: seq<real>, maximum: int, window: real) {
    ghost function After(wire: Wire, n: nat): Allowance { this.(readings := readings + ReadingsOf(wire, n)) }

    /** The budget grants the reservation for batch `i` of a call. */
    ghost predicate Grants(wire: Wire, i: nat) {
      RecentCount(RateLimit.Grants(After(wire, i).readings, maximum, window), wire.clock(i), window) < maximum
    }

    /** Batch `i` is granted and written. */
    ghost predicate Passes(wire: Wire, i: nat) { Grants(wire, i) && !wire.lost(i) }
  }

  /** How a call over `count` batches ends: with the first batch that is not granted, or granted but lost, or after all. */
  ghost predicate Stopped(o: SendOutcome, sent: nat, count: nat, a: Allowance, wire: Wire) {
    match o
    case Submitted => sent == count && forall i :: 0 <= i < count ==> a.Passes(wire, i)
    case NoBudget => sent < count && (forall i :: 0 <= i < sent ==> a.Passes(wire, i)) && !a.Grants(wire, sent)
    case SendFailed =>
      0 < sent <= count && (forall i :: 0 <= i < sent - 1 ==> a.Passes(wire, i)) && a.Grants(wire, sent - 1) && wire.lost(sent - 1)
    case _ => false
  }

  /** The frames of batches that were recorded from id `first` on: one for each that was not lost. */
  function FramesOf(op: Operation, batches: seq<seq<Named>>, wire: Wire, first: int): seq<Frame> {
    if batches == [] then []
    else
      var last := |batches| - 1;
      FramesOf(op, batches[..last], wire, first) + if wire.lost(last) then [] else [Frame(first + last, op, Streams(batches[last]))]
  }

  lemma FramesOneMore(op: Operation, batches: seq<seq<Named>>, batch: seq<Named>, wire: Wire, first: int)
    ensures FramesOf(op, batches + [batch], wire, first) ==
              FramesOf(op, batches, wire, first) + if wire.lost(|batches|) then [] else [Frame(first + |batches|, op, Streams(batch))]
  {
    assert (batches + [batch])[..|batches|] == batches;
  }

  lemma ReadingsOneMore(wire: Wire, n: nat)
    ensures ReadingsOf(wire, n + 1) == ReadingsOf(wire, n) + [wire.clock(n)] && ReadingsOf(wire, 0) == []
  {
  }

  class BinanceWebSocketAdapter {
    const limits: Limits
    const budget: WebSocketRateBudget
    var connected: bool
    var active: map<string, Subscription>
    var pending: map<string, Subscription>
    var pendingUnsubscribes: set<string>
    var controlRequests: map<int, Request>
    var controlErrors: map<int, Json>
    var nextRequestId: int
    /** What was written to the current connection. */
    var frames: seq<Frame>
    ghost var trace: seq<Step>

    function State(): Control
      reads `active, `pending, `pendingUnsubscribes, `controlRequests, `controlErrors, `nextRequestId
    {
      Control(active, pending, pendingUnsubscribes, controlRequests, controlErrors, nextRequestId)
    }

    /** What the control budget has seen and allows. */
    ghost function Allowed(): Allowance
      reads budget.control
    {
      Allowance(budget.control.readings, budget.maxControl, budget.controlWindow)
    }

    /** The dictionaries are those of the calls and replies so far; every send has finished. */
    ghost predicate Valid()
      reads this, budget, budget.control, budget.connections
    {
      && limits.Valid() && budget.Valid()
      && Run(limits, trace) == System(State(), [])
    }

    constructor (limits: Limits, budget: WebSocketRateBudget)
      requires limits.Valid() && budget.Valid()
      ensures Valid() && this.limits == limits && this.budget == budget
      ensures State() == INITIAL && !connected && frames == [] && trace == []
    {
      this.limits, this.budget, connected, frames, trace := limits, budget, false, [], [];
      active, pending, pendingUnsubscribes, controlRequests, controlErrors, nextRequestId := map[], map[], {}, map[], map[], 1;
    }

    /** The connection budget allows an attempt. */
    ghost predicate CanConnect(now: real)
      reads budget.connections
    {
      RecentCount(Grants(budget.connections.readings, budget.maxConnections, budget.connectionWindow), now, budget.connectionWindow)
        < budget.maxConnections
    }

    /** A new socket, if the connection budget allows an attempt and it opens. Subscriptions, pending or active, stay as they
        were on the previous connection, and nothing is sent for them. */
    method Connect(now: real, opens: bool) returns (ok: bool)
      requires Valid() && budget.latest <= now
      modifies `connected, `frames, budget`latest, budget.connections
      ensures Valid() && budget.latest == now
      ensures budget.connections.readings == old(budget.connections.readings) + [now] && Allowed() == old(Allowed())
      ensures ok ==> connected && frames == []
      ensures !ok ==> connected == old(connected) && frames == old(frames)
      ensures ok <==> opens && old(CanConnect(now))
    {
      hide Run;
      ok := budget.ReserveConnectionAttempt(now);
      if ok && opens {
        connected, frames := true, [];
      }
      ok := ok && opens;
    }

    method Close()
      requires Valid()
      modifies `connected
      ensures Valid() && !connected
    {
      connected := false;
    }

    method MarkPending(batch: seq<Named>)
      modifies `pending
      ensures pending == Updated(old(pending), batch)
    {
      for i := 0 to |batch|
        invariant pending == Updated(old(pending), batch[..i])
      {
        assert batch[..i + 1][..i] == batch[..i];
        pending := pending[batch[i].stream := batch[i].sub];
      }
      assert batch[..|batch|] == batch;
    }

    /** One batch: reserve budget, record the request under the next id, mark its streams, write it. */
    method SendBatch(op: Operation, batch: seq<Named>, now: real, lost: bool) returns (granted: bool)
      requires budget.Valid() && budget.latest <= now
      modifies `pending, `pendingUnsubscribes, `controlRequests, `nextRequestId, `frames, budget`latest, budget.control
      ensures budget.Valid() && budget.latest == now
      ensures budget.control.readings == old(budget.control.readings) + [now]
      ensures granted <==> RecentCount(Grants(old(budget.control.readings), budget.maxControl, budget.controlWindow), now, budget.controlWindow)
                           < budget.maxControl
      ensures !granted ==> State() == old(State()) && frames == old(frames)
      ensures granted ==> State() == Recorded(old(State()), Request(op, batch)) && nextRequestId == old(nextRequestId) + 1
      ensures granted ==> frames == old(frames) + if lost then [] else [Frame(old(nextRequestId), op, Streams(batch))]
    {
      hide Recorded, Grants, RecentCount;
      granted := budget.ReserveControlMessage(now);
      if !granted {
        return;
      }
      var id := Record(op, batch);
      if !lost {
        frames := frames + [Frame(id, op, Streams(batch))];
      }
    }

    method Record(op: Operation, batch: seq<Named>) returns (id: int)
      modifies `pending, `pendingUnsubscribes, `controlRequests, `nextRequestId
      ensures id == old(nextRequestId) && nextRequestId == id + 1 && State() == Recorded(old(State()), Request(op, batch))
    {
      hide Updated, StreamsOf;
      id := nextRequestId;
      nextRequestId := nextRequestId + 1;
      controlRequests := controlRequests[id := Request(op, batch)];
      if op.Subscribe? {
        MarkPending(batch);
      } else {
        pendingUnsubscribes := pendingUnsubscribes + StreamsOf(batch);
      }
    }

    /** These batches have been granted and recorded since the state was `c`, the frames `earlier` and the budget `a`. */
    ghost predicate Sent(c: Control, earlier: seq<Frame>, a: Allowance, op: Operation, batches: seq<seq<Named>>, wire: Wire)
      reads this, budget.control
    {
      && State() == RecordedAll(c, op, batches) && nextRequestId == c.nextId + |batches|
      && frames == earlier + FramesOf(op, batches, wire, c.nextId)
      && Allowed() == a.After(wire, |batches|) && forall i :: 0 <= i < |batches| ==> a.Grants(wire, i)
    }

    /** The next batch of what remains, and its step in the trace. */
    method SendSlice(op: Operation, batch: seq<Named>, ghost remaining: seq<Named>, wire: Wire, n: nat,
                     ghost c: Control, ghost earlier: seq<Frame>, ghost a: Allowance, ghost done: seq<seq<Named>>) returns (granted: bool)
      requires limits.Valid() && budget.Valid() && budget.latest <= wire.clock(n) && n == |done| && Sent(c, earlier, a, op, done, wire)
      requires Run(limits, trace) == System(State(), [Sender(op, remaining)]) && batch == remaining[..BatchSize(limits, remaining)]
      modifies `pending, `pendingUnsubscribes, `controlRequests, `nextRequestId, `frames, `trace, budget`latest, budget.control
      ensures budget.Valid() && budget.latest == wire.clock(n) && old(trace) <= trace
      ensures granted <==> a.Grants(wire, n)
      ensures granted ==> Sent(c, earlier, a, op, done + [batch], wire)
      ensures !granted ==> State() == old(State()) && frames == old(frames) && Allowed() == a.After(wire, n + 1)
      ensures var size := BatchSize(limits, remaining);
              Run(limits, trace) == System(State(), if granted && !wire.lost(n) && size < |remaining| then [Sender(op, remaining[size..])] else [])
    {
      hide Run, Recorded, Next, Grants, RecentCount, BatchSize, RecordedAll, FramesOf, ReadingsOf, Streams;
      ghost var before := State();
      granted := SendBatch(op, batch, wire.clock(n), wire.lost(n));
      RunOfOne(limits, trace, before, op, remaining, granted, !wire.lost(n));
      trace := trace + [Step.SendBatch(0, granted, !wire.lost(n))];
      ReadingsOneMore(wire, n);
      RecordedOneMore(c, op, done, batch);
      FramesOneMore(op, done, batch, wire, c.nextId);
    }

    /** A call over these batches has ended: how, what it recorded and wrote, and what it took from the budget. */
    ghost predicate Ended(o: SendOutcome, sent: nat, c: Control, earlier: seq<Frame>, a: Allowance, op: Operation, batches: seq<seq<Named>>, wire: Wire)
      reads this, budget.control
    {
      && Stopped(o, sent, |batches|, a, wire) && sent <= |batches|
      && State() == RecordedAll(c, op, batches[..sent]) && frames == earlier + FramesOf(op, batches[..sent], wire, c.nextId)
      && Allowed() == a.After(wire, sent + if o == NoBudget then 1 else 0)
    }

    /** The batches of a plan, in order, until one is refused or lost. */
    method SendBatches(op: Operation, plan: seq<Named>, wire: Wire) returns (o: SendOutcome, sent: nat)
      requires limits.Valid() && budget.Valid() && wire.Monotonic(budget.latest) && plan != []
      requires Run(limits, trace) == System(State(), [Sender(op, plan)])
      modifies `pending, `pendingUnsubscribes, `controlRequests, `nextRequestId, `frames, `trace, budget`latest, budget.control
      ensures Valid() && old(trace) <= trace && budget.latest <= wire.clock(sent)
      ensures Ended(o, sent, old(State()), old(frames), old(Allowed()), op, Batches(plan, limits.maxParams), wire)
      ensures o !in {NotConnected, OverLimit}
    {
      hide Run, Recorded, RecordedAll, FramesOf, Allowance.After, Allowance.Grants, Batches, Next, Grants, RecentCount, BatchSize, Sent, Ended;
      ghost var batches := Batches(plan, limits.maxParams);
      ghost var initial, earlier, allowed := State(), frames, Allowed();
      var start := 0;
      sent := 0;
      NothingSent(wire, op);
      assert batches[..0] == [];
      while start < |plan|
        invariant 0 <= start <= |plan| && sent <= |batches| && batches[sent..] == Batches(plan[start..], limits.maxParams)
        invariant budget.Valid() && budget.latest <= wire.clock(sent) && old(trace) <= trace
        invariant Run(limits, trace) == System(State(), if start == |plan| then [] else [Sender(op, plan[start..])])
        invariant Sent(initial, earlier, allowed, op, batches[..sent], wire)
        invariant forall i :: 0 <= i < sent ==> !wire.lost(i)
        decreases |plan| - start
      {
        var end := if start + limits.maxParams < |plan| then start + limits.maxParams else |plan|;
        ghost var remaining := plan[start..];
        SliceAt(plan, start, limits);
        BatchesStep(remaining, limits);
        ghost var state, written := State(), frames;
        SentSoFar(initial, earlier, allowed, op, batches[..sent], wire);
        var granted := SendSlice(op, plan[start..end], remaining, wire, sent, initial, earlier, allowed, batches[..sent]);
        if !granted {
          RefusalEnds(sent, initial, earlier, allowed, op, batches, wire);
          return NoBudget, sent;
        }
        assert batches[..sent + 1] == batches[..sent] + [plan[start..end]];
        sent, start := sent + 1, end;
        if wire.lost(sent - 1) {
          LossEnds(sent, initial, earlier, allowed, op, batches, wire);
          return SendFailed, sent;
        }
      }
      BatchesNone(limits.maxParams);
      assert plan[start..] == [];
      AllEnds(initial, earlier, allowed, op, batches, wire);
      return Submitted, sent;
    }

    lemma SentSoFar(c: Control, earlier: seq<Frame>, a: Allowance, op: Operation, done: seq<seq<Named>>, wire: Wire)
      requires Sent(c, earlier, a, op, done, wire)
      ensures State() == RecordedAll(c, op, done) && frames == earlier + FramesOf(op, done, wire, c.nextId)
      ensures forall i :: 0 <= i < |done| ==> a.Grants(wire, i)
    {
    }

    lemma RefusalEnds(sent: nat, c: Control, earlier: seq<Frame>, a: Allowance, op: Operation, batches: seq<seq<Named>>, wire: Wire)
      requires sent < |batches| && !a.Grants(wire, sent) && forall i :: 0 <= i < sent ==> a.Grants(wire, i) && !wire.lost(i)
      requires State() == RecordedAll(c, op, batches[..sent]) && frames == earlier + FramesOf(op, batches[..sent], wire, c.nextId)
      requires Allowed() == a.After(wire, sent + 1)
      ensures Ended(NoBudget, sent, c, earlier, a, op, batches, wire)
    {
      hide RecordedAll, FramesOf, Allowance.Grants, Allowance.After;
    }

    lemma LossEnds(sent: nat, c: Control, earlier: seq<Frame>, a: Allowance, op: Operation, batches: seq<seq<Named>>, wire: Wire)
      requires 0 < sent <= |batches| && Sent(c, earlier, a, op, batches[..sent], wire)
      requires wire.lost(sent - 1) && forall i :: 0 <= i < sent - 1 ==> !wire.lost(i)
      ensures Ended(SendFailed, sent, c, earlier, a, op, batches, wire)
    {
      hide RecordedAll, FramesOf, Allowance.Grants, Allowance.After;
    }

    lemma AllEnds(c: Control, earlier: seq<Frame>, a: Allowance, op: Operation, batches: seq<seq<Named>>, wire: Wire)
      requires Sent(c, earlier, a, op, batches[..|batches|], wire) && forall i :: 0 <= i < |batches| ==> !wire.lost(i)
      ensures Ended(Submitted, |batches|, c, earlier, a, op, batches, wire)
    {
      hide RecordedAll, FramesOf, Allowance.Grants, Allowance.After;
    }

    lemma NothingSent(wire: Wire, op: Operation)
      ensures Sent(State(), frames, Allowed(), op, [], wire)
    {
      ReadingsOneMore(wire, 0);
    }

    /** A whole call, undisturbed. Over the limit nothing happens; otherwise the batches of the sorted plan are recorded and
        written in order until the first that the budget refuses or the socket loses, and the trace tells the run. */
    method SendControl(op: Operation, items: set<Subscription>, wire: Wire)
      returns (o: SendOutcome, order: seq<Subscription>, sent: nat)
      requires Valid() && wire.Monotonic(budget.latest)
      modifies `pending, `pendingUnsubscribes, `controlRequests, `nextRequestId, `frames, `trace, budget`latest, budget.control
      ensures Valid() && old(trace) <= trace && budget.latest <= wire.clock(sent)
      ensures SortedBy(order, items, StreamName)
      ensures o == NotConnected <==> items != {} && !connected
      ensures o == OverLimit <==>
                items != {} && connected && op.Subscribe? && |Projected(old(State()), PlanOf(order))| > limits.maxStreams
      ensures items == {} ==> Batches(PlanOf(order), limits.maxParams) == []
      ensures o !in {NotConnected, OverLimit} ==>
                Ended(o, sent, old(State()), old(frames), old(Allowed()), op, Batches(PlanOf(order), limits.maxParams), wire)
      ensures o in {NotConnected, OverLimit} ==>
                sent == 0 && State() == old(State()) && frames == old(frames) && Allowed() == old(Allowed())
    {
      hide Run, StreamName, LexLess, Updated, StreamsOf, Recorded, SortedBy, Ended, Batches, Next, Grants, RecentCount, RecordedAll;
      order := Ordered(items, StreamName);
      sent := 0;
      if items == {} {
        BatchesNone(limits.maxParams);
        NothingEnds(op, wire);
        return Submitted, order, 0;
      }
      if !connected {
        return NotConnected, order, 0;
      }
      var plan := PlanOf(order);
      if op.Subscribe? && |active.Keys + pending.Keys + StreamsOf(plan)| > limits.maxStreams {
        return OverLimit, order, 0;
      }
      NextBegins(limits, State(), op, plan);
      RunAppended(limits, trace, Begin(op, plan));
      trace := trace + [Begin(op, plan)];
      o, sent := SendBatches(op, plan, wire);
    }

    lemma EndedFacts(o: SendOutcome, sent: nat, c: Control, earlier: seq<Frame>, a: Allowance, op: Operation, batches: seq<seq<Named>>, wire: Wire)
      requires Ended(o, sent, c, earlier, a, op, batches, wire)
      ensures Stopped(o, sent, |batches|, a, wire) && sent <= |batches|
      ensures State() == RecordedAll(c, op, batches[..sent]) && frames == earlier + FramesOf(op, batches[..sent], wire, c.nextId)
      ensures o == Submitted ==> Allowed() == a.After(wire, sent)
    {
    }

    lemma NothingEnds(op: Operation, wire: Wire)
      ensures Ended(Submitted, 0, State(), frames, Allowed(), op, [], wire)
    {
      ReadingsOneMore(wire, 0);
    }

    /** A rejected request: its streams are no longer on their way. */
    method Reject(id: int, request: Request, detail: Json)
      modifies `pending, `pendingUnsubscribes, `controlErrors
      ensures controlErrors == old(controlErrors)[id := detail]
      ensures pending == if request.op.Subscribe? then old(pending) - StreamsOf(request.batch) else old(pending)
      ensures pendingUnsubscribes ==
                if request.op.Subscribe? then old(pendingUnsubscribes) else old(pendingUnsubscribes) - StreamsOf(request.batch)
    {
      controlErrors := controlErrors[id := detail];
      if request.op.Subscribe? {
        pending := pending - StreamsOf(request.batch);
      } else {
        pendingUnsubscribes := pendingUnsubscribes - StreamsOf(request.batch);
      }
    }

    /** An acknowledged SUBSCRIBE. */
    method Activate(batch: seq<Named>)
      modifies `pending, `active
      ensures pending == old(pending) - StreamsOf(batch) && active == Updated(old(active), batch)
    {
      for i := 0 to |batch|
        invariant pending == old(pending) - StreamsOf(batch[..i]) && active == Updated(old(active), batch[..i])
      {
        assert batch[..i + 1][..i] == batch[..i];
        assert StreamsOf(batch[..i + 1]) == StreamsOf(batch[..i]) + {batch[i].stream};
        pending := pending - {batch[i].stream};
        active := active[batch[i].stream := batch[i].sub];
      }
      assert batch[..|batch|] == batch;
    }

    /** An acknowledged UNSUBSCRIBE. */
    method Deactivate(batch: seq<Named>)
      modifies `pendingUnsubscribes, `active
      ensures pendingUnsubscribes == old(pendingUnsubscribes) - StreamsOf(batch) && active == old(active) - StreamsOf(batch)
    {
      for i := 0 to |batch|
        invariant pendingUnsubscribes == old(pendingUnsubscribes) - StreamsOf(batch[..i]) && active == old(active) - StreamsOf(batch[..i])
      {
        assert StreamsOf(batch[..i + 1]) == StreamsOf(batch[..i]) + {batch[i].stream};
        pendingUnsubscribes := pendingUnsubscribes - {batch[i].stream};
        active := active - {batch[i].stream};
      }
      assert batch[..|batch|] == batch;
    }

    /** A control reply: unknown, repeated or malformed ids are ignored; an acknowledgement reports the active subscriptions. */
    method HandleControlMessage(p: Payload) returns (observed: Option<set<Subscription>>)
      requires Valid()
      modifies `active, `pending, `pendingUnsubscribes, `controlRequests, `controlErrors, `trace
      ensures Valid() && trace == old(trace) + [Reply(p)]
      ensures State() == Replied(old(State()), p)
      ensures observed == if Answered(old(State()), p).Some? && !Rejects(p) then Some(active.Values) else None
      ensures observed.None? ==> active == old(active)
    {
      hide Run, Settled;
      RunAppended(limits, trace, Reply(p));
      trace := trace + [Reply(p)];
      if "id" !in p || !p["id"].Int? || p["id"].value !in controlRequests {
        return None;
      }
      observed := Settle(p["id"].value, p);
    }

    method Settle(id: int, p: Payload) returns (observed: Option<set<Subscription>>)
      requires id in controlRequests
      modifies `active, `pending, `pendingUnsubscribes, `controlRequests, `controlErrors
      ensures State() == Settled(old(State()), id, p)
      ensures observed == if Rejects(p) then None else Some(active.Values)
      ensures observed.None? ==> active == old(active)
    {
      hide Updated, StreamsOf;
      var request := controlRequests[id];
      controlRequests := controlRequests - {id};
      if "code" in p || ("result" in p && p["result"] != Null) {
        Reject(id, request, if "msg" in p then p["msg"] else NO_DETAIL);
        return None;
      }
      if request.op.Subscribe? {
        Activate(request.batch);
      } else {
        Deactivate(request.batch);
      }
      return Some(active.Values);
    }
  }
}
