/** packages/market_data/adapters/subscription_coordinator.py: desired against confirmed subscriptions, and one round of
    reconciling them through the adapter. */
module Coordinator {
  import opened Wrappers
  import opened TextOrder
  import opened WebSocketControl
  import opened WebSocketAdapter

  // ---------------------------------------------------------------- one round, on the control state

  /** Distinct subscriptions have distinct stream names. */
  ghost predicate NamesDistinct(subs: set<Subscription>) {
    forall a, b :: a in subs && b in subs && StreamName(a) == StreamName(b) ==> a == b
  }

  ghost predicate ActiveNamed(c: Control) {
    forall stream :: stream in c.active ==> StreamName(c.active[stream]) == stream
  }

  ghost predicate RequestNamed(r: Request, desired: set<Subscription>, all: set<Subscription>) {
    forall n :: n in r.batch ==> n.stream == StreamName(n.sub) && n.sub in all && (r.op.Subscribe? <==> n.sub in desired)
  }

  /** The outstanding requests lead to `desired`: a SUBSCRIBE names desired subscriptions, an UNSUBSCRIBE others; what is active
      but not desired is being dropped, and what is desired but not active has been asked for. */
  ghost predicate Converging(c: Control, desired: set<Subscription>, all: set<Subscription>) {
    && ActiveNamed(c) && desired <= all && c.active.Values <= all
    && (forall id :: id in c.requests ==> RequestNamed(c.requests[id], desired, all))
    && (forall stream :: stream in c.active ==> c.active[stream] in desired || Awaited(c.requests, Unsubscribe, stream))
    && (forall sub :: sub in desired ==> StreamName(sub) in c.active || Awaited(c.requests, Subscribe, StreamName(sub)))
  }

  function RepliedAll(c: Control, replies: seq<Payload>): Control {
    if replies == [] then c else Replied(RepliedAll(c, replies[..|replies| - 1]), replies[|replies| - 1])
  }

  predicate AllPositive(replies: seq<Payload>) { forall i :: 0 <= i < |replies| ==> !Rejects(replies[i]) }

  lemma InStreams(batch: seq<Named>, stream: string)
    ensures stream in StreamsOf(batch) <==> exists n :: n in batch && n.stream == stream
  {
  }

  lemma SubscribeAcknowledged(c: Control, id: int, p: Payload, desired: set<Subscription>, all: set<Subscription>)
    requires NamesDistinct(all) && Converging(c, desired, all) && id in c.requests && !Rejects(p) && c.requests[id].op.Subscribe?
    ensures Converging(Settled(c, id, p), desired, all)
  {
    var d, r := Settled(c, id, p), c.requests[id];
    SettledAwaits(c, id, p);
    UpdatedHas(c.active, r.batch);
    assert RequestNamed(r, desired, all);
    hide Updated, StreamsOf, StreamName, Awaited;
    forall stream | stream in d.active
      ensures StreamName(d.active[stream]) == stream && d.active[stream] in all
      ensures d.active[stream] in desired || Awaited(d.requests, Unsubscribe, stream)
    {
      if stream in StreamsOf(r.batch) {
        assert Named(stream, d.active[stream]) in r.batch;
      }
    }
  }

  lemma UnsubscribeAcknowledged(c: Control, id: int, p: Payload, desired: set<Subscription>, all: set<Subscription>)
    requires NamesDistinct(all) && Converging(c, desired, all) && id in c.requests && !Rejects(p) && c.requests[id].op.Unsubscribe?
    ensures Converging(Settled(c, id, p), desired, all)
  {
    var d, r := Settled(c, id, p), c.requests[id];
    SettledAwaits(c, id, p);
    assert RequestNamed(r, desired, all);
    hide Updated, StreamsOf, StreamName, Awaited;
    forall sub | sub in desired ensures StreamName(sub) !in StreamsOf(r.batch) {
      InStreams(r.batch, StreamName(sub));
    }
  }

  lemma {:induction false} RepliesConverge(c: Control, replies: seq<Payload>, desired: set<Subscription>, all: set<Subscription>)
    requires NamesDistinct(all) && Converging(c, desired, all) && AllPositive(replies)
    ensures Converging(RepliedAll(c, replies), desired, all)
  {
    hide NamesDistinct, Converging, Settled;
    if replies != [] {
      var init, p := replies[..|replies| - 1], replies[|replies| - 1];
      RepliesConverge(c, init, desired, all);
      var d := RepliedAll(c, init);
      if Answered(d, p).Some? {
        var id := Answered(d, p).value;
        if d.requests[id].op.Subscribe? {
          SubscribeAcknowledged(d, id, p, desired, all);
        } else {
          UnsubscribeAcknowledged(d, id, p, desired, all);
        }
      }
    }
  }

  lemma Converged(c: Control, desired: set<Subscription>, all: set<Subscription>)
    requires NamesDistinct(all) && Converging(c, desired, all) && c.requests == map[]
    ensures c.active.Values == desired && ActiveNamed(c)
  {
    hide StreamName;
    forall sub | sub in desired ensures sub in c.active.Values {
      assert c.active[StreamName(sub)] == sub;
    }
  }

  // ---------------------------------------------------------------- what a synchronization sends

  lemma {:induction false} RecordedAllRequests(c: Control, op: Operation, batches: seq<seq<Named>>)
    requires forall id :: id in c.requests ==> id < c.nextId
    ensures var d := RecordedAll(c, op, batches);
            && d.active == c.active
            && (forall id :: id in d.requests ==> id < d.nextId)
            && (forall id :: id in c.requests ==> id in d.requests && d.requests[id] == c.requests[id])
            && (forall id :: id in d.requests && id !in c.requests ==> d.requests[id].op == op && d.requests[id].batch in batches)
            && (forall batch :: batch in batches ==> exists id :: id in d.requests && d.requests[id] == Request(op, batch))
  {
    hide Updated, StreamsOf;
    if batches != [] {
      var init, last := batches[..|batches| - 1], batches[|batches| - 1];
      RecordedAllRequests(c, op, init);
      var d, e := RecordedAll(c, op, init), RecordedAll(c, op, batches);
      assert batches == init + [last];
      assert e.requests[d.nextId] == Request(op, last);
      forall batch | batch in init ensures exists id :: id in e.requests && e.requests[id] == Request(op, batch) {
        var id :| id in d.requests && d.requests[id] == Request(op, batch);
        assert e.requests[id] == d.requests[id];
      }
    }
  }

  lemma {:induction false} BatchesCover(plan: seq<Named>, size: int)
    requires size >= 1
    ensures forall batch, n :: batch in Batches(plan, size) && n in batch ==> n in plan
    ensures forall n :: n in plan ==> exists batch :: batch in Batches(plan, size) && n in batch
  {
    if |plan| > size {
      BatchesCover(plan[size..], size);
      assert plan == plan[..size] + plan[size..];
    } else if plan != [] {
      assert plan in Batches(plan, size);
    }
  }

  /** The control state after a synchronization that no limit or budget cut short. */
  function Synced(c: Control, drop: seq<Subscription>, add: seq<Subscription>, size: int): Control
    requires size >= 1
  {
    RecordedAll(RecordedAll(c, Unsubscribe, Batches(PlanOf(drop), size)), Subscribe, Batches(PlanOf(add), size))
  }

  /** Nothing in flight, and two lists of the subscriptions to drop and to add. */
  ghost predicate Reconciling(c: Control, desired: set<Subscription>, drop: seq<Subscription>, add: seq<Subscription>) {
    && c.requests == map[] && ActiveNamed(c)
    && (forall sub :: sub in drop <==> sub in c.active.Values - desired)
    && (forall sub :: sub in add <==> sub in desired - c.active.Values)
  }

  lemma InPlan(list: seq<Subscription>, n: Named)
    ensures n in PlanOf(list) <==> n.sub in list && n.stream == StreamName(n.sub)
  {
    hide StreamName;
    if n.sub in list && n.stream == StreamName(n.sub) {
      var i :| 0 <= i < |list| && list[i] == n.sub;
      assert PlanOf(list)[i] == n;
    }
  }

  /** The requests for a list: each names members of the list only, and each member is named. */
  lemma RequestsForList(c: Control, op: Operation, list: seq<Subscription>, size: int)
    requires size >= 1 && forall id :: id in c.requests ==> id < c.nextId
    ensures var d := RecordedAll(c, op, Batches(PlanOf(list), size));
            && d.active == c.active && (forall id :: id in d.requests ==> id < d.nextId)
            && (forall id :: id in c.requests ==> id in d.requests && d.requests[id] == c.requests[id])
            && (forall id, n :: id in d.requests && id !in c.requests && n in d.requests[id].batch ==>
                  d.requests[id].op == op && n.sub in list && n.stream == StreamName(n.sub))
            && (forall id :: id in d.requests && id !in c.requests ==> d.requests[id].op == op)
            && (forall sub :: sub in list ==> Awaited(d.requests, op, StreamName(sub)))
  {
    hide StreamName, Batches, RecordedAll;
    var plan := PlanOf(list);
    var batches := Batches(plan, size);
    RecordedAllRequests(c, op, batches);
    BatchesCover(plan, size);
    var d := RecordedAll(c, op, batches);
    forall n ensures n in plan <==> n.sub in list && n.stream == StreamName(n.sub) {
      InPlan(list, n);
    }
    forall sub | sub in list ensures Awaited(d.requests, op, StreamName(sub)) {
      var n := Named(StreamName(sub), sub);
      assert n in plan;
      var batch :| batch in batches && n in batch;
      var id :| id in d.requests && d.requests[id] == Request(op, batch);
      InStreams(batch, n.stream);
    }
  }

  lemma SyncConverges(c: Control, desired: set<Subscription>, drop: seq<Subscription>, add: seq<Subscription>, size: int)
    requires size >= 1 && Reconciling(c, desired, drop, add)
    ensures Converging(Synced(c, drop, add, size), desired, desired + c.active.Values)
    ensures Synced(c, drop, add, size).active == c.active
  {
    hide StreamName, Batches, RecordedAll;
    var c1 := RecordedAll(c, Unsubscribe, Batches(PlanOf(drop), size));
    var c2 := RecordedAll(c1, Subscribe, Batches(PlanOf(add), size));
    RequestsForList(c, Unsubscribe, drop, size);
    RequestsForList(c1, Subscribe, add, size);
    hide PlanOf;
    forall sub | sub in drop ensures Awaited(c2.requests, Unsubscribe, StreamName(sub)) {
      var id :| id in c1.requests && c1.requests[id].op.Unsubscribe? && StreamName(sub) in StreamsOf(c1.requests[id].batch);
      assert id in c2.requests && c2.requests[id].op.Unsubscribe? && StreamName(sub) in StreamsOf(c2.requests[id].batch);
    }
    forall sub | sub in desired ensures StreamName(sub) in c.active || Awaited(c2.requests, Subscribe, StreamName(sub)) {
      if sub in c.active.Values {
        var stream :| stream in c.active && c.active[stream] == sub;
      }
    }
  }

  /** One round: whatever order the positive replies come in, repeated and unknown ones included, once nothing is outstanding
      the active subscriptions are the desired ones. */
  lemma RoundConverges(c: Control, desired: set<Subscription>, drop: seq<Subscription>, add: seq<Subscription>, size: int, replies: seq<Payload>)
    requires size >= 1 && Reconciling(c, desired, drop, add) && NamesDistinct(desired + c.active.Values)
    requires AllPositive(replies) && RepliedAll(Synced(c, drop, add, size), replies).requests == map[]
    ensures RepliedAll(Synced(c, drop, add, size), replies).active.Values == desired
    ensures ActiveNamed(RepliedAll(Synced(c, drop, add, size), replies))
  {
    hide *;
    SyncConverges(c, desired, drop, add, size);
    RepliesConverge(Synced(c, drop, add, size), replies, desired, desired + c.active.Values);
    Converged(RepliedAll(Synced(c, drop, add, size), replies), desired, desired + c.active.Values);
  }

  // ---------------------------------------------------------------- colliding names

  lemma RepliedFirst(c: Control, p: Payload, rest: seq<Payload>)
    ensures RepliedAll(c, [p] + rest) == RepliedAll(Replied(c, p), rest)
  {
    hide Replied, RepliedAll;
    NothingReplied(c);
    if rest == [] {
      RepliedLast(c, [], p);
      NothingReplied(Replied(c, p));
      assert [p] + rest == [] + [p];
    } else {
      var init, last := rest[..|rest| - 1], rest[|rest| - 1];
      RepliedFirst(c, p, init);
      RepliedLast(c, [p] + init, last);
      RepliedLast(Replied(c, p), init, last);
      assert [p] + rest == ([p] + init) + [last] && rest == init + [last];
    }
  }

  lemma RepliedLast(c: Control, replies: seq<Payload>, p: Payload)
    ensures RepliedAll(c, replies + [p]) == Replied(RepliedAll(c, replies), p)
  {
    hide Replied;
    assert (replies + [p])[..|replies|] == replies;
  }

  lemma NothingReplied(c: Control)
    ensures RepliedAll(c, []) == c
  {
  }

  lemma Acknowledge(c: Control, id: int)
    requires id in c.requests
    ensures var d := Replied(c, Positive(id));
            && d.requests == c.requests - {id} && |d.requests| < |c.requests| && AllPositive([Positive(id)])
            && (c.requests[id].op.Unsubscribe? ==> StreamsOf(c.requests[id].batch) !! d.active.Keys)
  {
    RequestsShrink(c, id);
    hide StreamsOf, Updated;
  }

  lemma KeyOrEmpty(requests: map<int, Request>)
    ensures requests == map[] || exists id :: id in requests
  {
    if forall id :: id !in requests {
      assert requests == map[];
    }
  }

  lemma SomeOther(requests: map<int, Request>, last: int) returns (id: int)
    requires requests != map[]
    ensures id in requests && (id == last ==> requests - {id} == map[])
  {
    KeyOrEmpty(requests);
    KeyOrEmpty(requests - {last});
    if other :| other in requests && other != last {
      id := other;
    } else {
      id :| id in requests;
    }
  }

  /** Everything outstanding can be acknowledged, `last` at the end. */
  lemma {:induction false} AnswerAll(c: Control, last: int) returns (replies: seq<Payload>)
    ensures AllPositive(replies) && RepliedAll(c, replies).requests == map[]
    ensures c.requests == map[] ==> replies == []
    ensures last in c.requests && c.requests[last].op.Unsubscribe? ==>
              StreamsOf(c.requests[last].batch) !! RepliedAll(c, replies).active.Keys
    decreases |c.requests|
  {
    hide RepliedAll, StreamsOf, Replied, Positive, Rejects;
    NothingReplied(c);
    if c.requests == map[] {
      return [];
    }
    var id := SomeOther(c.requests, last);
    Acknowledge(c, id);
    var d := Replied(c, Positive(id));
    var rest := AnswerAll(d, last);
    RepliedFirst(c, Positive(id), rest);
    NothingReplied(d);
    replies := [Positive(id)] + rest;
  }

  /** Acknowledgements never activate a stream under a foreign name. */
  lemma {:induction false} RepliesNamed(c: Control, replies: seq<Payload>)
    requires ActiveNamed(c)
    requires forall id, n :: id in c.requests && n in c.requests[id].batch ==> n.stream == StreamName(n.sub)
    ensures var d := RepliedAll(c, replies);
            && ActiveNamed(d)
            && (forall id, n :: id in d.requests && n in d.requests[id].batch ==> n.stream == StreamName(n.sub))
  {
    hide StreamName, StreamsOf, Updated, Rejects;
    if replies != [] {
      var init, p := replies[..|replies| - 1], replies[|replies| - 1];
      RepliesNamed(c, init);
      var d := RepliedAll(c, init);
      if Answered(d, p).Some? {
        UpdatedNamed(d, Answered(d, p).value);
      }
    }
  }

  lemma UpdatedNamed(c: Control, id: int)
    requires ActiveNamed(c) && id in c.requests && forall n :: n in c.requests[id].batch ==> n.stream == StreamName(n.sub)
    ensures ActiveNamed(c.(active := Updated(c.active, c.requests[id].batch)))
    ensures ActiveNamed(c.(active := c.active - StreamsOf(c.requests[id].batch)))
  {
    var batch := c.requests[id].batch;
    UpdatedHas(c.active, batch);
    hide StreamName, StreamsOf, Updated;
    var active := Updated(c.active, batch);
    forall stream | stream in active ensures StreamName(active[stream]) == stream {
      if stream in StreamsOf(batch) { assert Named(stream, active[stream]) in batch; }
    }
  }

  ghost predicate AlwaysConverges(s: Control, desired: set<Subscription>) {
    forall replies :: AllPositive(replies) && RepliedAll(s, replies).requests == map[] ==> RepliedAll(s, replies).active.Values == desired
  }

  /** Two subscriptions with one name cannot both be active. */
  lemma ValuesDistinct(c: Control)
    requires ActiveNamed(c)
    ensures NamesDistinct(c.active.Values)
  {
    hide StreamName;
  }

  /** A round converges in every order of replies exactly when the names of the desired and the active subscriptions are distinct. */
  lemma ConvergesExactly(c: Control, desired: set<Subscription>, drop: seq<Subscription>, add: seq<Subscription>, size: int)
    requires size >= 1 && Reconciling(c, desired, drop, add)
    ensures AlwaysConverges(Synced(c, drop, add, size), desired) <==> NamesDistinct(desired + c.active.Values)
  {
    hide StreamName, Synced, RepliedAll, Converging;
    var s := Synced(c, drop, add, size);
    if NamesDistinct(desired + c.active.Values) {
      forall replies | AllPositive(replies) && RepliedAll(s, replies).requests == map[] ensures RepliedAll(s, replies).active.Values == desired {
        RoundConverges(c, desired, drop, add, size, replies);
      }
    } else {
      var a, b :| a in desired + c.active.Values && b in desired + c.active.Values && StreamName(a) == StreamName(b) && a != b;
      ValuesDistinct(c);
      var wanted, other := if a in desired then a else b, if a in desired then b else a;
      var replies := Diverging(c, desired, drop, add, size, wanted, other);
    }
  }

  lemma Diverging(c: Control, desired: set<Subscription>, drop: seq<Subscription>, add: seq<Subscription>, size: int,
                  wanted: Subscription, other: Subscription) returns (replies: seq<Payload>)
    requires size >= 1 && Reconciling(c, desired, drop, add)
    requires wanted in desired && other in desired + c.active.Values && wanted != other && StreamName(wanted) == StreamName(other)
    ensures AllPositive(replies)
    ensures var d := RepliedAll(Synced(c, drop, add, size), replies);
            d.requests == map[] && d.active.Values != desired
  {
    var s := Synced(c, drop, add, size);
    SyncConverges(c, desired, drop, add, size);
    var last := 0;
    if other !in desired {
      var stream :| stream in c.active && c.active[stream] == other;
      last :| last in s.requests && s.requests[last].op.Unsubscribe? && StreamName(other) in StreamsOf(s.requests[last].batch);
    }
    hide StreamName, Synced, StreamsOf;
    replies := AnswerAll(s, last);
    RepliesNamed(s, replies);
    ValuesDistinct(RepliedAll(s, replies));
  }

  /** Concretely: with both AB/C and A/BC desired, some order of acknowledgements leaves other subscriptions active. */
  lemma DivergenceWitness(size: int)
    requires size >= 1
    ensures Reconciling(INITIAL, {AB_C, A_BC}, [], [AB_C, A_BC])
    ensures !AlwaysConverges(Synced(INITIAL, [], [AB_C, A_BC], size), {AB_C, A_BC})
  {
    CollisionWitness();
    hide StreamName, Synced, AlwaysConverges;
    assert INITIAL.active.Values == {};
    ConvergesExactly(INITIAL, {AB_C, A_BC}, [], [AB_C, A_BC], size);
    assert AB_C in {AB_C, A_BC} + INITIAL.active.Values && A_BC in {AB_C, A_BC} + INITIAL.active.Values;
  }

  // ---------------------------------------------------------------- the coordinator

  /** Exchange and market are fixed. */
  datatype SubscriptionKey = SubscriptionKey(symbol: string, kind: Kind)

  function KeyOf(sub: Subscription): SubscriptionKey { SubscriptionKey(sub.symbol.Text(), sub.kind) }

  lemma SpotIsCanonical(symbol: MarketSymbol)
    requires SpotSymbol(symbol)
    ensures symbol.Canonical()
  {
    assert forall c :: UpperOrDigit(c) ==> c > '/';
  }

  /** A key stands for one subscription. */
  lemma KeyIdentifies(a: Subscription, b: Subscription)
    ensures KeyOf(a) == KeyOf(b) <==> a == b
  {
    SpotIsCanonical(a.symbol);
    SpotIsCanonical(b.symbol);
    SymbolOrder(a.symbol, b.symbol);
  }

  ghost predicate Keyed(subs: map<SubscriptionKey, Subscription>) {
    forall key :: key in subs ==> KeyOf(subs[key]) == key
  }

  /** `{key(sub): sub for sub in confirmed}`. */
  function ByKey(confirmed: set<Subscription>): (subs: map<SubscriptionKey, Subscription>)
    ensures Keyed(subs) && subs.Values == confirmed
  {
    KeysIdentify();
    var subs := map sub | sub in confirmed :: KeyOf(sub) := sub;
    ByKeyHasAll(confirmed, subs);
    subs
  }

  lemma KeysIdentify()
    ensures forall a: Subscription, b: Subscription :: KeyOf(a) == KeyOf(b) ==> a == b
  {
    hide KeyOf;
    forall a: Subscription, b: Subscription | KeyOf(a) == KeyOf(b) ensures a == b { KeyIdentifies(a, b); }
  }

  lemma ByKeyHasAll(confirmed: set<Subscription>, subs: map<SubscriptionKey, Subscription>)
    requires forall sub :: sub in confirmed ==> KeyOf(sub) in subs && subs[KeyOf(sub)] == sub
    requires forall key :: key in subs ==> subs[key] in confirmed
    ensures subs.Values == confirmed
  {
    hide KeyOf;
  }

  /** Keyed tables are equal when they hold the same subscriptions. */
  lemma SameValues(a: map<SubscriptionKey, Subscription>, b: map<SubscriptionKey, Subscription>)
    requires Keyed(a) && Keyed(b) && a.Values == b.Values
    ensures a == b
  {
    hide KeyOf;
    forall key | key in a ensures key in b && a[key] == b[key] {
      assert a[key] in b.Values;
      var k :| k in b && b[k] == a[key];
    }
    forall key | key in b ensures key in a {
      assert b[key] in a.Values;
      var k :| k in a && a[k] == b[key];
    }
  }

  lemma WithSubscription(subs: map<SubscriptionKey, Subscription>, sub: Subscription)
    requires Keyed(subs) && KeyOf(sub) !in subs
    ensures subs[KeyOf(sub) := sub].Values == subs.Values + {sub}
  {
    hide KeyOf;
    var more := subs[KeyOf(sub) := sub];
    forall s | s in subs.Values ensures s in more.Values {
      var k :| k in subs && subs[k] == s;
      assert more[k] == s;
    }
    assert more[KeyOf(sub)] == sub;
  }

  lemma WithoutSubscription(subs: map<SubscriptionKey, Subscription>, sub: Subscription)
    requires Keyed(subs)
    ensures (subs - {KeyOf(sub)}).Values == subs.Values - {sub}
    ensures KeyOf(sub) !in subs ==> sub !in subs.Values
  {
    hide KeyOf;
    KeysIdentify();
    var fewer := subs - {KeyOf(sub)};
    forall s | s in subs.Values && s != sub ensures s in fewer.Values {
      var k :| k in subs && subs[k] == s;
      assert fewer[k] == s;
    }
  }

  class SubscriptionCoordinator {
    const adapter: BinanceWebSocketAdapter
    const maxStreams: int
    var desired: map<SubscriptionKey, Subscription>
    var active: map<SubscriptionKey, Subscription>
    var pendingUnsubscribes: set<SubscriptionKey>

    ghost predicate Valid()
      reads this
    {
      maxStreams >= 1 && Keyed(desired) && Keyed(active)
    }

    constructor (adapter: BinanceWebSocketAdapter, maxStreams: int)
      requires maxStreams >= 1
      ensures Valid() && this.adapter == adapter && this.maxStreams == maxStreams
      ensures desired == map[] && active == map[] && pendingUnsubscribes == {}
    {
      this.adapter, this.maxStreams := adapter, maxStreams;
      desired, active, pendingUnsubscribes := map[], map[], {};
    }

    method AddSubscription(sub: Subscription)
      requires Valid()
      modifies `desired
      ensures Valid() && desired.Values == old(desired.Values) + {sub}
    {
      hide KeyOf;
      KeysIdentify();
      if KeyOf(sub) in desired {
        assert desired[KeyOf(sub)] == sub;
        return;
      }
      WithSubscription(desired, sub);
      desired := desired[KeyOf(sub) := sub];
    }

    method RemoveSubscription(sub: Subscription)
      requires Valid()
      modifies `desired
      ensures Valid() && desired.Values == old(desired.Values) - {sub}
    {
      hide KeyOf;
      WithoutSubscription(desired, sub);
      if KeyOf(sub) !in desired {
        return;
      }
      desired := desired - {KeyOf(sub)};
    }

    function GetMissing(): set<Subscription>
      reads this
    {
      desired.Values - active.Values
    }

    function ToRemove(): set<SubscriptionKey>
      reads this
    {
      active.Keys - desired.Keys
    }

    /** Only what the provider confirmed is active; a removal whose subscription is gone is no longer pending. */
    method ReconcileConfirmed(confirmed: set<Subscription>)
      requires Valid()
      modifies `active, `pendingUnsubscribes
      ensures Valid() && active == ByKey(confirmed)
      ensures pendingUnsubscribes == old(pendingUnsubscribes) * active.Keys
    {
      active := ByKey(confirmed);
      pendingUnsubscribes := pendingUnsubscribes * active.Keys;
    }

    /** Active but not desired, and not being dropped yet. */
    function Leaving(): set<Subscription>
      reads this
    {
      set key | key in ToRemove() - pendingUnsubscribes :: active[key]
    }

    /** Both calls of a synchronization pass, the second after what the first takes from the budget. */
    ghost predicate CanSync(wire: Wire, connected: bool)
      requires adapter.limits.Valid()
      reads this, adapter, adapter.budget.control
    {
      BothPass(adapter.limits, connected, adapter.State(), Leaving(), GetMissing(), adapter.Allowed(), wire)
    }

    /** One of the two calls of a synchronization. */
    method Send(op: Operation, items: set<Subscription>, wire: Wire)
      returns (o: SendOutcome, order: seq<Subscription>, used: nat, ghost written: seq<Frame>)
      requires adapter.Valid() && wire.Monotonic(adapter.budget.latest)
      modifies adapter`pending, adapter`pendingUnsubscribes, adapter`controlRequests, adapter`nextRequestId, adapter`frames, adapter`trace
      modifies adapter.budget`latest, adapter.budget.control
      ensures adapter.Valid() && adapter.budget.latest <= wire.clock(used)
      ensures Performed(adapter.limits, adapter.connected, Call(op, items, wire, old(adapter.State()), old(adapter.frames), old(adapter.Allowed())),
                        Result(o, order, used, written, adapter.State(), adapter.frames, adapter.Allowed()))
    {
      hide Run, Performed, BinanceWebSocketAdapter.Ended, Batches, PlanOf, FramesOf, SortedBy, Projected, StreamName, RecordedAll, Stopped;
      hide Allowance.After;
      ghost var call := Call(op, items, wire, adapter.State(), adapter.frames, adapter.Allowed());
      if items == {} {
        NothingPerformed(adapter.limits, adapter.connected, call);
        return Submitted, [], 0, [];
      }
      o, order, used := adapter.SendControl(op, items, wire);
      ghost var batches := Batches(PlanOf(order), adapter.limits.maxParams);
      written := [];
      if o in {NotConnected, OverLimit} {
        NotPerformed(adapter.limits, adapter.connected, call, o, order);
      } else {
        adapter.EndedFacts(o, used, call.control, call.frames, call.allowed, op, batches, wire);
        written := FramesOf(op, batches[..used], wire, call.control.nextId);
        EndedPerformed(adapter.limits, adapter.connected, call, Result(o, order, used, written, adapter.State(), adapter.frames, adapter.Allowed()));
      }
    }

    /** Unsubscribes what is active but not desired, unless that is pending, then subscribes what is desired but not active. It
        succeeds exactly when both calls pass, and then the frames it writes name exactly these. */
    method SyncWithAdapter(wire: Wire) returns (o: SendOutcome, drop: seq<Subscription>, add: seq<Subscription>, ghost written: seq<Frame>)
      requires Valid() && adapter.Valid() && wire.Monotonic(adapter.budget.latest)
      modifies `pendingUnsubscribes
      modifies adapter`pending, adapter`pendingUnsubscribes, adapter`controlRequests, adapter`nextRequestId, adapter`frames, adapter`trace
      modifies adapter.budget`latest, adapter.budget.control
      ensures Valid() && adapter.Valid() && exists n :: adapter.budget.latest <= wire.clock(n)
      ensures o == Submitted ==> adapter.Allowed() == AfterBoth(old(adapter.Allowed()), adapter.limits, old(Leaving()), GetMissing(), wire)
      ensures Lists(drop, old(Leaving()))
      ensures forall sub :: sub in old(Leaving()) <==> sub in active.Values && KeyOf(sub) in ToRemove() - old(pendingUnsubscribes)
      ensures o == Submitted <==> old(CanSync(wire, adapter.connected))
      ensures o == Submitted ==>
                && Lists(add, GetMissing())
                && adapter.State() == Synced(old(adapter.State()), drop, add, adapter.limits.maxParams)
                && pendingUnsubscribes == old(pendingUnsubscribes) + ToRemove()
      ensures adapter.frames == old(adapter.frames) + written
      ensures Asked(written, Subscribe) <= NamesOf(GetMissing()) && Asked(written, Unsubscribe) <= NamesOf(old(Leaving()))
      ensures o == Submitted ==> Asked(written, Subscribe) == NamesOf(GetMissing()) && Asked(written, Unsubscribe) == NamesOf(old(Leaving()))
      ensures old(Leaving()) == {} && GetMissing() == {} ==> o == Submitted && written == [] && adapter.State() == old(adapter.State())
    {
      hide KeyOf, Run, Asked, NamesOf, Performed, BothPass, Synced, Lists, AfterBoth, CallPasses, BatchCount, Batches, PlanOf, RecordedAll, Keyed;
      var missing, leaving := GetMissing(), Leaving();
      LeavingMembers(active, ToRemove() - pendingUnsubscribes);
      var l := adapter.limits;
      ghost var first := Call(Unsubscribe, leaving, wire, adapter.State(), adapter.frames, adapter.Allowed());
      var used, more;
      ghost var extra;
      o, drop, used, written := Send(Unsubscribe, leaving, wire);
      ghost var dropped := Result(o, drop, used, written, adapter.State(), adapter.frames, adapter.Allowed());
      add := [];
      PerformedFirst(l, adapter.connected, first, dropped, missing);
      if o != Submitted {
        return;
      }
      pendingUnsubscribes := pendingUnsubscribes + (ToRemove() - pendingUnsubscribes);
      o, add, more, extra := Send(Subscribe, missing, wire.From(used));
      ghost var added := Result(o, add, more, extra, adapter.State(), adapter.frames, adapter.Allowed());
      PerformedBoth(l, adapter.connected, first, dropped, missing, added);
      written := written + extra;
    }
  }

  // ---------------------------------------------------------------- calls, on values

  /** A call and what it finds. */
  datatype Call = Call(op: Operation, items: set<Subscription>, wire: Wire, control: Control, frames: seq<Frame>, allowed: Allowance)

  /** How it ended, in which order it sent, how many clock readings it used, what it wrote, and what it leaves. */
  datatype CallResult =
    Result(o: SendOutcome, order: seq<Subscription>, used: nat, written: seq<Frame>, control: Control, frames: seq<Frame>, allowed: Allowance)

  /** The call was performed: it succeeds exactly when it passes, and then all its items are recorded and named in its frames. */
  ghost predicate Performed(l: Limits, connected: bool, c: Call, d: CallResult)
    requires l.Valid()
  {
    && Lists(d.order, c.items)
    && (d.o == Submitted <==> CallPasses(l, connected, c.control, c.op, c.items, c.allowed, c.wire))
    && (d.o == Submitted ==>
          && d.control == RecordedAll(c.control, c.op, Batches(PlanOf(d.order), l.maxParams))
          && d.used == BatchCount(|c.items|, l.maxParams) && d.allowed == c.allowed.After(c.wire, d.used))
    && d.frames == c.frames + d.written && (forall f :: f in d.written ==> f.op == c.op)
    && Asked(d.written, c.op) <= NamesOf(c.items) && (d.o == Submitted ==> Asked(d.written, c.op) == NamesOf(c.items))
    && (c.items == {} ==> d.o == Submitted && d.written == [] && d.control == c.control)
  }

  lemma NothingPerformed(l: Limits, connected: bool, c: Call)
    requires l.Valid() && c.items == {}
    ensures Performed(l, connected, c, Result(Submitted, [], 0, [], c.control, c.frames, c.allowed))
  {
    ReadingsOneMore(c.wire, 0);
    assert c.allowed.After(c.wire, 0) == c.allowed;
  }

  lemma NotPerformed(l: Limits, connected: bool, c: Call, o: SendOutcome, order: seq<Subscription>)
    requires l.Valid() && c.items != {} && SortedBy(order, c.items, StreamName)
    requires o == NotConnected <==> !connected
    requires o == OverLimit <==> connected && c.op.Subscribe? && |Projected(c.control, PlanOf(order))| > l.maxStreams
    requires o in {NotConnected, OverLimit}
    ensures Performed(l, connected, c, Result(o, order, 0, [], c.control, c.frames, c.allowed))
  {
    hide PlanOf, StreamName, SortedBy, NamesOf, Asked, Batches, RecordedAll, CallPasses, StreamsOf, Projected, BatchCount, Stopped;
    SortedMembers(order, c.items);
    SortedSize(order, c.items, StreamName);
    PlanNames(order, c.items);
    NoneAsked([], if c.op == Subscribe then Unsubscribe else Subscribe, c.op);
    SendDecides(l, connected, c.control, c.op, c.items, PlanOf(order), o, 0, c.allowed, c.wire);
  }

  lemma EndedPerformed(l: Limits, connected: bool, c: Call, d: CallResult)
    requires l.Valid() && c.items != {} && SortedBy(d.order, c.items, StreamName) && connected && d.o !in {NotConnected, OverLimit}
    requires c.op.Subscribe? ==> |Projected(c.control, PlanOf(d.order))| <= l.maxStreams
    requires var batches := Batches(PlanOf(d.order), l.maxParams);
             && Stopped(d.o, d.used, |batches|, c.allowed, c.wire) && d.used <= |batches|
             && d.control == RecordedAll(c.control, c.op, batches[..d.used])
             && d.written == FramesOf(c.op, batches[..d.used], c.wire, c.control.nextId)
             && d.frames == c.frames + d.written
             && (d.o == Submitted ==> d.allowed == c.allowed.After(c.wire, d.used))
    ensures Performed(l, connected, c, d)
  {
    hide PlanOf, StreamName, SortedBy, NamesOf, Asked, Batches, RecordedAll, FramesOf, CallPasses, Stopped, StreamsOf, BatchCount, Allowance.After;
    var plan := PlanOf(d.order);
    var batches := Batches(plan, l.maxParams);
    SortedMembers(d.order, c.items);
    SortedSize(d.order, c.items, StreamName);
    PlanNames(d.order, c.items);
    WrittenAsk(c.op, plan, l.maxParams, d.used, c.wire, c.control.nextId);
    SendDecides(l, connected, c.control, c.op, c.items, plan, d.o, d.used, c.allowed, c.wire);
    assert d.o == Submitted ==> batches[..d.used] == batches;
  }

  /** The two calls of a synchronization pass. */
  ghost predicate BothPass(l: Limits, connected: bool, c: Control, leaving: set<Subscription>, missing: set<Subscription>, a: Allowance, wire: Wire)
    requires l.Valid()
  {
    var n := BatchCount(|leaving|, l.maxParams);
    && CallPasses(l, connected, c, Unsubscribe, leaving, a, wire)
    && CallPasses(l, connected, c, Subscribe, missing, a.After(wire, n), wire.From(n))
  }

  /** What both calls leave of the budget. */
  ghost function AfterBoth(a: Allowance, l: Limits, leaving: set<Subscription>, missing: set<Subscription>, wire: Wire): Allowance
    requires l.Valid()
  {
    var n := BatchCount(|leaving|, l.maxParams);
    a.After(wire, n).After(wire.From(n), BatchCount(|missing|, l.maxParams))
  }

  /** After the first call alone. */
  lemma PerformedFirst(l: Limits, connected: bool, c: Call, d: CallResult, missing: set<Subscription>)
    requires l.Valid() && Performed(l, connected, c, d) && c.op == Unsubscribe
    ensures Lists(d.order, c.items)
    ensures d.frames == c.frames + d.written && Asked(d.written, Subscribe) == {} && Asked(d.written, Unsubscribe) <= NamesOf(c.items)
    ensures d.o != Submitted ==> !BothPass(l, connected, c.control, c.items, missing, c.allowed, c.wire)
    ensures c.items == {} ==> d.o == Submitted && d.written == [] && d.control == c.control
  {
    hide Asked, NamesOf, CallPasses, Batches, RecordedAll, PlanOf, BatchCount, Allowance.After;
    NoneAsked(d.written, Unsubscribe, Subscribe);
  }

  lemma SamePasses(l: Limits, connected: bool, c: Control, d: Control, items: set<Subscription>, a: Allowance, wire: Wire)
    requires l.Valid()
    ensures c.active == d.active && c.pending == d.pending ==>
              (CallPasses(l, connected, c, Subscribe, items, a, wire) <==> CallPasses(l, connected, d, Subscribe, items, a, wire))
  {
    hide NamesOf, BatchCount, Allowance.Passes;
  }

  /** After both calls. */
  lemma PerformedBoth(l: Limits, connected: bool, c: Call, d: CallResult, missing: set<Subscription>, e: CallResult)
    requires l.Valid() && Performed(l, connected, c, d) && c.op == Unsubscribe && d.o == Submitted
    requires Performed(l, connected, Call(Subscribe, missing, c.wire.From(d.used), d.control, d.frames, d.allowed), e)
    ensures e.o == Submitted <==> BothPass(l, connected, c.control, c.items, missing, c.allowed, c.wire)
    ensures e.o == Submitted ==>
              && e.allowed == AfterBoth(c.allowed, l, c.items, missing, c.wire)
              && Lists(e.order, missing) && e.control == Synced(c.control, d.order, e.order, l.maxParams)
              && Asked(d.written + e.written, Subscribe) == NamesOf(missing) && Asked(d.written + e.written, Unsubscribe) == NamesOf(c.items)
    ensures e.frames == c.frames + (d.written + e.written)
    ensures Asked(d.written + e.written, Subscribe) <= NamesOf(missing) && Asked(d.written + e.written, Unsubscribe) <= NamesOf(c.items)
    ensures c.items == {} && missing == {} ==> e.o == Submitted && d.written + e.written == [] && e.control == c.control
  {
    hide Asked, NamesOf, Batches, RecordedAll, PlanOf, BatchCount, Allowance.After, CallPasses;
    UnsubscribingKeeps(c.control, Batches(PlanOf(d.order), l.maxParams));
    SamePasses(l, connected, c.control, d.control, missing, d.allowed, c.wire.From(d.used));
    NoneAsked(d.written, Unsubscribe, Subscribe);
    NoneAsked(e.written, Subscribe, Unsubscribe);
    AskedTogether(d.written, e.written, Subscribe);
    AskedTogether(d.written, e.written, Unsubscribe);
  }

  lemma NoneAsked(frames: seq<Frame>, op: Operation, other: Operation)
    requires op != other && forall f :: f in frames ==> f.op == op
    ensures Asked(frames, other) == {}
  {
  }

  lemma AskedTogether(a: seq<Frame>, b: seq<Frame>, op: Operation)
    ensures Asked(a + b, op) == Asked(a, op) + Asked(b, op)
  {
  }

  /** An UNSUBSCRIBE that is on its way changes neither what is active nor what is pending. */
  lemma {:induction false} UnsubscribingKeeps(c: Control, batches: seq<seq<Named>>)
    ensures var d := RecordedAll(c, Unsubscribe, batches);
            d.active == c.active && d.pending == c.pending
  {
    if batches != [] { UnsubscribingKeeps(c, batches[..|batches| - 1]); }
  }

  /** The outcome of a call says whether it passes. */
  lemma SendDecides(l: Limits, connected: bool, c: Control, op: Operation, items: set<Subscription>, plan: seq<Named>,
                    o: SendOutcome, sent: nat, a: Allowance, wire: Wire)
    requires l.Valid() && items != {} && StreamsOf(plan) == NamesOf(items) && |plan| == |items|
    requires o == NotConnected <==> !connected
    requires o == OverLimit <==> connected && op.Subscribe? && |Projected(c, plan)| > l.maxStreams
    requires o in {NotConnected, OverLimit} || Stopped(o, sent, |Batches(plan, l.maxParams)|, a, wire)
    ensures o == Submitted <==> CallPasses(l, connected, c, op, items, a, wire)
    ensures o == Submitted ==>
              sent == |Batches(plan, l.maxParams)| == BatchCount(|items|, l.maxParams) && forall i :: 0 <= i < sent ==> !wire.lost(i)
  {
    hide Stopped, StreamsOf, NamesOf, Batches, BatchCount;
    BatchesCounted(plan, l.maxParams);
    if o !in {NotConnected, OverLimit} {
      StoppedExactly(o, sent, |Batches(plan, l.maxParams)|, a, wire);
    }
  }

  lemma StoppedExactly(o: SendOutcome, sent: nat, count: nat, a: Allowance, wire: Wire)
    requires Stopped(o, sent, count, a, wire)
    ensures o == Submitted <==> forall i :: 0 <= i < count ==> a.Passes(wire, i)
    ensures o == Submitted ==> sent == count && forall i :: 0 <= i < count ==> !wire.lost(i)
  {
    hide Allowance.Grants;
    match o
    case Submitted =>
      forall i | 0 <= i < count ensures !wire.lost(i) { assert a.Passes(wire, i); }
    case NoBudget => assert !a.Passes(wire, sent);
    case SendFailed => assert !a.Passes(wire, sent - 1);
    case _ =>
  }

  lemma PlanNames(order: seq<Subscription>, items: set<Subscription>)
    requires forall sub :: sub in order <==> sub in items
    ensures StreamsOf(PlanOf(order)) == NamesOf(items)
  {
    hide StreamName;
    forall stream | stream in NamesOf(items) ensures stream in StreamsOf(PlanOf(order)) {
      var sub :| sub in items && StreamName(sub) == stream;
      InPlan(order, Named(stream, sub));
    }
    forall stream | stream in StreamsOf(PlanOf(order)) ensures stream in NamesOf(items) {
      var n :| n in PlanOf(order) && n.stream == stream;
      InPlan(order, n);
    }
  }

  /** What frames of recorded batches name: the streams of the batches that were not lost. */
  lemma {:induction false} FramesAsk(op: Operation, batches: seq<seq<Named>>, wire: Wire, first: int)
    ensures var frames := FramesOf(op, batches, wire, first);
            && (forall f :: f in frames ==> f.op == op)
            && forall stream :: stream in Asked(frames, op) <==> Written(batches, wire, stream)
  {
    hide Asked, StreamsOf, Streams;
    if batches == [] {
      NoneAsked([], Subscribe, Unsubscribe);
      NoneAsked([], Unsubscribe, Subscribe);
    } else {
      var init, last := batches[..|batches| - 1], |batches| - 1;
      FramesAsk(op, init, wire, first);
      var frame := Frame(first + last, op, Streams(batches[last]));
      var earlier := FramesOf(op, init, wire, first);
      if wire.lost(last) {
        assert FramesOf(op, batches, wire, first) == earlier;
      } else {
        assert FramesOf(op, batches, wire, first) == earlier + [frame];
        AskedTogether(earlier, [frame], op);
        OneFrameAsks(frame, batches[last]);
      }
      hide FramesOf, Written;
      forall stream { WrittenLast(batches, wire, stream); }
    }
  }

  /** A batch that was not lost names the stream. */
  ghost predicate Written(batches: seq<seq<Named>>, wire: Wire, stream: string) {
    exists i :: 0 <= i < |batches| && !wire.lost(i) && stream in StreamsOf(batches[i])
  }

  lemma WrittenLast(batches: seq<seq<Named>>, wire: Wire, stream: string)
    requires batches != []
    ensures var last := |batches| - 1;
            Written(batches, wire, stream) <==>
              Written(batches[..last], wire, stream) || (!wire.lost(last) && stream in StreamsOf(batches[last]))
  {
    hide StreamsOf;
    var init := batches[..|batches| - 1];
    if Written(init, wire, stream) {
      var i :| 0 <= i < |init| && !wire.lost(i) && stream in StreamsOf(init[i]);
      assert batches[i] == init[i];
    }
    if Written(batches, wire, stream) {
      var i :| 0 <= i < |batches| && !wire.lost(i) && stream in StreamsOf(batches[i]);
      assert i < |init| ==> init[i] == batches[i];
    }
  }

  lemma OneFrameAsks(frame: Frame, batch: seq<Named>)
    requires frame.streams == Streams(batch)
    ensures Asked([frame], frame.op) == StreamsOf(batch)
  {
    forall stream | stream in StreamsOf(batch) ensures stream in frame.streams {
      var n :| n in batch && n.stream == stream;
      var i :| 0 <= i < |batch| && batch[i] == n;
      assert frame.streams[i] == stream;
    }
    forall stream | stream in frame.streams ensures stream in StreamsOf(batch) {
      var i :| 0 <= i < |frame.streams| && frame.streams[i] == stream;
      assert batch[i] in batch;
    }
  }

  lemma WrittenAsk(op: Operation, plan: seq<Named>, size: int, sent: nat, wire: Wire, first: int)
    requires size >= 1 && sent <= |Batches(plan, size)|
    ensures var written := FramesOf(op, Batches(plan, size)[..sent], wire, first);
            && (forall f :: f in written ==> f.op == op)
            && Asked(written, op) <= StreamsOf(plan)
            && (sent == |Batches(plan, size)| && (forall i :: 0 <= i < sent ==> !wire.lost(i)) ==> Asked(written, op) == StreamsOf(plan))
  {
    var batches := Batches(plan, size);
    FramesAsk(op, batches[..sent], wire, first);
    BatchesCover(plan, size);
    hide Asked, FramesOf, Batches;
    var written := FramesOf(op, batches[..sent], wire, first);
    forall stream | stream in Asked(written, op) ensures stream in StreamsOf(plan) {
      assert Written(batches[..sent], wire, stream);
      var i :| 0 <= i < sent && !wire.lost(i) && stream in StreamsOf(batches[..sent][i]);
      assert batches[i] in batches;
    }
    if sent == |batches| && forall i :: 0 <= i < sent ==> !wire.lost(i) {
      forall stream | stream in StreamsOf(plan) ensures stream in Asked(written, op) {
        var n :| n in plan && n.stream == stream;
        var batch :| batch in batches && n in batch;
        var i :| 0 <= i < |batches| && batches[i] == batch;
        assert batches[..sent][i] == batch && stream in StreamsOf(batch);
        assert Written(batches[..sent], wire, stream);
      }
    }
  }

  /** The list holds the items, each once. */
  ghost predicate Lists(list: seq<Subscription>, items: set<Subscription>) {
    (forall sub :: sub in list <==> sub in items) && |list| == |items|
  }

  /** Batches for so many subscriptions: the quotient, rounded up. */
  function BatchCount(n: nat, size: int): nat
    requires size >= 1
  {
    if n == 0 then 0 else if n <= size then 1 else 1 + BatchCount(n - size, size)
  }

  lemma {:induction false} BatchesCounted(plan: seq<Named>, size: int)
    requires size >= 1
    ensures |Batches(plan, size)| == BatchCount(|plan|, size)
  {
    if |plan| > size { BatchesCounted(plan[size..], size); }
  }

  function NamesOf(items: set<Subscription>): set<string> { set sub | sub in items :: StreamName(sub) }

  /** The streams that frames of an operation name. */
  function Asked(frames: seq<Frame>, op: Operation): set<string> {
    set f, stream | f in frames && f.op == op && stream in f.streams :: stream
  }

  /** A call succeeds: there is nothing to send, or it is connected, within the limit, and every batch is granted and written. */
  ghost predicate CallPasses(l: Limits, connected: bool, c: Control, op: Operation, items: set<Subscription>, a: Allowance, wire: Wire)
    requires l.Valid()
  {
    items == {} ||
    (&& connected
     && (op.Subscribe? ==> |c.active.Keys + c.pending.Keys + NamesOf(items)| <= l.maxStreams)
     && forall i :: 0 <= i < BatchCount(|items|, l.maxParams) ==> a.Passes(wire, i))
  }

  lemma SortedMembers(order: seq<Subscription>, items: set<Subscription>)
    requires SortedBy(order, items, StreamName)
    ensures forall sub :: sub in order <==> sub in items
  {
  }

  /** The subscriptions under some keys of a table. */
  lemma LeavingMembers(subs: map<SubscriptionKey, Subscription>, keys: set<SubscriptionKey>)
    requires Keyed(subs) && keys <= subs.Keys
    ensures forall sub :: sub in (set key | key in keys :: subs[key]) <==> sub in subs.Values && KeyOf(sub) in keys
  {
    hide KeyOf;
    forall sub | sub in subs.Values && KeyOf(sub) in keys ensures subs[KeyOf(sub)] == sub {
      var key :| key in subs && subs[key] == sub;
    }
  }

  // ---------------------------------------------------------------- rounds through the supervisor

  /** Confirmed is what the adapter holds active, and nothing is in flight on either side. */
  ghost predicate Reconciled(k: SubscriptionCoordinator)
    reads k, k.adapter
  {
    && k.active == ByKey(k.adapter.active.Values) && k.pendingUnsubscribes == {}
    && k.adapter.controlRequests == map[] && ActiveNamed(k.adapter.State())
  }

  /** From a reconciled state: synchronize, then mirror every acknowledgement, as the observer that the supervisor installs
      does. If no limit or budget stops the calls and every reply is positive, then, whatever order the replies come in, once
      nothing is outstanding exactly the desired subscriptions are active, on both sides, and the state is reconciled again. */
  method Round(k: SubscriptionCoordinator, wire: Wire, replies: seq<Payload>) returns (o: SendOutcome)
    requires k.Valid() && k.adapter.Valid() && Reconciled(k) && wire.Monotonic(k.adapter.budget.latest)
    modifies k, k.adapter, k.adapter.budget`latest, k.adapter.budget.control
    ensures k.Valid() && k.adapter.Valid() && k.desired == old(k.desired)
    ensures k.active == ByKey(k.adapter.active.Values)
    ensures o == Submitted <==> old(k.CanSync(wire, k.adapter.connected))
    ensures o == Submitted && AllPositive(replies) && k.adapter.controlRequests == map[]
            && NamesDistinct(old(k.desired.Values + k.adapter.active.Values)) ==>
              k.active == k.desired && Reconciled(k)
  {
    hide Run, ByKey, Synced, RepliedAll, KeyOf, NamesDistinct, ActiveNamed, AllPositive, Replied, BothPass, Asked, NamesOf, Lists, Reconciling, AfterBoth;
    ghost var before := k.adapter.State();
    var drop, add;
    ghost var written;
    o, drop, add, written := k.SyncWithAdapter(wire);
    if o != Submitted {
      return;
    }
    ObserveAll(k, replies);
    if AllPositive(replies) && k.adapter.controlRequests == map[] && NamesDistinct(k.desired.Values + before.active.Values) {
      ListsReconcile(before, ByKey(before.active.Values), k.desired, drop, add);
      RoundConverges(before, k.desired.Values, drop, add, k.adapter.limits.maxParams, replies);
      SameValues(k.active, k.desired);
    }
  }

  /** Keys tell subscriptions apart, so comparing keys is comparing subscriptions. */
  lemma SplitByKey(active: map<SubscriptionKey, Subscription>, desired: map<SubscriptionKey, Subscription>)
    requires Keyed(active) && Keyed(desired)
    ensures forall sub :: sub in active.Values && KeyOf(sub) in active.Keys - desired.Keys <==> sub in active.Values - desired.Values
  {
    hide KeyOf;
    KeysIdentify();
    forall sub | sub in active.Values ensures KeyOf(sub) in active.Keys && (KeyOf(sub) in desired.Keys <==> sub in desired.Values) {
      var key :| key in active && active[key] == sub;
      if KeyOf(sub) in desired.Keys { assert desired[KeyOf(sub)] == sub; }
    }
  }

  lemma ListsReconcile(c: Control, active: map<SubscriptionKey, Subscription>, desired: map<SubscriptionKey, Subscription>,
                       drop: seq<Subscription>, add: seq<Subscription>)
    requires c.requests == map[] && ActiveNamed(c) && Keyed(active) && Keyed(desired) && active.Values == c.active.Values
    requires Lists(add, desired.Values - active.Values)
    requires exists leaving :: Lists(drop, leaving)
               && forall sub :: sub in leaving <==> sub in active.Values && KeyOf(sub) in active.Keys - desired.Keys
    ensures Reconciling(c, desired.Values, drop, add)
  {
    hide KeyOf, ActiveNamed;
    SplitByKey(active, desired);
  }

  /** The replies, in order. */
  method ObserveAll(k: SubscriptionCoordinator, replies: seq<Payload>)
    requires k.Valid() && k.adapter.Valid() && k.active == ByKey(k.adapter.active.Values)
    requires k.pendingUnsubscribes <= k.active.Keys && k.pendingUnsubscribes !! k.desired.Keys
    modifies k, k.adapter
    ensures k.Valid() && k.adapter.Valid() && k.active == ByKey(k.adapter.active.Values)
    ensures k.adapter.State() == RepliedAll(old(k.adapter.State()), replies) && k.desired == old(k.desired)
    ensures k.pendingUnsubscribes <= k.active.Keys && k.pendingUnsubscribes !! k.desired.Keys
  {
    hide Run, ByKey, RepliedAll, Replied;
    ghost var before := k.adapter.State();
    NothingReplied(before);
    for i := 0 to |replies|
      invariant k.Valid() && k.adapter.Valid() && k.desired == old(k.desired)
      invariant k.active == ByKey(k.adapter.active.Values)
      invariant k.adapter.State() == RepliedAll(before, replies[..i])
      invariant k.pendingUnsubscribes <= k.active.Keys && k.pendingUnsubscribes !! k.desired.Keys
    {
      assert replies[..i + 1] == replies[..i] + [replies[i]];
      RepliedLast(before, replies[..i], replies[i]);
      Observe(k, replies[i]);
    }
    assert replies[..|replies|] == replies;
  }

  /** One reply, and the observer. */
  method Observe(k: SubscriptionCoordinator, p: Payload)
    requires k.Valid() && k.adapter.Valid() && k.active == ByKey(k.adapter.active.Values)
    modifies k, k.adapter
    ensures k.Valid() && k.adapter.Valid() && k.active == ByKey(k.adapter.active.Values)
    ensures k.adapter.State() == Replied(old(k.adapter.State()), p)
    ensures k.desired == old(k.desired)
    ensures k.pendingUnsubscribes ==
              if old(Answered(k.adapter.State(), p).Some?) && !Rejects(p) then old(k.pendingUnsubscribes) * k.active.Keys
              else old(k.pendingUnsubscribes)
    ensures old(k.pendingUnsubscribes <= k.active.Keys) ==> k.pendingUnsubscribes <= k.active.Keys
  {
    hide Run, ByKey, Settled;
    var observed := k.adapter.HandleControlMessage(p);
    if observed.Some? {
      k.ReconcileConfirmed(observed.value);
    }
  }

  /** A new connection: the control state is that of the old one, and only what does not count as active is asked for. */
  method Reconnect(k: SubscriptionCoordinator, now: real, opens: bool, wire: Wire) returns (o: Option<SendOutcome>)
    requires k.Valid() && k.adapter.Valid() && k.adapter.budget.latest <= now && wire.Monotonic(now)
    modifies k, k.adapter, k.adapter.budget`latest, k.adapter.budget.control, k.adapter.budget.connections
    ensures k.Valid() && k.adapter.Valid() && k.desired == old(k.desired) && k.active == old(k.active)
    ensures o.Some? <==> opens && old(k.adapter.CanConnect(now))
    ensures o == Some(Submitted) <==> opens && old(k.adapter.CanConnect(now)) && old(k.CanSync(wire, true))
    ensures o.Some? ==> k.adapter.connected && Asked(k.adapter.frames, Subscribe) <= NamesOf(k.GetMissing())
    ensures o == Some(Submitted) ==>
              && Asked(k.adapter.frames, Subscribe) == NamesOf(k.GetMissing())
              && Asked(k.adapter.frames, Unsubscribe) == NamesOf(old(k.Leaving()))
    ensures o == Some(Submitted) && NamesDistinct(k.desired.Values) ==>
              AskedExactly(k.desired.Values, k.active.Values, Asked(k.adapter.frames, Subscribe))
    ensures o.Some? && k.active == k.desired ==> o.value == Submitted && k.adapter.frames == []
  {
    hide Run, BothPass, Asked, NamesOf, StreamName, Synced, KeyOf, BinanceWebSocketAdapter.CanConnect, Lists, Keyed, AfterBoth, NamesDistinct, AskedExactly;
    hide SubscriptionCoordinator.Leaving, SubscriptionCoordinator.CanSync;
    var ok := Reopen(k, now, opens, wire);
    if !ok {
      return None;
    }
    ghost var written;
    var sent, drop, add;
    sent, drop, add, written := k.SyncWithAdapter(wire);
    assert k.adapter.frames == written;
    if NamesDistinct(k.desired.Values) {
      RequestedExactly(k.desired.Values, k.active.Values);
    }
    return Some(sent);
  }

  /** The connection alone: what a synchronization would do is as before, only that it is connected. */
  method Reopen(k: SubscriptionCoordinator, now: real, opens: bool, ghost wire: Wire) returns (ok: bool)
    requires k.Valid() && k.adapter.Valid() && k.adapter.budget.latest <= now
    modifies k.adapter`connected, k.adapter`frames, k.adapter.budget`latest, k.adapter.budget.connections
    ensures k.Valid() && k.adapter.Valid() && k.adapter.budget.latest == now
    ensures ok <==> opens && old(k.adapter.CanConnect(now))
    ensures ok ==> k.adapter.connected && k.adapter.frames == []
    ensures k.Leaving() == old(k.Leaving()) && (k.CanSync(wire, true) <==> old(k.CanSync(wire, true)))
    ensures k.active == k.desired ==> k.Leaving() == {} && k.GetMissing() == {}
  {
    hide Run, BothPass, KeyOf, BinanceWebSocketAdapter.CanConnect, Keyed;
    ok := k.adapter.Connect(now, opens);
  }

  /** A desired stream is asked for exactly when its subscription is not active; so all are exactly when none is. */
  ghost predicate AskedExactly(desired: set<Subscription>, active: set<Subscription>, asked: set<string>) {
    && (forall sub :: sub in desired ==> (StreamName(sub) in asked <==> sub !in active))
    && (NamesOf(desired) <= asked <==> desired !! active)
  }

  /** That is so when names are distinct. */
  lemma RequestedExactly(desired: set<Subscription>, active: set<Subscription>)
    requires NamesDistinct(desired)
    ensures AskedExactly(desired, active, NamesOf(desired - active))
  {
    hide StreamName;
    if NamesOf(desired) <= NamesOf(desired - active) {
      forall sub | sub in desired ensures sub !in active {
        assert StreamName(sub) in NamesOf(desired);
      }
    }
    if desired !! active {
      assert desired - active == desired;
    }
  }

  // ---------------------------------------------------------------- removals that are never repeated

  /** The pending removals after a series of reconciliations. */
  function PendingAfter(pending: set<SubscriptionKey>, confirmed: seq<set<Subscription>>): set<SubscriptionKey> {
    if confirmed == [] then pending else PendingAfter(pending, confirmed[..|confirmed| - 1]) * ByKey(confirmed[|confirmed| - 1]).Keys
  }

  /** A removal stays pending exactly as long as its subscription is confirmed every time. So a rejected UNSUBSCRIBE, which leaves
      the subscription active, is not sent again: a synchronization skips pending removals. */
  lemma {:induction false} RemovalStaysPending(pending: set<SubscriptionKey>, confirmed: seq<set<Subscription>>, sub: Subscription)
    requires KeyOf(sub) in pending
    ensures KeyOf(sub) in PendingAfter(pending, confirmed) <==> forall i :: 0 <= i < |confirmed| ==> sub in confirmed[i]
  {
    hide KeyOf, ByKey;
    if confirmed != [] {
      var init, last := confirmed[..|confirmed| - 1], confirmed[|confirmed| - 1];
      RemovalStaysPending(pending, init, sub);
      KeyConfirmed(last, sub);
      assert PendingAfter(pending, confirmed) == PendingAfter(pending, init) * ByKey(last).Keys;
      hide PendingAfter;
    }
  }

  lemma KeyConfirmed(confirmed: set<Subscription>, sub: Subscription)
    ensures KeyOf(sub) in ByKey(confirmed) <==> sub in confirmed
  {
    var subs := ByKey(confirmed);
    hide KeyOf, ByKey;
    KeysIdentify();
    if sub in subs.Values {
      var key :| key in subs && subs[key] == sub;
    }
    if KeyOf(sub) in subs {
      assert KeyOf(subs[KeyOf(sub)]) == KeyOf(sub);
    }
  }

  // ---------------------------------------------------------------- shards

  /** `StreamSubscription.key` after the fixed exchange and market. */
  function KeyText(sub: Subscription): string { sub.symbol.Text() + (":" + KindText(sub.kind)) }

  function KindText(kind: Kind): string {
    match kind
    case Trade => "trade"
    case Ticker => "ticker"
    case Kline(interval) => "kline:" + interval
  }

  /** The texts of the three kinds, behind the exchange and the market, which are the same for all. */
  lemma KeyTexts(symbol: MarketSymbol, interval: string)
    requires SpotSymbol(symbol) && interval != ""
    ensures KeyText(Subscription(symbol, Trade)) == symbol.base + "/" + symbol.quote + ":trade"
    ensures KeyText(Subscription(symbol, Ticker)) == symbol.base + "/" + symbol.quote + ":ticker"
    ensures KeyText(Subscription(symbol, Kline(interval))) == symbol.base + "/" + symbol.quote + ":kline:" + interval
  {
    var text := symbol.Text();
    assert text == symbol.base + "/" + symbol.quote;
    assert ":" + "trade" == ":trade" && ":" + "ticker" == ":ticker" && ":" + ("kline:" + interval) == ":kline:" + interval;
  }

  lemma KeyTextIdentifies(a: Subscription, b: Subscription)
    requires KeyText(a) == KeyText(b)
    ensures a == b
  {
    SpotIsCanonical(a.symbol);
    SpotIsCanonical(b.symbol);
    SymbolOrder(a.symbol, b.symbol);
    NoColon(a.symbol);
    NoColon(b.symbol);
    SplitAt(':', a.symbol.Text(), KindText(a.kind), b.symbol.Text(), KindText(b.kind));
    var s, t := KindText(a.kind), KindText(b.kind);
    assert s[0] == t[0] && s[1] == t[1];
    if a.kind.Kline? { assert a.kind.interval == s[6..] == t[6..]; }
  }

  lemma NoColon(symbol: MarketSymbol)
    requires SpotSymbol(symbol)
    ensures ':' !in symbol.Text()
  {
    var text := symbol.Text();
    forall i | 0 <= i < |text| ensures text[i] != ':' {
      assert text[i] == if i < |symbol.base| then symbol.base[i] else if i == |symbol.base| then '/' else symbol.quote[i - |symbol.base| - 1];
    }
  }

  /** The list by key is unique, so shards depend on the desired set alone. */
  lemma {:induction false} SortedUnique(s: seq<Subscription>, t: seq<Subscription>, items: set<Subscription>)
    requires SortedBy(s, items, KeyText) && SortedBy(t, items, KeyText)
    ensures s == t
  {
    hide KeyText, LexLess;
    SortedEmpty(s, items, KeyText);
    SortedEmpty(t, items, KeyText);
    if s != [] {
      assert s[0] in t;
      var i :| 0 <= i < |t| && t[i] == s[0];
      assert t[0] in s;
      var j :| 0 <= j < |s| && s[j] == t[0];
      LexTotal(KeyText(s[0]), KeyText(t[0]));
      if s[0] != t[0] && KeyText(s[0]) == KeyText(t[0]) { KeyTextIdentifies(s[0], t[0]); }
      assert s[0] == t[0];
      SortedTail(s, items, KeyText);
      SortedTail(t, items, KeyText);
      SortedUnique(s[1..], t[1..], items - {s[0]});
      assert s == [s[0]] + s[1..] && t == [t[0]] + t[1..];
    }
  }

  function Concatenated(shards: seq<seq<Subscription>>): seq<Subscription> {
    if shards == [] then [] else Concatenated(shards[..|shards| - 1]) + shards[|shards| - 1]
  }

  lemma ConcatenatedMore(shards: seq<seq<Subscription>>, shard: seq<Subscription>)
    ensures Concatenated(shards + [shard]) == Concatenated(shards) + shard
  {
    assert (shards + [shard])[..|shards|] == shards;
  }

  /** The desired subscriptions by key, cut into full shards and one remainder that is not empty. */
  method GetShards(k: SubscriptionCoordinator) returns (shards: seq<seq<Subscription>>, order: seq<Subscription>)
    requires k.Valid()
    ensures SortedBy(order, k.desired.Values, KeyText) && Concatenated(shards) == order
    ensures forall i :: 0 <= i < |shards| - 1 ==> |shards[i]| == k.maxStreams
    ensures shards != [] ==> 1 <= |shards[|shards| - 1]| <= k.maxStreams
  {
    hide LexLess, SortedBy, KeyText;
    order := Ordered(k.desired.Values, KeyText);
    shards := Cut(order, k.maxStreams);
  }

  method Cut(order: seq<Subscription>, size: int) returns (shards: seq<seq<Subscription>>)
    requires size >= 1
    ensures Concatenated(shards) == order
    ensures forall i :: 0 <= i < |shards| - 1 ==> |shards[i]| == size
    ensures shards != [] ==> 1 <= |shards[|shards| - 1]| <= size
  {
    shards := [];
    var current: seq<Subscription> := [];
    assert Concatenated([]) == [];
    hide Concatenated;
    for i := 0 to |order|
      invariant Concatenated(shards) + current == order[..i]
      invariant forall j :: 0 <= j < |shards| ==> |shards[j]| == size
      invariant |current| <= size && (i > 0 ==> current != [])
    {
      if |current| >= size {
        ConcatenatedMore(shards, current);
        shards := shards + [current];
        current := [];
      }
      assert order[..i + 1] == order[..i] + [order[i]];
      assert Concatenated(shards) + (current + [order[i]]) == (Concatenated(shards) + current) + [order[i]];
      current := current + [order[i]];
    }
    assert order[..|order|] == order;
    if current != [] {
      ConcatenatedMore(shards, current);
      shards := shards + [current];
    }
  }

  // ---------------------------------------------------------------- concrete runs

  const TRADES: Subscription := Subscription(MarketSymbol("BTC", "USDT"), Trade)
  const NAME := StreamName(TRADES)
  const STEADY := Wire((i: nat) => 1.0, (i: nat) => false)

  lemma {:induction false} RecentAtMost(grants: seq<real>, now: real, window: real)
    ensures RateLimit.RecentCount(grants, now, window) <= |grants|
  {
    if grants != [] { RecentAtMost(grants[..|grants| - 1], now, window); }
  }

  lemma {:induction false} GrantsAtMost(readings: seq<real>, maximum: int, window: real)
    ensures |RateLimit.Grants(readings, maximum, window)| <= |readings|
  {
    hide RateLimit.RecentCount;
    if readings != [] { GrantsAtMost(readings[..|readings| - 1], maximum, window); }
  }

  /** A budget that has seen fewer readings than it allows grants. */
  lemma FewPass(a: Allowance, wire: Wire, i: nat)
    requires |a.readings| + i < a.maximum && !wire.lost(i)
    ensures a.Passes(wire, i)
  {
    GrantsAtMost(a.After(wire, i).readings, a.maximum, a.window);
    RecentAtMost(RateLimit.Grants(a.After(wire, i).readings, a.maximum, a.window), wire.clock(i), a.window);
  }

  lemma FirstConnection(a: RateLimit.AttemptDeque, window: real)
    requires a.readings == []
    ensures RateLimit.RecentCount(RateLimit.Grants(a.readings, 240, window), 0.0, window) < 240
  {
  }

  /** The control states of the runs below. */
  const AFTER_SUBSCRIBE := Control(map[], map[NAME := TRADES], {}, map[1 := Request(Subscribe, [Named(NAME, TRADES)])], map[], 2)
  const CONVERGED := Control(map[NAME := TRADES], map[], {}, map[], map[], 2)

  lemma OneItem(list: seq<Subscription>, items: set<Subscription>)
    requires Lists(list, items) && items == {TRADES}
    ensures list == [TRADES]
  {
    assert list[0] in list;
  }

  lemma NoItem(list: seq<Subscription>, items: set<Subscription>)
    requires Lists(list, items) && items == {}
    ensures list == []
  {
  }

  lemma SubscribedOne(size: int)
    requires size >= 1
    ensures Synced(INITIAL, [], [TRADES], size) == AFTER_SUBSCRIBE
    ensures Replied(AFTER_SUBSCRIBE, Positive(1)) == CONVERGED
  {
    var n := Named(NAME, TRADES);
    assert PlanOf([TRADES]) == [n] && PlanOf([]) == [];
    assert Batches([n], size) == [[n]] && Batches([], size) == [];
    hide StreamName, PlanOf, Batches;
    RecordedNone(INITIAL, Unsubscribe);
    RecordedOneMore(INITIAL, Subscribe, [], [n]);
    RecordedNone(INITIAL, Subscribe);
    assert [] + [[n]] == [[n]];
    RecordedOne(INITIAL, n);
    RepliedOne(AFTER_SUBSCRIBE, 1, n);
  }

  /** A coordinator of one wanted subscription on a fresh connection. */
  method ConnectedExample() returns (k: SubscriptionCoordinator)
    ensures fresh(k) && fresh(k.adapter) && fresh(k.adapter.budget) && fresh(k.adapter.budget.control) && fresh(k.adapter.budget.connections)
    ensures k.Valid() && k.adapter.Valid() && k.adapter.limits == Limits(500, 100) && k.adapter.connected && k.adapter.budget.latest == 0.0
    ensures k.desired.Values == {TRADES} && k.active == map[] && k.pendingUnsubscribes == {} && k.adapter.State() == INITIAL
    ensures k.adapter.Allowed() == Allowance([], 4, 1.0)
    ensures k.adapter.budget.maxConnections == 240 && |k.adapter.budget.connections.readings| == 1
  {
    hide StreamName, KeyOf, Run, RateLimit.Grants, RateLimit.RecentCount;
    var budget := new RateLimit.WebSocketRateBudget(4, 1.0, 240, 300.0);
    var adapter := new BinanceWebSocketAdapter(Limits(500, 100), budget);
    k := new SubscriptionCoordinator(adapter, 500);
    k.AddSubscription(TRADES);
    FirstConnection(budget.connections, 300.0);
    var ok := adapter.Connect(0.0, true);
  }

  /** The subscription is requested, acknowledged and mirrored. */
  method ConvergeExample(k: SubscriptionCoordinator)
    requires k.Valid() && k.adapter.Valid() && k.adapter.limits == Limits(500, 100) && k.adapter.connected && k.adapter.budget.latest == 0.0
    requires k.desired.Values == {TRADES} && k.active == map[] && k.pendingUnsubscribes == {} && k.adapter.State() == INITIAL
    requires k.adapter.Allowed() == Allowance([], 4, 1.0)
    modifies k, k.adapter, k.adapter.budget`latest, k.adapter.budget.control
    ensures k.Valid() && k.adapter.Valid() && k.adapter.State() == AFTER_SUBSCRIBE && k.adapter.connected
    ensures k.desired == old(k.desired) && k.active == map[] && k.pendingUnsubscribes == {}
    ensures k.adapter.Allowed() == Allowance([1.0], 4, 1.0) && k.adapter.budget.latest <= 1.0
  {
    hide StreamName, KeyOf, Run, Synced, Asked, NamesOf, Lists, BothPass, Keyed, AfterBoth, Limits.Valid, AFTER_SUBSCRIBE, RateLimit.Grants, RateLimit.RecentCount;
    assert k.Leaving() == {} && k.GetMissing() == {TRADES};
    ExamplePasses(k.adapter.limits, INITIAL, k.adapter.Allowed());
    var o, drop, add;
    ghost var written;
    o, drop, add, written := k.SyncWithAdapter(STEADY);
    NoItem(drop, {});
    OneItem(add, {TRADES});
    SubscribedOne(100);
    OneReading(k.adapter.Allowed());
  }

  lemma OneValue()
    ensures CONVERGED.active.Values == {TRADES} && (map[KeyOf(TRADES) := TRADES]).Values == {TRADES}
  {
    hide KeyOf;
    assert CONVERGED.active[NAME] == TRADES && (map[KeyOf(TRADES) := TRADES])[KeyOf(TRADES)] == TRADES;
  }

  lemma OneReading(a: Allowance)
    requires a == AfterBoth(Allowance([], 4, 1.0), Limits(500, 100), {}, {TRADES}, STEADY)
    ensures a == Allowance([1.0], 4, 1.0)
  {
    hide StreamName;
    ReadingsOneMore(STEADY, 0);
    ReadingsOneMore(STEADY.From(0), 0);
  }

  lemma PositiveAnswers(c: Control, id: int)
    requires id in c.requests
    ensures Answered(c, Positive(id)) == Some(id) && !Rejects(Positive(id))
  {
  }

  /** One SUBSCRIBE and no UNSUBSCRIBE pass. */
  lemma ExamplePasses(l: Limits, c: Control, a: Allowance)
    requires l == Limits(500, 100) && c == INITIAL && a == Allowance([], 4, 1.0)
    ensures BothPass(l, true, c, {}, {TRADES}, a, STEADY)
  {
    hide StreamName, Allowance.Passes;
    assert NamesOf({TRADES}) == {NAME};
    ReadingsOneMore(STEADY, 0);
    FewPass(a.After(STEADY, 0), STEADY.From(0), 0);
  }

  /** One subscription was wanted, requested, acknowledged and mirrored: a converged state. */
  method ConvergedExample() returns (k: SubscriptionCoordinator)
    ensures fresh(k) && fresh(k.adapter) && fresh(k.adapter.budget) && fresh(k.adapter.budget.control) && fresh(k.adapter.budget.connections)
    ensures k.Valid() && k.adapter.Valid() && k.adapter.limits == Limits(500, 100) && k.adapter.connected && k.adapter.budget.latest <= 1.0
    ensures k.desired.Values == {TRADES} && k.active == k.desired && k.pendingUnsubscribes == {} && k.adapter.State() == CONVERGED
    ensures k.adapter.Allowed() == Allowance([1.0], 4, 1.0)
    ensures k.adapter.budget.maxConnections == 240 && |k.adapter.budget.connections.readings| == 1
  {
    hide StreamName, KeyOf, Run, ByKey, Replied, Positive, RateLimit.Grants, RateLimit.RecentCount;
    k := ConnectedExample();
    ConvergeExample(k);
    PositiveAnswers(AFTER_SUBSCRIBE, 1);
    SubscribedOne(100);
    var observed := k.adapter.HandleControlMessage(Positive(1));
    k.ReconcileConfirmed(observed.value);
    OneValue();
    SameValues(k.active, k.desired);
  }

  /** Concretely: after a reconnect from the converged state the new connection was asked for nothing. */
  method ReconnectWitness() returns (k: SubscriptionCoordinator)
    ensures k.Valid() && k.adapter.connected && k.desired.Values == {TRADES} && k.adapter.frames == []
  {
    hide StreamName, Run, RateLimit.Grants, RateLimit.RecentCount, BothPass, Asked, NamesOf;
    k := ConvergedExample();
    SecondConnection(k.adapter.budget.connections, k.adapter.budget.connectionWindow);
    var o := Reconnect(k, 1.0, true, STEADY);
    assert o.Some?;
  }

  lemma SecondConnection(a: RateLimit.AttemptDeque, window: real)
    requires |a.readings| == 1
    ensures RateLimit.RecentCount(RateLimit.Grants(a.readings, 240, window), 1.0, window) < 240
  {
    GrantsAtMost(a.readings, 240, window);
    RecentAtMost(RateLimit.Grants(a.readings, 240, window), 1.0, window);
  }

  const AFTER_UNSUBSCRIBE :=
    Control(map[NAME := TRADES], map[], {NAME}, map[2 := Request(Unsubscribe, [Named(NAME, TRADES)])], map[], 3)
  const REJECTED := Control(map[NAME := TRADES], map[], {}, map[], map[2 := NO_DETAIL], 3)

  lemma UnsubscribedOne(size: int)
    requires size >= 1
    ensures Synced(CONVERGED, [TRADES], [], size) == AFTER_UNSUBSCRIBE
    ensures Replied(AFTER_UNSUBSCRIBE, Negative(2)) == REJECTED
  {
    var n := Named(NAME, TRADES);
    assert PlanOf([TRADES]) == [n] && PlanOf([]) == [];
    assert Batches([n], size) == [[n]] && Batches([], size) == [];
    hide StreamName, PlanOf, Batches;
    RecordedNone(CONVERGED, Unsubscribe);
    RecordedOneMore(CONVERGED, Unsubscribe, [], [n]);
    assert [] + [[n]] == [[n]];
    OneStream(n, map[]);
    RecordedNone(AFTER_UNSUBSCRIBE, Subscribe);
    hide RecordedAll, StreamsOf;
    assert Recorded(CONVERGED, Request(Unsubscribe, [n])) == AFTER_UNSUBSCRIBE;
    RejectedOne(n);
  }

  lemma RejectedOne(n: Named)
    requires n == Named(NAME, TRADES)
    ensures Replied(AFTER_UNSUBSCRIBE, Negative(2)) == REJECTED
  {
    hide StreamName;
    OneStream(n, map[]);
    hide StreamsOf;
    assert AFTER_UNSUBSCRIBE.requests - {2} == map[];
  }

  lemma RemovalPasses(a: Allowance)
    requires a == Allowance([1.0], 4, 1.0)
    ensures BothPass(Limits(500, 100), true, CONVERGED, {TRADES}, {}, a, STEADY)
  {
    FewPass(a, STEADY, 0);
    hide StreamName, Allowance.Passes;
  }

  /** The subscription is no longer wanted: its UNSUBSCRIBE is sent. */
  method DropExample() returns (k: SubscriptionCoordinator, ghost first: seq<Frame>)
    ensures fresh(k) && fresh(k.adapter) && fresh(k.adapter.budget) && fresh(k.adapter.budget.control) && fresh(k.adapter.budget.connections)
    ensures k.Valid() && k.adapter.Valid() && k.adapter.limits == Limits(500, 100) && k.adapter.budget.latest <= 1.0
    ensures k.desired == map[] && k.active == map[KeyOf(TRADES) := TRADES] && k.pendingUnsubscribes == {KeyOf(TRADES)}
    ensures k.adapter.State() == AFTER_UNSUBSCRIBE && Asked(first, Unsubscribe) == {NAME}
  {
    hide StreamName, KeyOf, Run, ByKey, Synced, BothPass, Lists, AfterBoth, Asked, NamesOf;
    k := ConvergedExample();
    k.RemoveSubscription(TRADES);
    Emptied(k.active, k.desired);
    RemovalPasses(k.adapter.Allowed());
    assert k.Leaving() == {TRADES} && k.GetMissing() == {};
    var o, drop, add;
    o, drop, add, first := k.SyncWithAdapter(STEADY);
    OneItem(drop, {TRADES});
    NoItem(add, {});
    UnsubscribedOne(100);
    OneName();
  }

  /** Concretely: the subscription is dropped, its UNSUBSCRIBE is rejected, and the next synchronization sends nothing although
      the stream is still active and nothing is desired. */
  method RejectedRemovalWitness() returns (k: SubscriptionCoordinator, ghost first: seq<Frame>, ghost second: seq<Frame>)
    ensures k.Valid() && k.desired == map[] && NAME in k.adapter.active && k.adapter.controlRequests == map[]
    ensures Asked(first, Unsubscribe) == {NAME} && second == []
  {
    hide StreamName, KeyOf, Run, ByKey, Replied, Synced, BothPass, Lists, AfterBoth, Asked, NamesOf;
    k, first := DropExample();
    OneValue();
    ByKeyOf(k.adapter.active.Values, k.active);
    UnsubscribedOne(100);
    Observe(k, Negative(2));
    ByKeyOf(k.adapter.active.Values, map[KeyOf(TRADES) := TRADES]);
    assert k.Leaving() == {};
    var o, drop, add;
    o, drop, add, second := k.SyncWithAdapter(STEADY);
  }

  lemma OneName()
    ensures NamesOf({TRADES}) == {NAME}
  {
    hide StreamName;
  }

  lemma ByKeyOf(confirmed: set<Subscription>, active: map<SubscriptionKey, Subscription>)
    requires Keyed(active) && active.Values == confirmed
    ensures active == ByKey(confirmed)
  {
    hide ByKey, KeyOf;
    SameValues(active, ByKey(confirmed));
  }

  /** Nothing desired, one active. */
  lemma Emptied(active: map<SubscriptionKey, Subscription>, desired: map<SubscriptionKey, Subscription>)
    requires Keyed(active) && Keyed(desired) && active.Values == {TRADES} && desired.Values == {}
    ensures desired == map[] && active.Keys == {KeyOf(TRADES)} && active == map[KeyOf(TRADES) := TRADES]
  {
    hide KeyOf;
    SameValues(desired, map[]);
    forall key | key in active ensures key == KeyOf(TRADES) && active[key] == TRADES { assert active[key] in active.Values; }
    var key :| key in active && active[key] == TRADES;
  }
}
