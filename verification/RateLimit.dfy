/** packages/market_data/services/rate_limit.py, and the bounded retry loop of the downloader that depends on it. */
module RateLimit {
  import opened Wrappers
  import opened Texts
  import opened Calendar
  import opened Intervals

  // ---------------------------------------------------------------- sliding-window budget

  /** Grants whose age at `now` is below the window. */
  function RecentCount(grants: seq<real>, now: real, window: real): nat {
    if grants == [] then 0
    else RecentCount(grants[..|grants| - 1], now, window) + if now - grants[|grants| - 1] < window then 1 else 0
  }

  /** A grant as old as the window does not count any more. */
  lemma {:induction false} RecentExactly(grants: seq<real>, now: real, window: real)
    ensures RecentCount(grants, now, window) == |set i | 0 <= i < |grants| && grants[i] > now - window|
  {
    if grants != [] {
      var n := |grants| - 1;
      RecentExactly(grants[..n], now, window);
      var before, after := set i | 0 <= i < n && grants[..n][i] > now - window, set i | 0 <= i < |grants| && grants[i] > now - window;
      assert after == before + if grants[n] > now - window then {n} else {};
    }
  }

  /** Grants inside the half-open window that starts at `lo`. */
  function WindowCount(grants: seq<real>, lo: real, window: real): nat {
    if grants == [] then 0
    else WindowCount(grants[..|grants| - 1], lo, window) + if lo <= grants[|grants| - 1] < lo + window then 1 else 0
  }

  ghost predicate Sorted(times: seq<real>) {
    forall i, j :: 0 <= i <= j < |times| ==> times[i] <= times[j]
  }

  lemma SortedAppend(times: seq<real>, now: real)
    requires Sorted(times) && forall t :: t in times ==> t <= now
    ensures Sorted(times + [now]) && forall t :: t in times + [now] ==> t <= now
  {
    var later := times + [now];
    forall i, j | 0 <= i <= j < |later| ensures later[i] <= later[j] {
      assert later[i] in times || later[i] == now;
    }
  }

  /** What the whole budget means, as a fold over every clock reading at which a reservation was asked for. */
  function Grants(readings: seq<real>, maximum: int, window: real): seq<real> {
    if readings == [] then []
    else
      var earlier := Grants(readings[..|readings| - 1], maximum, window);
      var now := readings[|readings| - 1];
      if RecentCount(earlier, now, window) < maximum then earlier + [now] else earlier
  }

  lemma GrantsStep(readings: seq<real>, now: real, maximum: int, window: real)
    ensures var earlier := Grants(readings, maximum, window);
            Grants(readings + [now], maximum, window) ==
              if RecentCount(earlier, now, window) < maximum then earlier + [now] else earlier
  {
    assert (readings + [now])[..|readings|] == readings;
  }

  lemma {:induction false} GrantsSorted(readings: seq<real>, maximum: int, window: real)
    requires Sorted(readings)
    ensures var g := Grants(readings, maximum, window);
            Sorted(g) && forall t :: t in g ==> readings != [] && t <= readings[|readings| - 1]
  {
    if readings != [] {
      var earlier, now := readings[..|readings| - 1], readings[|readings| - 1];
      assert readings == earlier + [now];
      GrantsSorted(earlier, maximum, window);
      GrantsStep(earlier, now, maximum, window);
      hide Grants;
      hide RecentCount;
      assert earlier != [] ==> earlier[|earlier| - 1] <= now;
      SortedAppend(Grants(earlier, maximum, window), now);
      hide Sorted;
    } else {
      assert Grants(readings, maximum, window) == [];
    }
  }

  lemma {:induction false} RecentIsSuffix(grants: seq<real>, now: real, window: real, k: nat)
    requires k <= |grants|
    requires forall i :: 0 <= i < k ==> now - grants[i] >= window
    requires forall i :: k <= i < |grants| ==> now - grants[i] < window
    ensures RecentCount(grants, now, window) == |grants| - k
  {
    if k < |grants| {
      RecentIsSuffix(grants[..|grants| - 1], now, window, k);
    } else if grants != [] {
      RecentIsSuffix(grants[..|grants| - 1], now, window, k - 1);
    }
  }

  /** In a sorted log the recent grants are a suffix. */
  lemma RecentSplit(grants: seq<real>, now: real, window: real) returns (k: nat)
    requires Sorted(grants)
    ensures k <= |grants| && RecentCount(grants, now, window) == |grants| - k
    ensures forall i :: 0 <= i < k ==> now - grants[i] >= window
    ensures forall i :: k <= i < |grants| ==> now - grants[i] < window
  {
    k := 0;
    while k < |grants| && now - grants[k] >= window
      invariant k <= |grants|
      invariant forall i :: 0 <= i < k ==> now - grants[i] >= window
    {
      k := k + 1;
    }
    RecentIsSuffix(grants, now, window, k);
  }

  /** Any `maximum + 1` consecutive grants span at least one window. */
  ghost predicate Spread(grants: seq<real>, maximum: nat, window: real) {
    forall i, j :: 0 <= i && j == i + maximum && j < |grants| ==> grants[j] - grants[i] >= window
  }

  lemma {:induction false} GrantsSpread(readings: seq<real>, maximum: nat, window: real)
    requires Sorted(readings)
    ensures Spread(Grants(readings, maximum, window), maximum, window)
  {
    if readings != [] {
      var earlier := Grants(readings[..|readings| - 1], maximum, window);
      GrantsSpread(readings[..|readings| - 1], maximum, window);
      GrantsSorted(readings[..|readings| - 1], maximum, window);
      var k := RecentSplit(earlier, readings[|readings| - 1], window);
    }
  }

  lemma {:induction false} WindowIsSlice(grants: seq<real>, lo: real, window: real) returns (a: nat, b: nat)
    requires Sorted(grants)
    ensures a <= b <= |grants| && WindowCount(grants, lo, window) == b - a
    ensures forall i :: a <= i < b ==> lo <= grants[i] < lo + window
  {
    if grants == [] {
      a, b := 0, 0;
    } else {
      a, b := WindowIsSlice(grants[..|grants| - 1], lo, window);
      var last := grants[|grants| - 1];
      if lo <= last < lo + window {
        if a == b {
          a, b := |grants| - 1, |grants|;
        } else {
          assert grants[a] <= grants[b - 1] && b < |grants| ==> grants[b] <= last;
          NothingAfterSlice(grants[..|grants| - 1], lo, window, a, b);
          b := |grants|;
        }
      }
    }
  }

  lemma NothingAfterSlice(grants: seq<real>, lo: real, window: real, a: nat, b: nat)
    requires Sorted(grants) && a < b <= |grants|
    requires WindowCount(grants, lo, window) == b - a
    requires forall i :: a <= i < b ==> lo <= grants[i] < lo + window
    ensures forall i :: b <= i < |grants| ==> grants[i] >= lo + window
  {
    forall i | b <= i < |grants| ensures grants[i] >= lo + window {
      if grants[i] < lo + window {
        forall j | a <= j <= i ensures lo <= grants[j] < lo + window {
          assert grants[a] <= grants[j] <= grants[i];
        }
        WindowAtLeast(grants, lo, window, a, i + 1);
      }
    }
  }

  lemma {:induction false} WindowAtLeast(grants: seq<real>, lo: real, window: real, a: nat, b: nat)
    requires a <= b <= |grants|
    requires forall i :: a <= i < b ==> lo <= grants[i] < lo + window
    ensures WindowCount(grants, lo, window) >= b - a
    decreases |grants|
  {
    if a < b {
      if b == |grants| {
        WindowAtLeast(grants[..|grants| - 1], lo, window, a, b - 1);
      } else {
        WindowAtLeast(grants[..|grants| - 1], lo, window, a, b);
      }
    }
  }

  /** For every run with a non-decreasing clock, no half-open window holds more than `maximum` grants. */
  lemma BudgetNeverExceeded(readings: seq<real>, maximum: int, window: real, lo: real)
    requires Sorted(readings)
    ensures WindowCount(Grants(readings, maximum, window), lo, window) <= if maximum > 0 then maximum else 0
  {
    var grants := Grants(readings, maximum, window);
    if maximum <= 0 {
      NoGrants(readings, maximum, window);
    } else {
      GrantsSorted(readings, maximum, window);
      GrantsSpread(readings, maximum, window);
      var a, b := WindowIsSlice(grants, lo, window);
      if b - a > maximum {
        SpreadAt(grants, maximum, window, a, b - 1);
      }
    }
  }

  lemma SpreadAt(grants: seq<real>, maximum: nat, window: real, i: nat, j: nat)
    requires Sorted(grants) && Spread(grants, maximum, window)
    requires i + maximum <= j < |grants|
    ensures grants[j] - grants[i] >= window
  {
    assert grants[i + maximum] - grants[i] >= window;
  }

  lemma {:induction false} NoGrants(readings: seq<real>, maximum: int, window: real)
    requires maximum <= 0
    ensures Grants(readings, maximum, window) == []
  {
    if readings != [] {
      NoGrants(readings[..|readings| - 1], maximum, window);
    }
  }

  lemma RecentAfterPruning(pruned: seq<real>, attempts: seq<real>, now: real, window: real)
    requires Sorted(pruned + attempts)
    requires forall t :: t in pruned ==> now - t >= window
    requires attempts != [] ==> now - attempts[0] < window
    ensures RecentCount(pruned + attempts, now, window) == |attempts|
  {
    var log := pruned + attempts;
    assert forall i :: 0 <= i < |pruned| ==> log[i] in pruned;
    if attempts != [] {
      assert log[|pruned|] == attempts[0];
    }
    RecentIsSuffix(log, now, window, |pruned|);
  }

  /** One deque of attempts. The ghost `readings` are all clock readings at which it was consulted, and `pruned` the grants
      that were popped. */
  class AttemptDeque {
    var attempts: seq<real>
    ghost var pruned: seq<real>
    ghost var readings: seq<real>

    /** The deque is the full grant log without the grants too old to matter. */
    ghost predicate Valid(maximum: int, window: real)
      reads this
    {
      && Sorted(readings)
      && Grants(readings, maximum, window) == pruned + attempts
      && (forall t :: t in pruned ==> readings != [] && readings[|readings| - 1] - t >= window)
    }

    constructor ()
      ensures attempts == [] && readings == []
      ensures forall maximum, window :: Valid(maximum, window)
    {
      attempts, pruned, readings := [], [], [];
    }

    method Reserve(now: real, maximum: int, window: real) returns (granted: bool)
      requires Valid(maximum, window)
      requires readings != [] ==> readings[|readings| - 1] <= now
      modifies this
      ensures Valid(maximum, window)
      ensures readings == old(readings) + [now]
      ensures granted <==> RecentCount(Grants(old(readings), maximum, window), now, window) < maximum
    {
      hide Grants;
      hide RecentCount;
      ghost var log := Grants(readings, maximum, window);
      GrantsSorted(readings, maximum, window);
      GrantsStep(readings, now, maximum, window);
      while attempts != [] && now - attempts[0] >= window
        invariant readings == old(readings) && log == pruned + attempts
        invariant forall t :: t in pruned ==> now - t >= window
        decreases |attempts|
      {
        pruned := pruned + [attempts[0]];
        attempts := attempts[1..];
      }
      RecentAfterPruning(pruned, attempts, now, window);
      readings := readings + [now];
      if |attempts| >= maximum {
        return false;
      }
      attempts := attempts + [now];
      assert log + [now] == pruned + attempts;
      return true;
    }
  }

  /** The two budgets of one provider; both clocks are the same monotonic clock. */
  class WebSocketRateBudget {
    const maxControl: int
    const controlWindow: real
    const maxConnections: int
    const connectionWindow: real
    const control: AttemptDeque
    const connections: AttemptDeque
    ghost var latest: real

    ghost predicate Valid()
      reads this, control, connections
    {
      && control != connections
      && control.Valid(maxControl, controlWindow) && connections.Valid(maxConnections, connectionWindow)
      && (control.readings != [] ==> control.readings[|control.readings| - 1] <= latest)
      && (connections.readings != [] ==> connections.readings[|connections.readings| - 1] <= latest)
    }

    constructor (maxControl: int, controlWindow: real, maxConnections: int, connectionWindow: real)
      ensures Valid() && fresh(control) && fresh(connections)
      ensures this.maxControl == maxControl && this.controlWindow == controlWindow
      ensures this.maxConnections == maxConnections && this.connectionWindow == connectionWindow
      ensures control.readings == [] && connections.readings == [] && latest == 0.0
    {
      this.maxControl, this.controlWindow := maxControl, controlWindow;
      this.maxConnections, this.connectionWindow := maxConnections, connectionWindow;
      control := new AttemptDeque();
      connections := new AttemptDeque();
      latest := 0.0;
    }

    /** Refused exactly when `maxControl` grants already lie in the last window; connection attempts are not touched. */
    method ReserveControlMessage(now: real) returns (granted: bool)
      requires Valid() && latest <= now
      modifies `latest, control
      ensures Valid() && latest == now
      ensures control.readings == old(control.readings) + [now]
      ensures granted <==> RecentCount(Grants(old(control.readings), maxControl, controlWindow), now, controlWindow) < maxControl
    {
      granted := control.Reserve(now, maxControl, controlWindow);
      latest := now;
    }

    method ReserveConnectionAttempt(now: real) returns (granted: bool)
      requires Valid() && latest <= now
      modifies `latest, connections
      ensures Valid() && latest == now
      ensures connections.readings == old(connections.readings) + [now]
      ensures granted <==> RecentCount(Grants(old(connections.readings), maxConnections, connectionWindow), now, connectionWindow) < maxConnections
    {
      granted := connections.Reserve(now, maxConnections, connectionWindow);
      latest := now;
    }
  }

  // ---------------------------------------------------------------- cooldowns after HTTP 429 and 418

  /** The Retry-After header (section 10.2.3 of RFC 9110): delay-seconds, an HTTP-date, or neither; `Endless` is an infinite
      number of seconds, which Python's `float` reads as well. */
  datatype RetryAfter = Absent | Delay(span: int) | Endless | HttpDate(at: int) | Unreadable

  datatype Header = Header(name: string, value: string)

  /** Headers by lower-case name; of two that only differ in case the later one counts. */
  function Normalized(headers: seq<Header>): map<string, string> {
    if headers == [] then map[]
    else Normalized(headers[..|headers| - 1])[Lower(headers[|headers| - 1].name) := headers[|headers| - 1].value]
  }

  const WEIGHT_PREFIX := "x-mbx-used-weight-"

  predicate TellsWeight(headers: map<string, string>, name: string) {
    WEIGHT_PREFIX <= name && name in headers && PythonInt(headers[name]).Some?
  }

  /** The used weights that a response tells; what it does not tell, or not as an integer, is left as it was. */
  function UsedWeights(used: map<string, int>, headers: map<string, string>): map<string, int> {
    used + map name | name in headers && TellsWeight(headers, name) :: PythonInt(headers[name]).value
  }

  /** What is known of a weight afterwards: what its header tells, if it is one and an integer, and else what was known. */
  lemma WeightTold(used: map<string, int>, headers: map<string, string>, name: string)
    ensures var after, told := UsedWeights(used, headers), name in headers && "x-mbx-used-weight-" <= name && PythonInt(headers[name]).Some?;
            && (name in after <==> told || name in used)
            && (name in after ==> after[name] == if told then PythonInt(headers[name]).value else used[name])
  {
    hide PythonInt;
  }

  /** `parse` reads the header value; `dated` is the clock at that moment. */
  function RetryAfterOf(parse: string -> RetryAfter, headers: map<string, string>): RetryAfter {
    if "retry-after" in headers then parse(headers["retry-after"]) else Absent
  }

  /** Length of a cooldown, if it is finite. */
  function Cooldown(header: RetryAfter, dated: int, default: int): Option<int> {
    match header
    case Absent => Some(default)
    case Delay(span) => Some(if span > 0 then span else 0)
    case Endless => None
    case HttpDate(at) => Some(if at > dated then at - dated else 0)
    case Unreadable => Some(default)
  }

  datatype AcquireError = InvalidWeight | Blocked(until: int, status: int)

  datatype CooldownEnd = CooldownEnd(at: int, status: int)

  /** What the coordinator is configured with. */
  datatype Policy = Policy(retryAfter: int, ban: int, parse: string -> RetryAfter)

  /** One response as it is observed: its headers are read at `dated`, the cooldown is counted from `now`. */
  datatype Observation = Observation(status: int, headers: seq<Header>, dated: int, now: int)

  /** The end of the cooldown that a response starts: no cooldown, an end, or none that a `datetime` can represent. */
  datatype Started = NoCooldown | Until(end: CooldownEnd) | Unrepresentable

  function StartedBy(p: Policy, o: Observation): Started {
    if o.status !in {429, 418} then NoCooldown
    else match Cooldown(RetryAfterOf(p.parse, Normalized(o.headers)), o.dated, if o.status == 418 then p.ban else p.retryAfter)
      case None => Unrepresentable
      case Some(span) => if o.now + span >= END_INSTANT then Unrepresentable else Until(CooldownEnd(o.now + span, o.status))
  }

  /** The end that a limited response starts: the delay or the date of its Retry-After header, not before now, or else the default
      of its status. */
  predicate EndsAfter(p: Policy, o: Observation, end: CooldownEnd) {
    var header := if "retry-after" in Normalized(o.headers) then p.parse(Normalized(o.headers)["retry-after"]) else Absent;
    && end.status == o.status
    && (header.Delay? ==> end.at >= o.now && end.at == if header.span < 0 then o.now else o.now + header.span)
    && (header.HttpDate? ==> end.at >= o.now && (o.dated < header.at ==> end.at - o.now == header.at - o.dated) && (header.at <= o.dated ==> end.at == o.now))
    && (header.Absent? || header.Unreadable? ==> end.at - o.now == if o.status == 429 then p.retryAfter else p.ban)
    && !header.Endless?
  }

  lemma StartedExactly(p: Policy, o: Observation)
    ensures o.status in {429, 418} ==> !StartedBy(p, o).NoCooldown?
    ensures o.status in {429, 418} ==> (StartedBy(p, o).Until? <==> exists end :: EndsAfter(p, o, end) && end.at < END_INSTANT)
    ensures StartedBy(p, o).Until? ==> EndsAfter(p, o, StartedBy(p, o).end) && StartedBy(p, o).end.at < END_INSTANT
  {
    hide Normalized;
    if end :| EndsAfter(p, o, end) && end.at < END_INSTANT && o.status in {429, 418} {
      assert StartedBy(p, o) == Until(end);
    }
  }

  /** The value of a header: that of the last one with its name, whatever the case. */
  lemma {:induction false} HeaderIsLast(headers: seq<Header>, name: string)
    ensures name in Normalized(headers) <==> exists i :: 0 <= i < |headers| && Lower(headers[i].name) == name
    ensures name in Normalized(headers) ==>
              exists i :: 0 <= i < |headers| && Lower(headers[i].name) == name && Normalized(headers)[name] == headers[i].value
                          && forall j :: i < j < |headers| ==> Lower(headers[j].name) != name
  {
    if headers != [] {
      var init, last := headers[..|headers| - 1], headers[|headers| - 1];
      HeaderIsLast(init, name);
      if name in Normalized(init) {
        var i :| 0 <= i < |init| && Lower(init[i].name) == name && Normalized(init)[name] == init[i].value
                 && forall j :: i < j < |init| ==> Lower(init[j].name) != name;
        assert headers[i] == init[i];
      }
      if Lower(last.name) == name { assert headers[|init|] == last; }
    }
  }

  function EndsOf(started: Started): seq<CooldownEnd> { if started.Until? then [started.end] else [] }

  /** Every cooldown end so far has been reached. */
  predicate Reached(ends: seq<CooldownEnd>, now: int) { forall i :: 0 <= i < |ends| ==> ends[i].at <= now }

  /** Times are instants in microseconds. The ghost `ends` lists every cooldown end ever observed. */
  class BinanceRateLimitCoordinator {
    const policy: Policy
    var blockedUntil: Option<int>
    var blockedStatus: Option<int>
    var endpointAttempts: map<string, int>
    var endpointDeclaredWeight: map<string, int>
    var usedWeightHeaders: map<string, int>
    ghost var ends: seq<CooldownEnd>
    ghost var latest: int

    ghost predicate Valid()
      reads this
    {
      match blockedUntil
      case None => forall e :: e in ends ==> e.at <= latest
      case Some(until) =>
        && blockedStatus.Some? && CooldownEnd(until, blockedStatus.value) in ends
        && forall e :: e in ends ==> e.at <= until || e.at <= latest
    }

    constructor (policy: Policy)
      ensures Valid() && this.policy == policy && ends == [] && endpointAttempts == map[] && usedWeightHeaders == map[]
    {
      this.policy := policy;
      blockedUntil, blockedStatus := None, None;
      endpointAttempts, endpointDeclaredWeight, usedWeightHeaders := map[], map[], map[];
      ends, latest := [], 0;
    }

    /** A request is admitted exactly when every cooldown end ever observed has been reached, although one deadline only is
        stored and it is dropped on expiry. A refusal names the latest end. */
    method Acquire(endpoint: string, weight: int, now: int) returns (r: Result<(), AcquireError>)
      requires Valid() && latest <= now
      modifies `blockedUntil, `blockedStatus, `endpointAttempts, `endpointDeclaredWeight, `latest
      ensures Valid() && latest == now
      ensures r == Err(InvalidWeight) <==> weight < 1
      ensures weight >= 1 ==> (r.Ok? <==> Reached(ends, now))
      ensures r.Err? && r.error.Blocked? ==>
                CooldownEnd(r.error.until, r.error.status) in ends && forall e :: e in ends ==> e.at <= r.error.until
      ensures r.Err? ==> endpointAttempts == old(endpointAttempts) && endpointDeclaredWeight == old(endpointDeclaredWeight)
      ensures r.Ok? ==> endpointDeclaredWeight == old(endpointDeclaredWeight)[endpoint := weight]
      ensures r.Ok? ==> endpointAttempts == old(endpointAttempts)[endpoint :=
                          1 + if endpoint in old(endpointAttempts) then old(endpointAttempts)[endpoint] else 0]
    {
      latest := now;
      if weight < 1 {
        return Err(InvalidWeight);
      }
      if blockedUntil.Some? && now < blockedUntil.value {
        ghost var i :| 0 <= i < |ends| && ends[i] == CooldownEnd(blockedUntil.value, blockedStatus.value);
        return Err(Blocked(blockedUntil.value, if blockedStatus == None then 429 else blockedStatus.value));
      }
      if blockedUntil.Some? {
        blockedUntil, blockedStatus := None, None;
      }
      endpointAttempts := endpointAttempts[endpoint := 1 + if endpoint in endpointAttempts then endpointAttempts[endpoint] else 0];
      endpointDeclaredWeight := endpointDeclaredWeight[endpoint := weight];
      return Ok(());
    }

    /** Records the weights; after 429 or 418 one more cooldown end is known, unless it lies beyond every `datetime`, which is
        an OverflowError. */
    method ObserveResponse(o: Observation) returns (ok: bool)
      requires Valid() && latest <= o.dated <= o.now
      modifies `blockedUntil, `blockedStatus, `usedWeightHeaders, `ends, `latest
      ensures Valid() && latest == o.now
      ensures ok <==> !StartedBy(policy, o).Unrepresentable?
      ensures ends == old(ends) + EndsOf(StartedBy(policy, o))
      ensures o.status !in {429, 418} ==> ok && ends == old(ends)
      ensures o.status in {429, 418} && ok ==> |ends| == |old(ends)| + 1 && EndsAfter(policy, o, ends[|old(ends)|])
      ensures o.status in {429, 418} ==> (ok <==> exists end :: EndsAfter(policy, o, end) && end.at < END_INSTANT)
      ensures usedWeightHeaders == UsedWeights(old(usedWeightHeaders), Normalized(o.headers))
    {
      hide UsedWeights, Normalized, Cooldown, RetryAfterOf, EndsAfter;
      StartedExactly(policy, o);
      latest := o.now;
      var headers := Normalized(o.headers);
      RecordWeights(headers);
      if o.status !in {429, 418} {
        return true;
      }
      var span := Cooldown(RetryAfterOf(policy.parse, headers), o.dated, if o.status == 418 then policy.ban else policy.retryAfter);
      if span.None? || o.now + span.value >= END_INSTANT {
        return false;
      }
      var until := o.now + span.value;
      ends := ends + [CooldownEnd(until, o.status)];
      if blockedUntil.None? || until > blockedUntil.value {
        blockedUntil, blockedStatus := Some(until), Some(o.status);
      }
      return true;
    }

    method RecordWeights(headers: map<string, string>)
      modifies `usedWeightHeaders
      ensures usedWeightHeaders == UsedWeights(old(usedWeightHeaders), headers)
    {
      hide PythonInt;
      var rest := headers.Keys;
      while rest != {}
        invariant rest <= headers.Keys
        invariant usedWeightHeaders ==
                    old(usedWeightHeaders) + map name | name in headers.Keys - rest && TellsWeight(headers, name) :: PythonInt(headers[name]).value
      {
        var name :| name in rest;
        if WEIGHT_PREFIX <= name {
          var value := PythonInt(headers[name]);
          if value.Some? {
            usedWeightHeaders := usedWeightHeaders[name := value.value];
          }
        }
        rest := rest - {name};
      }
      assert headers.Keys - rest == headers.Keys;
    }
  }

  // ---------------------------------------------------------------- HistoricalDownloader._request_once

  datatype Answer = Unreachable | Response(status: int, headers: seq<Header>)

  /** What the environment does in one round: the clock at `acquire`, the answer if a request is sent, and the two readings of
      the clock while the answer is observed. */
  datatype Round = Round(acquiredAt: int, answer: Answer, dated: int, answeredAt: int)

  datatype RequestError = NetworkTimeout | RateLimited | IpBanned | Forbidden | RequestRejected | ServerError | CooldownOverflow

  datatype RequestOutcome = Waiting | Done(result: Result<(), RequestError>)

  /** The HTTP transport; `sent` lists the attempts in which a request was sent. */
  class HttpTransport {
    const rounds: seq<Round>
    var sent: seq<nat>

    constructor (rounds: seq<Round>)
      ensures this.rounds == rounds && sent == []
    {
      this.rounds, sent := rounds, [];
    }

    method Get(attempt: nat) returns (answer: Answer)
      requires 1 <= attempt <= |rounds|
      modifies this
      ensures sent == old(sent) + [attempt] && answer == rounds[attempt - 1].answer
    {
      sent := sent + [attempt];
      answer := rounds[attempt - 1].answer;
    }
  }

  predicate ClockRuns(rounds: seq<Round>, start: int) {
    && (forall i :: 0 <= i < |rounds| ==> start <= rounds[i].acquiredAt <= rounds[i].dated <= rounds[i].answeredAt)
    && (forall i, j :: 0 <= i < j < |rounds| ==> rounds[i].answeredAt <= rounds[j].acquiredAt)
  }

  function ErrorFor(status: int): RequestError
    requires status != 200
  {
    if status == 429 then RateLimited
    else if status == 418 then IpBanned
    else if status == 403 then Forbidden
    else if 400 <= status < 500 then RequestRejected
    else ServerError
  }

  function Observed(r: Round): Observation
    requires r.answer.Response?
  {
    Observation(r.answer.status, r.answer.headers, r.dated, r.answeredAt)
  }

  /** The cooldown end that a sent request adds to what is known. */
  function Learned(p: Policy, r: Round): seq<CooldownEnd> {
    if r.answer.Unreachable? then [] else EndsOf(StartedBy(p, Observed(r)))
  }

  /** The answer to a request: final, or another attempt. */
  function Verdict(p: Policy, r: Round, lastAttempt: bool): Option<Result<(), RequestError>> {
    match r.answer
    case Unreachable => if lastAttempt then Some(Err(NetworkTimeout)) else None
    case Response(status, _) =>
      if StartedBy(p, Observed(r)).Unrepresentable? then Some(Err(CooldownOverflow))
      else if status == 200 then Some(Ok(()))
      else if status in {429, 418} then if lastAttempt then Some(Err(ErrorFor(status))) else None
      else Some(Err(ErrorFor(status)))
  }

  /** A call so far: the cooldown ends known, the attempts in which a request was sent, and the final answer. */
  datatype Progress = Progress(ends: seq<CooldownEnd>, sends: seq<nat>, verdict: Option<Result<(), RequestError>>)

  /** A call over the first rounds. A round whose cooldowns are not over uses up its attempt without a request. */
  function Play(p: Policy, ends: seq<CooldownEnd>, rounds: seq<Round>, maxAttempts: nat): Progress {
    if rounds == [] then Progress(ends, [], None)
    else
      var earlier, attempt, round := Play(p, ends, rounds[..|rounds| - 1], maxAttempts), |rounds|, rounds[|rounds| - 1];
      if earlier.verdict.Some? || !Reached(earlier.ends, round.acquiredAt) then earlier
      else Progress(earlier.ends + Learned(p, round), earlier.sends + [attempt], Verdict(p, round, attempt >= maxAttempts))
  }

  lemma PlayStep(p: Policy, ends: seq<CooldownEnd>, rounds: seq<Round>, n: nat, maxAttempts: nat)
    requires n < |rounds|
    ensures var earlier, round := Play(p, ends, rounds[..n], maxAttempts), rounds[n];
            Play(p, ends, rounds[..n + 1], maxAttempts) ==
              if earlier.verdict.Some? || !Reached(earlier.ends, round.acquiredAt) then earlier
              else Progress(earlier.ends + Learned(p, round), earlier.sends + [n + 1], Verdict(p, round, n + 1 >= maxAttempts))
  {
    hide Reached, Learned, Verdict;
    assert rounds[..n + 1][..n] == rounds[..n];
  }

  lemma {:induction false} PlayStops(p: Policy, ends: seq<CooldownEnd>, rounds: seq<Round>, n: nat, maxAttempts: nat)
    requires n <= |rounds| && Play(p, ends, rounds[..n], maxAttempts).verdict.Some?
    ensures Play(p, ends, rounds, maxAttempts) == Play(p, ends, rounds[..n], maxAttempts)
    decreases |rounds| - n
  {
    if n == |rounds| {
      assert rounds[..n] == rounds;
    } else {
      PlayStep(p, ends, rounds, n, maxAttempts);
      PlayStops(p, ends, rounds, n + 1, maxAttempts);
    }
  }

  /** Bounded retry: the requests sent, the cooldowns known afterwards and the outcome are those of the rounds played. */
  method RequestOnce(limiter: BinanceRateLimitCoordinator, transport: HttpTransport, endpoint: string, weight: int, maxAttempts: nat)
    returns (outcome: RequestOutcome)
    requires limiter.Valid() && ClockRuns(transport.rounds, limiter.latest) && weight >= 1
    modifies limiter, transport
    ensures limiter.Valid()
    ensures var played := Play(limiter.policy, old(limiter.ends), transport.rounds, maxAttempts);
            && transport.sent == old(transport.sent) + played.sends
            && limiter.ends == played.ends
            && outcome == if played.verdict.None? then Waiting else Done(played.verdict.value)
  {
    hide Reached, Learned, Verdict, Play;
    var rounds := transport.rounds;
    var attempts := 0;
    ghost var ends := limiter.ends;
    PlayNothing(limiter.policy, ends, rounds, maxAttempts);
    while attempts < |rounds|
      invariant attempts <= |rounds| && limiter.Valid()
      invariant attempts < |rounds| ==> limiter.latest <= rounds[attempts].acquiredAt
      invariant var played := Play(limiter.policy, ends, rounds[..attempts], maxAttempts);
                transport.sent == old(transport.sent) + played.sends && limiter.ends == played.ends && played.verdict.None?
    {
      PlayStep(limiter.policy, ends, rounds, attempts, maxAttempts);
      var round := rounds[attempts];
      attempts := attempts + 1;
      var admitted := limiter.Acquire(endpoint, weight, round.acquiredAt);
      if admitted.Err? {
        continue;
      }
      var answer := transport.Get(attempts);
      var verdict := Settle(limiter, round, attempts >= maxAttempts);
      if verdict.Some? {
        PlayStops(limiter.policy, ends, rounds, attempts, maxAttempts);
        return Done(verdict.value);
      }
    }
    assert rounds[..attempts] == rounds;
    return Waiting;
  }

  lemma PlayNothing(p: Policy, ends: seq<CooldownEnd>, rounds: seq<Round>, maxAttempts: nat)
    ensures Play(p, ends, rounds[..0], maxAttempts) == Progress(ends, [], None)
  {
  }

  method Settle(limiter: BinanceRateLimitCoordinator, round: Round, lastAttempt: bool) returns (verdict: Option<Result<(), RequestError>>)
    requires limiter.Valid() && limiter.latest <= round.dated <= round.answeredAt
    modifies limiter
    ensures limiter.Valid() && limiter.latest <= round.answeredAt
    ensures limiter.ends == old(limiter.ends) + Learned(limiter.policy, round)
    ensures verdict == Verdict(limiter.policy, round, lastAttempt)
  {
    match round.answer
    case Unreachable =>
      return if lastAttempt then Some(Err(NetworkTimeout)) else None;
    case Response(status, headers) =>
      var ok := limiter.ObserveResponse(Observation(status, headers, round.dated, round.answeredAt));
      if !ok {
        return Some(Err(CooldownOverflow));
      }
      if status == 200 {
        return Some(Ok(()));
      }
      if status in {429, 418} {
        return if lastAttempt then Some(Err(if status == 429 then RateLimited else IpBanned)) else None;
      }
      return Some(Err(ErrorFor(status)));
  }

  // ---------------------------------------------------------------- what a call guarantees

  ghost predicate AttemptsOf(sends: seq<nat>, rounds: seq<Round>) {
    && (forall i :: 0 <= i < |sends| ==> i < sends[i] <= |rounds|)
    && (forall i, j :: 0 <= i < j < |sends| ==> sends[i] < sends[j])
  }

  /** The cooldown ends that the requests of these attempts brought. */
  function LearnedBy(p: Policy, rounds: seq<Round>, sends: seq<nat>): seq<CooldownEnd>
    requires forall i :: 0 <= i < |sends| ==> 1 <= sends[i] <= |rounds|
  {
    if sends == [] then []
    else LearnedBy(p, rounds, sends[..|sends| - 1]) + Learned(p, rounds[sends[|sends| - 1] - 1])
  }

  lemma {:induction false} LearnedByPrefix(p: Policy, rounds: seq<Round>, sends: seq<nat>)
    requires rounds != [] && forall i :: 0 <= i < |sends| ==> 1 <= sends[i] < |rounds|
    ensures LearnedBy(p, rounds[..|rounds| - 1], sends) == LearnedBy(p, rounds, sends)
  {
    hide Learned;
    if sends != [] { LearnedByPrefix(p, rounds, sends[..|sends| - 1]); }
  }

  /** Requests have attempts of their own, in order, of which only the last can be `maxAttempts` or later; what is known is what
      was known before and what they brought; and the call ends with the first final answer. */
  ghost predicate Accounted(p: Policy, ends: seq<CooldownEnd>, rounds: seq<Round>, maxAttempts: nat, played: Progress) {
    && AttemptsOf(played.sends, rounds)
    && (forall i :: 0 <= i < |played.sends| - 1 ==> played.sends[i] < maxAttempts)
    && played.ends == ends + LearnedBy(p, rounds, played.sends)
    && (played.verdict.None? ==>
          forall i :: 0 <= i < |played.sends| ==> played.sends[i] < maxAttempts && Verdict(p, rounds[played.sends[i] - 1], false).None?)
    && (played.verdict.Some? ==>
          && played.sends != []
          && var last := played.sends[|played.sends| - 1];
             played.verdict == Verdict(p, rounds[last - 1], last >= maxAttempts))
  }

  lemma LastAttemptIsFinal(p: Policy, r: Round)
    ensures Verdict(p, r, true).Some?
  {
  }

  lemma {:induction false} PlayAccounted(p: Policy, ends: seq<CooldownEnd>, rounds: seq<Round>, maxAttempts: nat)
    ensures Accounted(p, ends, rounds, maxAttempts, Play(p, ends, rounds, maxAttempts))
  {
    hide Learned, Verdict, Reached, Accounted;
    if rounds == [] {
      NothingAccounted(p, ends, maxAttempts);
    } else {
      var init, round := rounds[..|rounds| - 1], rounds[|rounds| - 1];
      PlayAccounted(p, ends, init, maxAttempts);
      var earlier := Play(p, ends, init, maxAttempts);
      StillAccounted(p, ends, rounds, maxAttempts, earlier);
      if earlier.verdict.None? { SendAccounted(p, ends, rounds, maxAttempts, earlier); }
    }
  }

  lemma NothingAccounted(p: Policy, ends: seq<CooldownEnd>, maxAttempts: nat)
    ensures Accounted(p, ends, [], maxAttempts, Progress(ends, [], None))
  {
  }

  lemma StillAccounted(p: Policy, ends: seq<CooldownEnd>, rounds: seq<Round>, maxAttempts: nat, played: Progress)
    requires rounds != [] && Accounted(p, ends, rounds[..|rounds| - 1], maxAttempts, played)
    ensures Accounted(p, ends, rounds, maxAttempts, played)
  {
    LearnedByPrefix(p, rounds, played.sends);
    hide Learned, LearnedBy, Verdict;
  }

  lemma SendAccounted(p: Policy, ends: seq<CooldownEnd>, rounds: seq<Round>, maxAttempts: nat, earlier: Progress)
    requires rounds != [] && earlier.verdict.None? && Accounted(p, ends, rounds[..|rounds| - 1], maxAttempts, earlier)
    ensures var attempt, round := |rounds|, rounds[|rounds| - 1];
            Accounted(p, ends, rounds, maxAttempts,
                      Progress(earlier.ends + Learned(p, round), earlier.sends + [attempt], Verdict(p, round, attempt >= maxAttempts)))
  {
    hide Learned, LearnedBy, Verdict;
    StillAccounted(p, ends, rounds, maxAttempts, earlier);
    LastAttemptIsFinal(p, rounds[|rounds| - 1]);
    LearnedByMore(p, rounds, earlier.sends, |rounds|);
    OneMoreAttempt(earlier.sends, rounds);
  }

  lemma OneMoreAttempt(sends: seq<nat>, rounds: seq<Round>)
    requires rounds != [] && AttemptsOf(sends, rounds[..|rounds| - 1])
    ensures AttemptsOf(sends + [|rounds|], rounds)
  {
    if sends != [] { assert |sends| - 1 < sends[|sends| - 1] < |rounds|; }
  }

  lemma LearnedByMore(p: Policy, rounds: seq<Round>, sends: seq<nat>, attempt: nat)
    requires 1 <= attempt <= |rounds| && forall i :: 0 <= i < |sends| ==> 1 <= sends[i] <= |rounds|
    ensures LearnedBy(p, rounds, sends + [attempt]) == LearnedBy(p, rounds, sends) + Learned(p, rounds[attempt - 1])
  {
    hide Learned;
    assert (sends + [attempt])[..|sends|] == sends;
  }

  /** Why a call ends: 200 is success; 403, other client errors and everything else are errors at once; no answer, 429 and 418 are
      errors in the last attempt only; and a cooldown beyond every `datetime` is one at any time. */
  ghost predicate EndsWith(p: Policy, r: Round, lastAttempt: bool, result: Result<(), RequestError>) {
    match r.answer
    case Unreachable => lastAttempt && result == Err(NetworkTimeout)
    case Response(status, _) =>
      && (result.Ok? <==> status == 200)
      && (result == Err(Forbidden) <==> status == 403)
      && (result == Err(RequestRejected) <==> 400 <= status < 500 && status != 403 && status != 418 && status != 429)
      && (result == Err(ServerError) <==> status != 200 && (status < 400 || status >= 500))
      && (result == Err(CooldownOverflow) <==> status in {429, 418} && forall end :: EndsAfter(p, Observed(r), end) ==> end.at >= END_INSTANT)
      && (result == Err(RateLimited) ==> status == 429 && lastAttempt) && (result == Err(IpBanned) ==> status == 418 && lastAttempt)
      && result != Err(NetworkTimeout)
  }

  /** A call that ends tells the answer to its last request; one that has not ended yet got only answers that ask for more. */
  lemma OutcomeExactly(p: Policy, ends: seq<CooldownEnd>, rounds: seq<Round>, maxAttempts: nat)
    ensures var played := Play(p, ends, rounds, maxAttempts);
            && AttemptsOf(played.sends, rounds)
            && (played.verdict.Some? ==>
                  && played.sends != []
                  && var last := played.sends[|played.sends| - 1];
                     EndsWith(p, rounds[last - 1], last >= maxAttempts, played.verdict.value))
            && (played.verdict.None? ==>
                  forall i :: 0 <= i < |played.sends| ==>
                    && played.sends[i] < maxAttempts
                    && var answer := rounds[played.sends[i] - 1].answer;
                       answer.Unreachable? || answer.status in {429, 418})
  {
    PlayAccounted(p, ends, rounds, maxAttempts);
    hide Play, LearnedBy, Verdict, EndsWith, StartedBy;
    var played := Play(p, ends, rounds, maxAttempts);
    if played.verdict.Some? {
      var last := played.sends[|played.sends| - 1];
      VerdictTells(p, rounds[last - 1], last >= maxAttempts);
    } else {
      forall i | 0 <= i < |played.sends| { VerdictTells(p, rounds[played.sends[i] - 1], false); }
    }
  }

  lemma VerdictTells(p: Policy, r: Round, lastAttempt: bool)
    ensures Verdict(p, r, lastAttempt).Some? ==> EndsWith(p, r, lastAttempt, Verdict(p, r, lastAttempt).value)
    ensures Verdict(p, r, lastAttempt).None? ==> r.answer.Unreachable? || r.answer.status in {429, 418}
  {
    hide StartedBy, EndsAfter;
    if r.answer.Response? {
      StartedExactly(p, Observed(r));
      NotLimited(p, Observed(r));
    }
  }

  lemma NotLimited(p: Policy, o: Observation)
    ensures StartedBy(p, o).NoCooldown? <==> o.status !in {429, 418}
  {
    hide Normalized, RetryAfterOf;
  }

  /** The last round adds its own attempt or nothing. */
  lemma PlayLast(p: Policy, ends: seq<CooldownEnd>, rounds: seq<Round>, maxAttempts: nat)
    requires rounds != []
    ensures var earlier, sends := Play(p, ends, rounds[..|rounds| - 1], maxAttempts), Play(p, ends, rounds, maxAttempts).sends;
            sends == if earlier.verdict.None? && Reached(earlier.ends, rounds[|rounds| - 1].acquiredAt) then earlier.sends + [|rounds|] else earlier.sends
  {
    hide Learned, Verdict, Reached;
  }

  /** Whatever the environment does, at most `maxAttempts` requests are sent (one, if that is zero). */
  lemma SendsBounded(p: Policy, ends: seq<CooldownEnd>, rounds: seq<Round>, maxAttempts: nat)
    ensures |Play(p, ends, rounds, maxAttempts).sends| <= if maxAttempts == 0 then 1 else maxAttempts
  {
    PlayAccounted(p, ends, rounds, maxAttempts);
    hide Play, LearnedBy, Verdict;
    var sends := Play(p, ends, rounds, maxAttempts).sends;
    if |sends| >= 2 { assert |sends| - 2 < sends[|sends| - 2] < maxAttempts; }
  }

  /** A round sends a request exactly when no answer was final before and every cooldown end known by then has been reached. */
  lemma {:induction false} SentExactly(p: Policy, ends: seq<CooldownEnd>, rounds: seq<Round>, maxAttempts: nat, attempt: nat)
    requires 1 <= attempt <= |rounds|
    ensures var before := Play(p, ends, rounds[..attempt - 1], maxAttempts);
            attempt in Play(p, ends, rounds, maxAttempts).sends <==>
              before.verdict.None? && Reached(before.ends, rounds[attempt - 1].acquiredAt)
  {
    hide Learned, LearnedBy, Verdict, Reached, Play;
    var init := rounds[..|rounds| - 1];
    PlayLast(p, ends, rounds, maxAttempts);
    if attempt < |rounds| {
      SentExactly(p, ends, init, maxAttempts, attempt);
      assert init[..attempt - 1] == rounds[..attempt - 1];
    } else {
      PlayAccounted(p, ends, init, maxAttempts);
      var earlier := Play(p, ends, init, maxAttempts).sends;
      assert forall i :: 0 <= i < |earlier| ==> earlier[i] <= |init|;
    }
  }

  /** Nothing is sent during a cooldown: every end known before the call, or brought by an earlier request of it, has been
      reached. */
  lemma {:induction false} CooldownsRespected(p: Policy, ends: seq<CooldownEnd>, rounds: seq<Round>, maxAttempts: nat, i: nat)
    requires i < |Play(p, ends, rounds, maxAttempts).sends|
    ensures var sends := Play(p, ends, rounds, maxAttempts).sends;
            && AttemptsOf(sends, rounds)
            && Reached(ends + LearnedBy(p, rounds, sends[..i]), rounds[sends[i] - 1].acquiredAt)
  {
    hide Learned, LearnedBy, Verdict, Reached, Play;
    PlayAccounted(p, ends, rounds, maxAttempts);
    if rounds == [] { PlayNothing(p, ends, rounds, maxAttempts); }
    var init := rounds[..|rounds| - 1];
    PlayLast(p, ends, rounds, maxAttempts);
    PlayAccounted(p, ends, init, maxAttempts);
    var sends, earlier := Play(p, ends, rounds, maxAttempts).sends, Play(p, ends, init, maxAttempts);
    if i < |earlier.sends| {
      CooldownsRespected(p, ends, init, maxAttempts, i);
      assert sends[..i] == earlier.sends[..i];
      LearnedByPrefix(p, rounds, sends[..i]);
    } else {
      assert sends[..i] == earlier.sends;
      LearnedByPrefix(p, rounds, earlier.sends);
    }
  }
}
