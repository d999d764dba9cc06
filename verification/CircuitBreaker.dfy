/** The `CircuitBreaker` of packages/market_data/adapters/connection_supervisor.py. */
module CircuitBreaker {
  import opened Wrappers

  datatype Phase = Closed | Open | HalfOpen

  datatype Config = Config(failureThreshold: int, recoveryTimeout: int, successThreshold: int)

  datatype State = State(phase: Phase, failures: int, successes: int, openedAt: Option<int>, probing: bool)

  const INITIAL := State(Closed, 0, 0, None, false)

  /** What happened to a breaker; `at` is the clock reading of a failure or of a call of `allow_request`. */
  datatype Event = Success | Failure(at: int) | Ask(at: int)

  function Step(c: Config, s: State, e: Event): State {
    match e
    case Success =>
      if s.phase == HalfOpen then
        if s.successes + 1 >= c.successThreshold then INITIAL
        else s.(successes := s.successes + 1, probing := false)
      else if s.phase == Closed then s.(failures := 0)
      else s
    case Failure(at) =>
      if s.phase == HalfOpen || (s.phase == Closed && s.failures + 1 >= c.failureThreshold) then
        State(Open, 0, 0, Some(at), false)
      else s.(failures := s.failures + 1)
    case Ask(at) =>
      if s.phase == Open && Admits(c, s, at) then s.(phase := HalfOpen, successes := 0, probing := true)
      else if s.phase == HalfOpen then s.(probing := true)
      else s
  }

  predicate Admits(c: Config, s: State, at: int) {
    match s.phase
    case Closed => true
    case Open => s.openedAt.Some? && at - s.openedAt.value >= c.recoveryTimeout
    case HalfOpen => !s.probing
  }

  class Breaker {
    const config: Config
    var phase: Phase
    var consecutiveFailures: int
    var consecutiveSuccesses: int
    var openedAt: Option<int>
    var probeInFlight: bool

    function Abstract(): State
      reads this
    {
      State(phase, consecutiveFailures, consecutiveSuccesses, openedAt, probeInFlight)
    }

    constructor (config: Config)
      ensures this.config == config && Abstract() == INITIAL
    {
      this.config := config;
      phase, consecutiveFailures, consecutiveSuccesses, openedAt, probeInFlight := Closed, 0, 0, None, false;
    }

    method RecordSuccess()
      modifies this
      ensures Abstract() == Step(config, old(Abstract()), Success)
    {
      if phase == HalfOpen {
        consecutiveSuccesses := consecutiveSuccesses + 1;
        probeInFlight := false;
        if consecutiveSuccesses >= config.successThreshold {
          DoClose();
        }
      } else if phase == Closed {
        consecutiveFailures := 0;
      }
    }

    method RecordFailure(now: int)
      modifies this
      ensures Abstract() == Step(config, old(Abstract()), Failure(now))
    {
      if phase == HalfOpen {
        DoOpen(now);
        return;
      }
      consecutiveFailures := consecutiveFailures + 1;
      if phase == Closed && consecutiveFailures >= config.failureThreshold {
        DoOpen(now);
      }
    }

    method AllowRequest(now: int) returns (admitted: bool)
      modifies this
      ensures Abstract() == Step(config, old(Abstract()), Ask(now))
      ensures admitted == Admits(config, old(Abstract()), now)
    {
      if phase == Closed {
        return true;
      }
      if phase == Open {
        if openedAt == None {
          return false;
        }
        if now - openedAt.value < config.recoveryTimeout {
          return false;
        }
        phase := HalfOpen;
        consecutiveSuccesses := 0;
        probeInFlight := true;
        return true;
      }
      if probeInFlight {
        return false;
      }
      probeInFlight := true;
      return true;
    }

    method DoOpen(now: int)
      modifies this
      ensures Abstract() == State(Open, 0, 0, Some(now), false)
    {
      phase, openedAt := Open, Some(now);
      consecutiveFailures, consecutiveSuccesses, probeInFlight := 0, 0, false;
    }

    method DoClose()
      modifies this
      ensures Abstract() == INITIAL
    {
      phase, openedAt := Closed, None;
      consecutiveFailures, consecutiveSuccesses, probeInFlight := 0, 0, false;
    }
  }

  // ---------------------------------------------------------------- whole runs

  function After(c: Config, es: seq<Event>): State {
    if es == [] then INITIAL else Step(c, After(c, es[..|es| - 1]), es[|es| - 1])
  }

  /** Event `i` of the run is a request that is let through. */
  predicate Admitted(c: Config, es: seq<Event>, i: nat)
    requires i < |es|
  {
    es[i].Ask? && Admits(c, After(c, es[..i]), es[i].at)
  }

  predicate Opens(c: Config, es: seq<Event>, i: nat)
    requires i < |es|
  {
    es[i].Failure? && After(c, es[..i]).phase != Open && After(c, es[..i + 1]).phase == Open
  }

  predicate ClockRuns(es: seq<Event>) {
    forall i, j :: 0 <= i < j < |es| && !es[i].Success? && !es[j].Success? ==> es[i].at <= es[j].at
  }

  lemma AfterStep(c: Config, es: seq<Event>, n: nat)
    requires n < |es|
    ensures After(c, es[..n + 1]) == Step(c, After(c, es[..n]), es[n])
  {
    assert es[..n + 1][..n] == es[..n];
  }

  /** From the opening at `i` on, the breaker stays open since then or later until a request at the end of the recovery
      time comes in. */
  lemma {:induction false} OpenUntilRecovery(c: Config, es: seq<Event>, i: nat, n: nat)
    requires ClockRuns(es) && i < n <= |es| && Opens(c, es, i)
    ensures var s := After(c, es[..n]);
            || (s.phase == Open && s.openedAt.Some? && s.openedAt.value >= es[i].at)
            || (exists m :: i < m < n && es[m].Ask? && es[m].at >= es[i].at + c.recoveryTimeout)
    decreases n
  {
    AfterStep(c, es, n - 1);
    if i + 1 < n {
      OpenUntilRecovery(c, es, i, n - 1);
      hide After;
      var s := After(c, es[..n - 1]);
      if s.phase == Open && s.openedAt.Some? && s.openedAt.value >= es[i].at {
        if es[n - 1].Ask? && Admits(c, s, es[n - 1].at) {
          assert es[n - 1].at >= es[i].at + c.recoveryTimeout;
        }
      } else {
        var m :| i < m < n - 1 && es[m].Ask? && es[m].at >= es[i].at + c.recoveryTimeout;
      }
    }
  }

  /** After the breaker opens, nothing at all is admitted before the recovery time has passed. */
  lemma NothingBeforeRecovery(c: Config, es: seq<Event>, i: nat, j: nat)
    requires ClockRuns(es) && i < j < |es|
    requires Opens(c, es, i) && Admitted(c, es, j)
    ensures es[j].at >= es[i].at + c.recoveryTimeout
  {
    OpenUntilRecovery(c, es, i, j);
    if m :| i < m < j && es[m].Ask? && es[m].at >= es[i].at + c.recoveryTimeout {
      assert es[m].at <= es[j].at;
    }
  }

  /** Requests admitted in the half-open era the run is in; 0 outside such an era. */
  function EraProbes(c: Config, es: seq<Event>): nat {
    if es == [] || After(c, es).phase != HalfOpen then 0
    else EraProbes(c, es[..|es| - 1]) + if Admitted(c, es, |es| - 1) then 1 else 0
  }

  /** Those of them after which no success has been recorded yet. */
  function Unsettled(c: Config, es: seq<Event>): nat {
    if es == [] || After(c, es).phase != HalfOpen || es[|es| - 1].Success? then 0
    else Unsettled(c, es[..|es| - 1]) + if Admitted(c, es, |es| - 1) then 1 else 0
  }

  /** In a half-open era at most one probe is unsettled at any time, and at most `successThreshold` probes (one, if the
      threshold is not positive) are admitted in all. */
  lemma {:induction false} HalfOpenEra(c: Config, es: seq<Event>)
    ensures Unsettled(c, es) == if After(c, es).phase == HalfOpen && After(c, es).probing then 1 else 0
    ensures After(c, es).phase == HalfOpen ==>
              0 <= After(c, es).successes && EraProbes(c, es) <= After(c, es).successes + Unsettled(c, es)
    ensures EraProbes(c, es) <= if c.successThreshold > 1 then c.successThreshold else 1
    ensures After(c, es).phase == HalfOpen ==> After(c, es).successes == 0 || After(c, es).successes < c.successThreshold
  {
    if es != [] {
      HalfOpenEra(c, es[..|es| - 1]);
    }
  }

  /** Failures recorded since the last success. The phases in between do not matter. */
  function FailureStreak(es: seq<Event>): nat {
    if es == [] || es[|es| - 1].Success? then 0
    else FailureStreak(es[..|es| - 1]) + if es[|es| - 1].Failure? then 1 else 0
  }

  /** A closed breaker counts exactly the failures since the last success: whatever was recorded while it was open or
      half-open has left no trace. */
  lemma {:induction false} ClosedCountsStreak(c: Config, es: seq<Event>)
    ensures After(c, es).phase == Closed ==> After(c, es).failures == FailureStreak(es)
  {
    if es != [] {
      ClosedCountsStreak(c, es[..|es| - 1]);
    }
  }

  /** The closed phase is left exactly by the failure that completes `failureThreshold` failures with no success between. */
  lemma ClosedLeftExactly(c: Config, es: seq<Event>, e: Event)
    requires After(c, es).phase == Closed
    ensures After(c, es + [e]).phase != Closed <==> e.Failure? && FailureStreak(es + [e]) >= c.failureThreshold
    ensures After(c, es + [e]).phase != Closed ==> After(c, es + [e]) == State(Open, 0, 0, Some(e.at), false)
  {
    ClosedCountsStreak(c, es);
    assert (es + [e])[..|es|] == es;
  }

  /** The closed phase is entered by a success only. */
  lemma ClosedEnteredBySuccess(c: Config, es: seq<Event>, e: Event)
    requires After(c, es).phase != Closed && After(c, es + [e]).phase == Closed
    ensures e == Success && After(c, es).phase == HalfOpen && After(c, es).successes + 1 >= c.successThreshold
  {
    assert (es + [e])[..|es|] == es;
  }

  /** The clock reading at which the breaker last opened. */
  function LastOpening(c: Config, es: seq<Event>): Option<int> {
    if es == [] then None
    else if Opens(c, es, |es| - 1) then Some(es[|es| - 1].at)
    else LastOpening(c, es[..|es| - 1])
  }

  /** Admission, in terms of the run alone: always when closed, when open once the recovery time since the last opening is
      over, and when half-open while no probe is unsettled. */
  lemma {:induction false} AdmissionRule(c: Config, es: seq<Event>, at: int)
    ensures After(c, es).phase == Open ==> LastOpening(c, es).Some? && After(c, es).openedAt == LastOpening(c, es)
    ensures Admits(c, After(c, es), at) <==>
            match After(c, es).phase
            case Closed => true
            case Open => at >= LastOpening(c, es).value + c.recoveryTimeout
            case HalfOpen => Unsettled(c, es) == 0
  {
    HalfOpenEra(c, es);
    if es != [] {
      AdmissionRule(c, es[..|es| - 1], at);
      assert es[..|es|] == es;
    }
  }

  /** Successes recorded in the half-open era the run is in; 0 outside such an era. */
  function EraSuccesses(c: Config, es: seq<Event>): nat {
    if es == [] || After(c, es).phase != HalfOpen then 0
    else EraSuccesses(c, es[..|es| - 1]) + if es[|es| - 1].Success? then 1 else 0
  }

  lemma {:induction false} HalfOpenCounts(c: Config, es: seq<Event>)
    ensures After(c, es).phase == HalfOpen ==> After(c, es).successes == EraSuccesses(c, es)
  {
    if es != [] {
      HalfOpenCounts(c, es[..|es| - 1]);
    }
  }

  /** The half-open phase is left exactly by a failure, which opens the breaker anew, or by the success that completes
      `successThreshold` successes in the era, which closes it. */
  lemma HalfOpenLeftExactly(c: Config, es: seq<Event>, e: Event)
    requires After(c, es).phase == HalfOpen
    ensures After(c, es + [e]).phase == Open <==> e.Failure?
    ensures After(c, es + [e]).phase == Closed <==> e.Success? && EraSuccesses(c, es) + 1 >= c.successThreshold
    ensures e.Failure? ==> Opens(c, es + [e], |es|) && LastOpening(c, es + [e]) == Some(e.at)
  {
    HalfOpenCounts(c, es);
    assert (es + [e])[..|es|] == es && (es + [e])[..|es| + 1] == es + [e];
  }

  /** The open phase is left exactly by a request at or behind the end of the recovery time, which becomes the first probe. */
  lemma OpenLeftExactly(c: Config, es: seq<Event>, e: Event)
    requires After(c, es).phase == Open
    ensures LastOpening(c, es).Some?
    ensures After(c, es + [e]).phase != Open <==> e.Ask? && e.at >= LastOpening(c, es).value + c.recoveryTimeout
    ensures After(c, es + [e]).phase != Open ==>
              After(c, es + [e]).phase == HalfOpen && Unsettled(c, es + [e]) == 1 && EraSuccesses(c, es + [e]) == 0
  {
    AdmissionRule(c, es, 0);
    HalfOpenEra(c, es + [e]);
    HalfOpenCounts(c, es + [e]);
    assert (es + [e])[..|es|] == es;
  }

  /** Until such a request comes, whatever else is recorded, the breaker stays open since that opening. */
  lemma {:induction false} StaysOpen(c: Config, es: seq<Event>, i: nat, n: nat)
    requires i < n <= |es| && Opens(c, es, i)
    requires forall m :: i < m < n && es[m].Ask? ==> es[m].at < es[i].at + c.recoveryTimeout
    ensures After(c, es[..n]).phase == Open && After(c, es[..n]).openedAt == Some(es[i].at)
    decreases n
  {
    AfterStep(c, es, n - 1);
    if i + 1 < n {
      StaysOpen(c, es, i, n - 1);
    } else {
      AfterStep(c, es, i);
    }
  }

  /** No breaker stays shut: after any opening, a failed probe included, the first request at or behind the end of the recovery
      time is admitted, and none before it. */
  lemma AdmittedAfterRecovery(c: Config, es: seq<Event>, i: nat, j: nat)
    requires i < j < |es| && Opens(c, es, i) && es[j].Ask?
    requires forall m :: i < m < j && es[m].Ask? ==> es[m].at < es[i].at + c.recoveryTimeout
    ensures Admitted(c, es, j) <==> es[j].at >= es[i].at + c.recoveryTimeout
  {
    StaysOpen(c, es, i, j);
  }

  /** Concretely: a probe fails at 11, and the request at 21 is admitted again. */
  lemma FailedProbe()
    ensures var c, es := Config(1, 10, 1), [Failure(0), Ask(10), Failure(11), Ask(21)];
            Admitted(c, es, 1) && Opens(c, es, 2) && Admitted(c, es, 3)
  {
    var c, es := Config(1, 10, 1), [Failure(0), Ask(10), Failure(11), Ask(21)];
    assert es[..1] == [Failure(0)] && es[..2] == [Failure(0), Ask(10)] && es[..3] == [Failure(0), Ask(10), Failure(11)];
    forall n | 0 <= n < 3 { AfterStep(c, es, n); }
    assert es[..0] == [];
  }
}
