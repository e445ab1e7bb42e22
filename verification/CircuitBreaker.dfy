/** The provider circuit breaker. `BeforeCall` and `AfterCall` are separate atomic steps, so the results of
    calls in flight may arrive in any state; every log of steps below is such an interleaving. */
module CircuitBreaking {

  datatype CircuitState = Closed | Open | HalfOpen

  datatype Config = Config(failureThreshold: int, timeout: int, halfOpenMaxCalls: int)

  ghost predicate Sane(c: Config) {
    c.failureThreshold >= 1 && c.halfOpenMaxCalls >= 1
  }

  // ---------- the transition system ----------

  datatype Breaker = Breaker(state: CircuitState, failureCount: int, successCount: int, lastFailureTime: int)

  /** Times are readings of the clock at the step. */
  datatype Event = Before(now: int) | Failure(at: int) | Success | Reset

  const INITIAL := Breaker(Closed, 0, 0, 0)

  predicate TimedOut(c: Config, b: Breaker, now: int) {
    now - b.lastFailureTime > c.timeout
  }

  predicate Admits(c: Config, b: Breaker, now: int) {
    match b.state
    case Closed => true
    case Open => TimedOut(c, b, now)
    case HalfOpen => b.successCount + b.failureCount < c.halfOpenMaxCalls
  }

  function Step(c: Config, b: Breaker, e: Event): Breaker {
    match e
    case Before(now) =>
      if b.state == Open && TimedOut(c, b, now) then Breaker(HalfOpen, 0, 0, b.lastFailureTime) else b
    case Failure(at) =>
      var counted := b.(failureCount := b.failureCount + 1, lastFailureTime := at);
      (match b.state
       case Closed => if counted.failureCount >= c.failureThreshold then counted.(state := Open) else counted
       case HalfOpen => Breaker(Open, 0, 0, at)
       case Open => counted)
    case Success =>
      var counted := b.(successCount := b.successCount + 1);
      (match b.state
       case HalfOpen =>
         if counted.successCount >= c.halfOpenMaxCalls then Breaker(Closed, 0, 0, b.lastFailureTime) else counted
       case Closed => counted.(failureCount := 0)
       case Open => counted)
    case Reset => Breaker(Closed, 0, 0, b.lastFailureTime)
  }

  function Run(c: Config, log: seq<Event>): Breaker {
    if log == [] then INITIAL else Step(c, Run(c, log[..|log| - 1]), log[|log| - 1])
  }

  // ---------- what the counters mean, in terms of the log alone ----------

  /** The failures recorded since the last success or reset. */
  function FailureRun(log: seq<Event>): nat {
    if log == [] then 0
    else
      match log[|log| - 1]
      case Failure(_) => FailureRun(log[..|log| - 1]) + 1
      case Before(_) => FailureRun(log[..|log| - 1])
      case _ => 0
  }

  predicate Failed(log: seq<Event>) {
    exists i :: 0 <= i < |log| && log[i].Failure?
  }

  /** The time of the latest failure recorded, in whatever state. */
  function LatestFailure(log: seq<Event>): int
    requires Failed(log)
  {
    if log[|log| - 1].Failure? then log[|log| - 1].at else LatestFailure(log[..|log| - 1])
  }

  function Successes(log: seq<Event>): nat {
    if log == [] then 0 else Successes(log[..|log| - 1]) + (if log[|log| - 1].Success? then 1 else 0)
  }

  function Attempts(log: seq<Event>): nat {
    if log == [] then 0 else Attempts(log[..|log| - 1]) + (if log[|log| - 1].Before? then 1 else 0)
  }

  /** `log` is `earlier`, then the admission that half-opened the circuit, then `probes`: attempts and
      successes only, too few successes to close it. */
  ghost predicate HalfOpenPhase(c: Config, log: seq<Event>, earlier: seq<Event>, now: int, probes: seq<Event>) {
    && log == earlier + [Before(now)] + probes
    && Run(c, earlier).state == Open
    && Failed(earlier) && now - LatestFailure(earlier) > c.timeout
    && (forall e :: e in probes ==> e.Before? || e.Success?)
    && Successes(probes) < c.halfOpenMaxCalls
  }

  // ---------- the invariant of every interleaving ----------

  ghost predicate CountersExplained(c: Config, log: seq<Event>) {
    var b := Run(c, log);
    match b.state
    case Closed => b.failureCount == FailureRun(log) < c.failureThreshold
    case Open => Failed(log)
    case HalfOpen =>
      && b.failureCount == 0
      && 0 <= b.successCount < c.halfOpenMaxCalls
      && exists earlier, now, probes ::
           HalfOpenPhase(c, log, earlier, now, probes) && b.successCount == Successes(probes)
  }

  lemma SnocFront(log: seq<Event>, e: Event)
    ensures (log + [e])[..|log|] == log
  {}

  lemma {:induction false} LastFailureTimeExplained(c: Config, log: seq<Event>)
    requires Failed(log)
    ensures Run(c, log).lastFailureTime == LatestFailure(log)
    decreases |log|
  {
    if !log[|log| - 1].Failure? {
      FailedFront(log);
      LastFailureTimeExplained(c, log[..|log| - 1]);
    }
  }

  lemma FailedFront(log: seq<Event>)
    requires Failed(log) && !log[|log| - 1].Failure?
    ensures Failed(log[..|log| - 1])
  {
    var i :| 0 <= i < |log| && log[i].Failure?;
    assert log[..|log| - 1][i].Failure?;
  }

  lemma FailedSnoc(log: seq<Event>)
    requires log != [] && (Failed(log[..|log| - 1]) || log[|log| - 1].Failure?)
    ensures Failed(log)
  {
    if Failed(log[..|log| - 1]) {
      var i :| 0 <= i < |log| - 1 && log[..|log| - 1][i].Failure?;
      assert log[i].Failure?;
    }
  }

  lemma PhaseBegins(c: Config, front: seq<Event>, now: int)
    requires Sane(c) && CountersExplained(c, front)
    requires Run(c, front).state == Open && TimedOut(c, Run(c, front), now)
    ensures HalfOpenPhase(c, front + [Before(now)], front, now, [])
  {
    LastFailureTimeExplained(c, front);
    assert front + [Before(now)] + [] == front + [Before(now)];
  }

  lemma PhaseContinues(c: Config, log: seq<Event>, earlier: seq<Event>, now: int, probes: seq<Event>, e: Event)
    requires HalfOpenPhase(c, log, earlier, now, probes)
    requires e.Before? || (e.Success? && Successes(probes) + 1 < c.halfOpenMaxCalls)
    ensures HalfOpenPhase(c, log + [e], earlier, now, probes + [e])
    ensures Successes(probes + [e]) == Successes(probes) + (if e.Success? then 1 else 0)
    ensures Attempts(probes + [e]) == Attempts(probes) + (if e.Before? then 1 else 0)
  {
    SnocFront(probes, e);
    assert log + [e] == earlier + [Before(now)] + (probes + [e]);
  }

  /** In every interleaving of calls, results and resets. */
  lemma {:induction false} CountersAlwaysExplained(c: Config, log: seq<Event>)
    requires Sane(c)
    ensures CountersExplained(c, log)
    decreases |log|
  {
    if log != [] {
      var front, e := log[..|log| - 1], log[|log| - 1];
      assert log == front + [e];
      CountersAlwaysExplained(c, front);
      var b := Run(c, front);
      match b.state {
        case Closed =>
          if e.Failure? {
            FailedSnoc(log);
          }
        case Open =>
          FailedSnoc(log);
          if e.Before? && TimedOut(c, b, e.now) {
            PhaseBegins(c, front, e.now);
            assert Successes([]) == 0;
          }
        case HalfOpen =>
          var earlier, now, probes :|
            HalfOpenPhase(c, front, earlier, now, probes) && b.successCount == Successes(probes);
          if e.Failure? {
            FailedSnoc(log);
          } else if e.Before? || (e.Success? && b.successCount + 1 < c.halfOpenMaxCalls) {
            PhaseContinues(c, front, earlier, now, probes, e);
          }
      }
    }
  }

  // ---------- when the state changes ----------

  /** A closed circuit opens exactly on the failure that completes a run of `failureThreshold`. */
  lemma OpensExactlyAtThreshold(c: Config, log: seq<Event>, e: Event)
    requires Sane(c) && Run(c, log).state == Closed
    ensures Run(c, log + [e]).state == Open <==> e.Failure? && FailureRun(log + [e]) == c.failureThreshold
    ensures Run(c, log + [e]).state != Open ==> Run(c, log + [e]).state == Closed
  {
    SnocFront(log, e);
    CountersAlwaysExplained(c, log);
  }

  /** A half-open circuit is left exactly on the first failure, on the `halfOpenMaxCalls`-th success since it
      half-opened, or on a reset; no attempt ever moves or is refused by it. */
  lemma HalfOpenLeftExactly(c: Config, log: seq<Event>, e: Event)
    returns (earlier: seq<Event>, now: int, probes: seq<Event>)
    requires Sane(c) && Run(c, log).state == HalfOpen
    ensures HalfOpenPhase(c, log, earlier, now, probes)
    ensures Run(c, log + [e]).state == Open <==> e.Failure?
    ensures Run(c, log + [e]).state == Closed <==>
            e.Reset? || (e.Success? && Successes(probes) + 1 == c.halfOpenMaxCalls)
    ensures forall t :: Admits(c, Run(c, log), t)
  {
    SnocFront(log, e);
    CountersAlwaysExplained(c, log);
    earlier, now, probes :|
      HalfOpenPhase(c, log, earlier, now, probes) && Run(c, log).successCount == Successes(probes);
  }

  /** An open circuit is left exactly on an attempt later than the timeout since the latest failure, which
      half-opens it, or on a reset, which closes it. In particular the results of calls still in flight, good or
      bad, leave it open. */
  lemma OpenLeftExactly(c: Config, log: seq<Event>, e: Event)
    requires Sane(c) && Run(c, log).state == Open
    ensures Failed(log)
    ensures Run(c, log + [e]).state == HalfOpen <==> e.Before? && e.now > LatestFailure(log) + c.timeout
    ensures Run(c, log + [e]).state == Closed <==> e.Reset?
  {
    SnocFront(log, e);
    CountersAlwaysExplained(c, log);
    LastFailureTimeExplained(c, log);
  }

  /** A late success does not close the circuit: the next call is still refused. */
  lemma LateSuccessChangesNothing(c: Config, log: seq<Event>, now: int)
    requires Sane(c) && Run(c, log).state == Open
    ensures Run(c, log + [Success]).state == Open
    ensures Admits(c, Run(c, log + [Success]), now) <==> Failed(log) && now > LatestFailure(log) + c.timeout
  {
    OpenLeftExactly(c, log, Success);
    RefusedExactlyWhileOpen(c, log + [Success], now);
    SnocFront(log, Success);
  }

  /** A reset closes the circuit from every state, and the next failure is the first of its run. */
  lemma ResetCloses(c: Config, log: seq<Event>)
    ensures Run(c, log + [Reset]).state == Closed && FailureRun(log + [Reset]) == 0
    ensures Run(c, log + [Reset]).failureCount == Run(c, log + [Reset]).successCount == 0
  {
    SnocFront(log, Reset);
  }

  /** A call is refused exactly when the circuit is open and the timeout since the latest failure - including
      failures of calls that were still in flight when it opened - has not passed. */
  lemma RefusedExactlyWhileOpen(c: Config, log: seq<Event>, now: int)
    requires Sane(c)
    ensures !Admits(c, Run(c, log), now) <==>
            Run(c, log).state == Open && Failed(log) && now <= LatestFailure(log) + c.timeout
  {
    CountersAlwaysExplained(c, log);
    if Failed(log) {
      LastFailureTimeExplained(c, log);
    }
  }

  ghost predicate ClockMonotone(log: seq<Event>) {
    forall i, j :: 0 <= i < j < |log| && log[i].Failure? && log[j].Failure? ==> log[i].at <= log[j].at
  }

  lemma {:induction false} LatestIsLargest(log: seq<Event>, i: nat)
    requires ClockMonotone(log) && i < |log| && log[i].Failure?
    ensures Failed(log) && log[i].at <= LatestFailure(log)
    decreases |log|
  {
    assert Failed(log);
    if !log[|log| - 1].Failure? {
      LatestIsLargest(log[..|log| - 1], i);
    }
  }

  /** With a clock that does not run backwards, an open circuit admits nothing until the timeout has passed
      since *every* failure recorded so far. */
  lemma {:induction false} OpenMeansQuiet(c: Config, log: seq<Event>, now: int, i: nat)
    requires Sane(c) && ClockMonotone(log)
    requires Run(c, log).state == Open && Admits(c, Run(c, log), now)
    requires i < |log| && log[i].Failure?
    ensures now > log[i].at + c.timeout
  {
    LatestIsLargest(log, i);
    RefusedExactlyWhileOpen(c, log, now);
  }

  // ---------- how many calls a half-open circuit lets through ----------

  /** Calls admitted and not yet answered. */
  function InFlight(c: Config, log: seq<Event>): int {
    if log == [] then 0
    else
      var front := log[..|log| - 1];
      InFlight(c, front) + FlightChange(c, Run(c, front), log[|log| - 1])
  }

  function FlightChange(c: Config, b: Breaker, e: Event): int {
    if e.Before? then (if Admits(c, b, e.now) then 1 else 0)
    else if e.Reset? then 0
    else -1
  }

  /** Every result answers an admitted call, and never more than `k` calls are in flight. */
  ghost predicate Concurrency(c: Config, log: seq<Event>, k: int) {
    forall i :: 0 <= i <= |log| ==> 0 <= InFlight(c, log[..i]) <= k
  }

  lemma ConcurrencyFront(c: Config, log: seq<Event>, k: int)
    requires log != [] && Concurrency(c, log, k)
    ensures Concurrency(c, log[..|log| - 1], k)
    ensures 0 <= InFlight(c, log) <= k
  {
    var front := log[..|log| - 1];
    assert log[..|log|] == log;
    forall i | 0 <= i <= |front| ensures 0 <= InFlight(c, front[..i]) <= k {
      assert front[..i] == log[..i];
    }
  }

  lemma InFlightNow(c: Config, log: seq<Event>, k: int)
    requires Concurrency(c, log, k)
    ensures 0 <= InFlight(c, log) <= k
  {
    assert log[..|log|] == log;
  }

  lemma InFlightSnoc(c: Config, log: seq<Event>, e: Event)
    ensures Run(c, log + [e]) == Step(c, Run(c, log), e)
    ensures InFlight(c, log + [e]) == InFlight(c, log) + FlightChange(c, Run(c, log), e)
  {
    SnocFront(log, e);
  }

  lemma PhaseFront(c: Config, log: seq<Event>, earlier: seq<Event>, now: int, probes: seq<Event>)
    requires HalfOpenPhase(c, log, earlier, now, probes) && probes != []
    ensures var fewer, e := probes[..|probes| - 1], log[|log| - 1];
            && HalfOpenPhase(c, log[..|log| - 1], earlier, now, fewer)
            && probes == fewer + [e] && (e.Before? || e.Success?)
  {
    var fewer, e := probes[..|probes| - 1], log[|log| - 1];
    assert e == probes[|probes| - 1] && e in probes;
    assert log[..|log| - 1] == earlier + [Before(now)] + fewer;
    assert forall f :: f in fewer ==> f in probes;
  }

  lemma NoFailuresHalfOpen(c: Config, log: seq<Event>)
    requires Sane(c) && Run(c, log).state == HalfOpen
    ensures Run(c, log).failureCount == 0
  {
    CountersAlwaysExplained(c, log);
  }

  lemma FirstInFlight(c: Config, open: seq<Event>, now: int, k: int)
    requires Run(c, open).state == Open && TimedOut(c, Run(c, open), now) && Concurrency(c, open, k)
    ensures Run(c, open + [Before(now)]) == Breaker(HalfOpen, 0, 0, Run(c, open).lastFailureTime)
    ensures InFlight(c, open + [Before(now)]) >= 1
  {
    InFlightNow(c, open, k);
    InFlightSnoc(c, open, Before(now));
  }

  lemma NextInFlight(c: Config, front: seq<Event>, fewer: seq<Event>, e: Event)
    requires var b := Run(c, front);
             b.state == HalfOpen && b.failureCount == 0 && b.successCount == Successes(fewer)
    requires InFlight(c, front) >= 1 + Attempts(fewer) - Successes(fewer)
    requires e.Before? || e.Success?
    requires Successes(fewer + [e]) < c.halfOpenMaxCalls
    ensures Run(c, front + [e]).state == HalfOpen && Run(c, front + [e]).successCount == Successes(fewer + [e])
    ensures InFlight(c, front + [e]) >= 1 + Attempts(fewer + [e]) - Successes(fewer + [e])
  {
    InFlightSnoc(c, front, e);
    SnocFront(fewer, e);
  }

  lemma {:induction false} ProbesInFlight(c: Config, log: seq<Event>, k: int,
                                          earlier: seq<Event>, now: int, probes: seq<Event>)
    requires Sane(c) && Concurrency(c, log, k)
    requires HalfOpenPhase(c, log, earlier, now, probes)
    ensures Run(c, log).state == HalfOpen && Run(c, log).successCount == Successes(probes)
    ensures InFlight(c, log) >= 1 + Attempts(probes) - Successes(probes)
    decreases |probes|
  {
    var front, e := log[..|log| - 1], log[|log| - 1];
    assert log == front + [e];
    ConcurrencyFront(c, log, k);
    if probes == [] {
      assert front == earlier && e == Before(now);
      LastFailureTimeExplained(c, earlier);
      FirstInFlight(c, earlier, now, k);
    } else {
      var fewer := probes[..|probes| - 1];
      PhaseFront(c, log, earlier, now, probes);
      ProbesInFlight(c, front, k, earlier, now, fewer);
      NoFailuresHalfOpen(c, front);
      NextInFlight(c, front, fewer, e);
    }
  }

  /** `halfOpenMaxCalls` bounds the calls of a half-open phase only together with the concurrency: with at most
      `k` calls in flight, at most halfOpenMaxCalls - 1 + k are let through (exactly halfOpenMaxCalls serially). */
  lemma HalfOpenCallsBounded(c: Config, log: seq<Event>, k: int,
                             earlier: seq<Event>, now: int, probes: seq<Event>)
    requires Sane(c) && Concurrency(c, log, k)
    requires HalfOpenPhase(c, log, earlier, now, probes)
    ensures 1 + Attempts(probes) <= c.halfOpenMaxCalls - 1 + k
  {
    ProbesInFlight(c, log, k, earlier, now, probes);
    assert log[..|log|] == log;
  }

  // The bound is attained: fail until open, probe serially to one success short of closing, then attempt k
  // calls at once.

  lemma ConcurrencySnoc(c: Config, log: seq<Event>, e: Event, k: int)
    requires Concurrency(c, log, k) && 0 <= InFlight(c, log + [e]) <= k
    ensures Concurrency(c, log + [e], k)
  {
    forall i | 0 <= i <= |log| + 1 ensures 0 <= InFlight(c, (log + [e])[..i]) <= k {
      if i <= |log| {
        assert (log + [e])[..i] == log[..i];
      } else {
        assert (log + [e])[..i] == log + [e];
      }
    }
  }

  /** One serial call: attempt, then result. */
  lemma SerialCall(c: Config, log: seq<Event>, now: int, result: Event, k: int)
    requires k >= 1 && Concurrency(c, log, k) && InFlight(c, log) == 0
    requires Admits(c, Run(c, log), now) && (result.Failure? || result.Success?)
    ensures Concurrency(c, log + [Before(now)] + [result], k)
    ensures InFlight(c, log + [Before(now)] + [result]) == 0
    ensures Run(c, log + [Before(now)] + [result]) == Step(c, Step(c, Run(c, log), Before(now)), result)
  {
    InFlightSnoc(c, log, Before(now));
    ConcurrencySnoc(c, log, Before(now), k);
    InFlightSnoc(c, log + [Before(now)], result);
    ConcurrencySnoc(c, log + [Before(now)], result, k);
  }

  lemma {:induction false} FailUpTo(c: Config, n: nat, k: int) returns (log: seq<Event>)
    requires Sane(c) && k >= 1 && n <= c.failureThreshold
    ensures Concurrency(c, log, k) && InFlight(c, log) == 0
    ensures Run(c, log) == Breaker(if n == c.failureThreshold then Open else Closed, n, 0, 0)
    decreases n
  {
    if n == 0 {
      log := [];
    } else {
      var shorter := FailUpTo(c, n - 1, k);
      SerialCall(c, shorter, 0, Failure(0), k);
      log := shorter + [Before(0)] + [Failure(0)];
    }
  }

  lemma ProbeSucceeds(c: Config, log: seq<Event>, earlier: seq<Event>, now: int, probes: seq<Event>, k: int)
    requires Sane(c) && Concurrency(c, log, k) && InFlight(c, log) == 1 && k >= 1
    requires HalfOpenPhase(c, log, earlier, now, probes) && Successes(probes) + 1 < c.halfOpenMaxCalls
    ensures HalfOpenPhase(c, log + [Success], earlier, now, probes + [Success])
    ensures Concurrency(c, log + [Success], k) && InFlight(c, log + [Success]) == 0
    ensures Attempts(probes + [Success]) == Attempts(probes)
    ensures Successes(probes + [Success]) == Successes(probes) + 1
  {
    PhaseContinues(c, log, earlier, now, probes, Success);
    InFlightSnoc(c, log, Success);
    ConcurrencySnoc(c, log, Success, k);
  }

  /** Any further attempt during a half-open phase is admitted. */
  lemma AttemptMore(c: Config, log: seq<Event>, earlier: seq<Event>, now: int, probes: seq<Event>, k: int)
    requires Sane(c) && Concurrency(c, log, k) && InFlight(c, log) < k
    requires HalfOpenPhase(c, log, earlier, now, probes)
    ensures HalfOpenPhase(c, log + [Before(now)], earlier, now, probes + [Before(now)])
    ensures Concurrency(c, log + [Before(now)], k)
    ensures InFlight(c, log + [Before(now)]) == InFlight(c, log) + 1
    ensures Attempts(probes + [Before(now)]) == Attempts(probes) + 1
    ensures Successes(probes + [Before(now)]) == Successes(probes)
  {
    assert log[..|log|] == log;
    ProbesInFlight(c, log, k, earlier, now, probes);
    CountersAlwaysExplained(c, log);
    PhaseContinues(c, log, earlier, now, probes, Before(now));
    InFlightSnoc(c, log, Before(now));
    ConcurrencySnoc(c, log, Before(now), k);
  }

  /** A half-open phase of `n` serial successes and one more call in flight. */
  ghost predicate SerialPhase(c: Config, log: seq<Event>, earlier: seq<Event>, now: int, probes: seq<Event>,
                              n: nat, k: int) {
    && HalfOpenPhase(c, log, earlier, now, probes)
    && Concurrency(c, log, k) && InFlight(c, log) == 1
    && Attempts(probes) == Successes(probes) == n
  }

  lemma FirstProbe(c: Config, open: seq<Event>, now: int, k: int)
    requires Sane(c) && k >= 1
    requires Concurrency(c, open, k) && InFlight(c, open) == 0
    requires Run(c, open).state == Open && TimedOut(c, Run(c, open), now)
    ensures SerialPhase(c, open + [Before(now)] + [], open, now, [], 0, k)
  {
    CountersAlwaysExplained(c, open);
    PhaseBegins(c, open, now);
    InFlightSnoc(c, open, Before(now));
    ConcurrencySnoc(c, open, Before(now), k);
    assert open + [Before(now)] + [] == open + [Before(now)];
  }

  lemma ProbeAgain(c: Config, log: seq<Event>, open: seq<Event>, now: int, probes: seq<Event>, n: nat, k: int)
    requires Sane(c) && k >= 1 && n + 1 < c.halfOpenMaxCalls
    requires SerialPhase(c, log, open, now, probes, n, k)
    ensures SerialPhase(c, log + [Success] + [Before(now)], open, now, probes + [Success] + [Before(now)], n + 1, k)
  {
    ProbeSucceeds(c, log, open, now, probes, k);
    AttemptMore(c, log + [Success], open, now, probes + [Success], k);
  }

  lemma {:induction false} ProbeUpTo(c: Config, open: seq<Event>, now: int, n: nat, k: int) returns (probes: seq<Event>)
    requires Sane(c) && k >= 1 && n < c.halfOpenMaxCalls
    requires Concurrency(c, open, k) && InFlight(c, open) == 0
    requires Run(c, open).state == Open && TimedOut(c, Run(c, open), now)
    ensures SerialPhase(c, open + [Before(now)] + probes, open, now, probes, n, k)
    decreases n
  {
    if n == 0 {
      FirstProbe(c, open, now, k);
      probes := [];
    } else {
      var fewer := ProbeUpTo(c, open, now, n - 1, k);
      ProbeAgain(c, open + [Before(now)] + fewer, open, now, fewer, n - 1, k);
      probes := fewer + [Success] + [Before(now)];
      assert open + [Before(now)] + probes == open + [Before(now)] + fewer + [Success] + [Before(now)];
    }
  }

  lemma {:induction false} AttemptUpTo(c: Config, log: seq<Event>, earlier: seq<Event>, now: int,
                                       probes: seq<Event>, n: nat, k: int) returns (more: seq<Event>)
    requires Sane(c) && Concurrency(c, log, k) && InFlight(c, log) + n <= k
    requires HalfOpenPhase(c, log, earlier, now, probes)
    ensures var longer := log + more;
            && HalfOpenPhase(c, longer, earlier, now, probes + more)
            && Concurrency(c, longer, k) && InFlight(c, longer) == InFlight(c, log) + n
            && Attempts(probes + more) == Attempts(probes) + n
    decreases n
  {
    if n == 0 {
      more := [];
      assert log + [] == log && probes + [] == probes;
    } else {
      var fewer := AttemptUpTo(c, log, earlier, now, probes, n - 1, k);
      AttemptMore(c, log + fewer, earlier, now, probes + fewer, k);
      more := fewer + [Before(now)];
      assert log + more == log + fewer + [Before(now)];
      assert probes + more == probes + fewer + [Before(now)];
    }
  }

  /** The bound of HalfOpenCallsBounded is attained by some run, for every configuration and concurrency. */
  lemma HalfOpenBoundAttained(c: Config, k: int)
    returns (log: seq<Event>, earlier: seq<Event>, now: int, probes: seq<Event>)
    requires Sane(c) && k >= 1
    ensures Concurrency(c, log, k)
    ensures HalfOpenPhase(c, log, earlier, now, probes)
    ensures 1 + Attempts(probes) == c.halfOpenMaxCalls - 1 + k
  {
    earlier := FailUpTo(c, c.failureThreshold, k);
    now := c.timeout + 1;
    var serial := ProbeUpTo(c, earlier, now, c.halfOpenMaxCalls - 1, k);
    log := earlier + [Before(now)] + serial;
    var more := AttemptUpTo(c, log, earlier, now, serial, k - 1, k);
    log, probes := log + more, serial + more;
  }

  /** Some half-open phase lets `calls` or more calls through, with at most `k` in flight. */
  ghost predicate LetsThrough(c: Config, k: int, calls: int) {
    exists log, earlier, now, probes ::
      Concurrency(c, log, k) && HalfOpenPhase(c, log, earlier, now, probes) && 1 + Attempts(probes) >= calls
  }

  /** The documented limit of `halfOpenMaxCalls` calls holds exactly for callers that never overlap. */
  lemma LimitHoldsIffSerial(c: Config, k: int)
    requires Sane(c) && k >= 1
    ensures !LetsThrough(c, k, c.halfOpenMaxCalls + 1) <==> k == 1
  {
    if LetsThrough(c, k, c.halfOpenMaxCalls + 1) {
      var log, earlier, now, probes :|
        && Concurrency(c, log, k) && HalfOpenPhase(c, log, earlier, now, probes)
        && 1 + Attempts(probes) >= c.halfOpenMaxCalls + 1;
      HalfOpenCallsBounded(c, log, k, earlier, now, probes);
    } else {
      var log, earlier, now, probes := HalfOpenBoundAttained(c, k);
    }
  }

  // ---------- implementation ----------

  class CircuitBreaker {
    var state: CircuitState
    var failureCount: int
    var successCount: int
    var lastFailureTime: int
    const config: Config

    ghost var log: seq<Event>

    ghost function Abs(): Breaker
      reads this
    {
      Breaker(state, failureCount, successCount, lastFailureTime)
    }

    ghost predicate Valid()
      reads this
    {
      Sane(config) && Abs() == Run(config, log)
    }

    constructor (config: Config)
      requires Sane(config)
      ensures Valid() && this.config == config && log == []
    {
      this.config := config;
      state, failureCount, successCount, lastFailureTime := Closed, 0, 0, 0;
      log := [];
    }

    method BeforeCall(now: int) returns (admitted: bool)
      requires Valid()
      modifies this
      ensures Valid() && log == old(log) + [Before(now)]
      ensures admitted <==> Admits(config, Run(config, old(log)), now)
      ensures state == if old(state) == Open && admitted then HalfOpen else old(state)
      ensures if state == old(state) then unchanged(`failureCount) && unchanged(`successCount)
              else failureCount == successCount == 0
      ensures lastFailureTime == old(lastFailureTime)
    {
      SnocFront(log, Before(now));
      log := log + [Before(now)];
      match state {
        case Closed =>
          return true;
        case Open =>
          if now - lastFailureTime > config.timeout {
            state := HalfOpen;
            failureCount := 0;
            successCount := 0;
            return true;
          }
          return false;
        case HalfOpen =>
          if successCount + failureCount >= config.halfOpenMaxCalls {
            return false;
          }
          return true;
      }
    }

    method AfterCall(succeeded: bool, now: int)
      requires Valid()
      modifies this
      ensures Valid() && log == old(log) + [if succeeded then Success else Failure(now)]
    {
      SnocFront(log, if succeeded then Success else Failure(now));
      if !succeeded {
        RecordFailure(now);
      } else {
        RecordSuccess();
      }
      log := log + [if succeeded then Success else Failure(now)];
    }

    method RecordFailure(now: int)
      modifies this`state, this`failureCount, this`successCount, this`lastFailureTime
      ensures Abs() == Step(config, old(Abs()), Failure(now))
      ensures lastFailureTime == now
      ensures old(state) == HalfOpen ==> state == Open && failureCount == successCount == 0
      ensures old(state) != HalfOpen ==> failureCount == old(failureCount) + 1 && successCount == old(successCount)
      ensures old(state) == Closed ==> state == if failureCount >= config.failureThreshold then Open else Closed
      ensures old(state) == Open ==> state == Open
    {
      failureCount := failureCount + 1;
      lastFailureTime := now;
      match state {
        case Closed =>
          if failureCount >= config.failureThreshold {
            state := Open;
          }
        case HalfOpen =>
          state := Open;
          failureCount := 0;
          successCount := 0;
        case Open =>
      }
    }

    method RecordSuccess()
      modifies this`state, this`failureCount, this`successCount
      ensures Abs() == Step(config, old(Abs()), Success)
      ensures if old(state) == HalfOpen && old(successCount) + 1 >= config.halfOpenMaxCalls
              then state == Closed && failureCount == successCount == 0
              else state == old(state) && successCount == old(successCount) + 1
                   && failureCount == if state == Closed then 0 else old(failureCount)
    {
      successCount := successCount + 1;
      match state {
        case HalfOpen =>
          if successCount >= config.halfOpenMaxCalls {
            state := Closed;
            failureCount := 0;
            successCount := 0;
          }
        case Closed =>
          failureCount := 0;
        case Open =>
      }
    }

    method ResetBreaker()
      requires Valid()
      modifies this
      ensures Valid() && log == old(log) + [Reset]
      ensures state == Closed && failureCount == successCount == 0 && lastFailureTime == old(lastFailureTime)
    {
      SnocFront(log, Reset);
      state := Closed;
      failureCount := 0;
      successCount := 0;
      log := log + [Reset];
    }
  }
}
