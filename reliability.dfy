/** The client-side reliability primitives: a circuit breaker, a sliding-window rate limiter
    and a retry-delay policy. The clock is an integer parameter `now`; timeouts, windows and
    delays are integers in the same unit. */
module Reliability {
  import opened Common

  datatype CircuitState = Closed | Open | HalfOpen

  /** The breaker's mutable fields as one value. */
  datatype Breaker = Breaker(state: CircuitState, failureCount: int, lastFailureTime: int, halfOpenSuccesses: int)

  /** The breaker's settings: `failure_threshold`, `recovery_timeout`, `half_open_max`. */
  datatype BreakerConfig = BreakerConfig(failureThreshold: int, recoveryTimeout: int, halfOpenMax: int)

  /** A freshly built breaker. */
  const InitialBreaker := Breaker(Closed, 0, 0, 0)

  /** `can_execute` at time `now`: the new breaker and the answer. */
  function CanExecute(c: BreakerConfig, b: Breaker, now: int): (r: (Breaker, bool))
    ensures b.state != Open ==> r == (b, true)
    ensures b.state == Open ==> (r.1 <==> now - b.lastFailureTime >= c.recoveryTimeout)
    ensures b.state == Open && r.1 ==> r.0 == b.(state := HalfOpen, halfOpenSuccesses := 0)
    ensures !r.1 ==> r.0 == b
  {
    match b.state
    case Closed => (b, true)
    case Open =>
      if now - b.lastFailureTime >= c.recoveryTimeout then (b.(state := HalfOpen, halfOpenSuccesses := 0), true)
      else (b, false)
    case HalfOpen => (b, true)
  }

  /** `record_success` */
  function RecordSuccess(c: BreakerConfig, b: Breaker): (r: Breaker)
    ensures r.lastFailureTime == b.lastFailureTime
    ensures b.state != HalfOpen ==> r == b.(failureCount := 0)
    ensures b.state == HalfOpen ==> r.halfOpenSuccesses == b.halfOpenSuccesses + 1
    ensures b.state == HalfOpen ==>
      (r.state == Closed <==> b.halfOpenSuccesses + 1 >= c.halfOpenMax) &&
      (r.state == Closed ==> r.failureCount == 0) &&
      (r.state != Closed ==> r.state == HalfOpen && r.failureCount == b.failureCount)
  {
    if b.state == HalfOpen then
      var s := b.halfOpenSuccesses + 1;
      if s >= c.halfOpenMax then b.(halfOpenSuccesses := s, state := Closed, failureCount := 0)
      else b.(halfOpenSuccesses := s)
    else b.(failureCount := 0)
  }

  /** `record_failure` at time `now`. */
  function RecordFailure(c: BreakerConfig, b: Breaker, now: int): (r: Breaker)
    ensures r.failureCount == b.failureCount + 1 && r.lastFailureTime == now
    ensures r.halfOpenSuccesses == b.halfOpenSuccesses
    ensures b.state == HalfOpen ==> r.state == Open
    ensures b.state != HalfOpen ==>
      r.state == (if b.failureCount + 1 >= c.failureThreshold then Open else b.state)
  {
    var n := b.failureCount + 1;
    if b.state == HalfOpen then b.(failureCount := n, lastFailureTime := now, state := Open)
    else if n >= c.failureThreshold then b.(failureCount := n, lastFailureTime := now, state := Open)
    else b.(failureCount := n, lastFailureTime := now)
  }

  /** One call on the breaker, with the clock reading it sees. */
  datatype BreakerEvent = Ask(now: int) | Success | Failure(now: int)

  function Step(c: BreakerConfig, b: Breaker, e: BreakerEvent): Breaker {
    match e
    case Ask(now) => CanExecute(c, b, now).0
    case Success => RecordSuccess(c, b)
    case Failure(now) => RecordFailure(c, b, now)
  }

  function Run(c: BreakerConfig, b: Breaker, es: seq<BreakerEvent>): Breaker
    decreases |es|
  {
    if |es| == 0 then b else Run(c, Step(c, b, es[0]), es[1..])
  }

  /** What the breaker keeps true: a closed breaker has failed fewer times than the
      threshold since it last closed, and a half-open one has fewer successes than it needs
      to close (counting from zero in both cases when the setting is not positive). */
  ghost predicate BreakerInv(c: BreakerConfig, b: Breaker) {
    (b.state == Closed ==> b.failureCount == 0 || b.failureCount < c.failureThreshold) &&
    (b.state == HalfOpen ==> b.halfOpenSuccesses == 0 || b.halfOpenSuccesses < c.halfOpenMax) &&
    b.failureCount >= 0 && b.halfOpenSuccesses >= 0
  }

  lemma InitialBreakerInv(c: BreakerConfig)
    ensures BreakerInv(c, InitialBreaker)
  {
  }

  lemma StepKeepsInv(c: BreakerConfig, b: Breaker, e: BreakerEvent)
    requires BreakerInv(c, b)
    ensures BreakerInv(c, Step(c, b, e))
  {
  }

  /** Every sequence of calls keeps the invariant. */
  lemma {:induction false} RunKeepsInv(c: BreakerConfig, b: Breaker, es: seq<BreakerEvent>)
    requires BreakerInv(c, b)
    ensures BreakerInv(c, Run(c, b, es))
    decreases |es|
  {
    if |es| > 0 {
      StepKeepsInv(c, b, es[0]);
      RunKeepsInv(c, Step(c, b, es[0]), es[1..]);
    }
  }

  /** A closed breaker opens only on a failure, and only once the failure count reaches the
      threshold; asking and succeeding never open it. */
  lemma ClosedOpensOnlyAtThreshold(c: BreakerConfig, b: Breaker, e: BreakerEvent)
    requires b.state == Closed && Step(c, b, e).state == Open
    ensures e.Failure? && Step(c, b, e).failureCount >= c.failureThreshold
  {
  }

  /** Any failure while half-open reopens the breaker. */
  lemma HalfOpenFailureReopens(c: BreakerConfig, b: Breaker, now: int)
    requires b.state == HalfOpen
    ensures Step(c, b, Failure(now)).state == Open
  {
  }

  /** An open breaker refuses until `recovery_timeout` has passed since the last failure;
      then it lets one call through and becomes half-open with no successes counted. */
  lemma OpenWaitsForRecovery(c: BreakerConfig, b: Breaker, now: int)
    requires b.state == Open
    ensures var (b', ok) := CanExecute(c, b, now);
      (ok <==> now - b.lastFailureTime >= c.recoveryTimeout) &&
      (ok ==> b'.state == HalfOpen && b'.halfOpenSuccesses == 0) &&
      (!ok ==> b' == b)
  {
  }

  /** A half-open breaker closes after `half_open_max` consecutive successes, with the
      failure count reset. */
  lemma {:induction false} HalfOpenClosesAfterSuccesses(c: BreakerConfig, b: Breaker, k: nat)
    requires b.state == HalfOpen && b.halfOpenSuccesses + k >= c.halfOpenMax
    requires k >= 1
    ensures var r := Run(c, b, seq(k, _ => Success)); r.state == Closed && r.failureCount == 0
    decreases k
  {
    var es := seq(k, _ => Success);
    var b1 := Step(c, b, Success);
    assert es[1..] == seq(k - 1, _ => Success);
    if b1.state == HalfOpen {
      HalfOpenClosesAfterSuccesses(c, b1, k - 1);
    } else {
      SuccessesKeepClosed(c, b1, k - 1);
    }
  }

  /** Successes leave a closed breaker closed with no failures counted. */
  lemma {:induction false} SuccessesKeepClosed(c: BreakerConfig, b: Breaker, k: nat)
    requires b.state == Closed && b.failureCount == 0
    ensures var r := Run(c, b, seq(k, _ => Success)); r.state == Closed && r.failureCount == 0
    decreases k
  {
    if k > 0 {
      assert seq(k, _ => Success)[1..] == seq(k - 1, _ => Success);
      SuccessesKeepClosed(c, Step(c, b, Success), k - 1);
    }
  }

  class CircuitBreaker {
    const config: BreakerConfig
    var state: CircuitState
    var failureCount: int
    var lastFailureTime: int
    var halfOpenSuccesses: int

    function View(): Breaker
      reads this
    {
      Breaker(state, failureCount, lastFailureTime, halfOpenSuccesses)
    }

    ghost predicate Valid()
      reads this
    {
      BreakerInv(config, View())
    }

    constructor (failureThreshold: int, recoveryTimeout: int, halfOpenMax: int)
      ensures config == BreakerConfig(failureThreshold, recoveryTimeout, halfOpenMax)
      ensures View() == InitialBreaker && Valid()
    {
      config := BreakerConfig(failureThreshold, recoveryTimeout, halfOpenMax);
      state, failureCount, lastFailureTime, halfOpenSuccesses := Closed, 0, 0, 0;
    }

    /** `can_execute()` */
    method CanExecuteAt(now: int) returns (ok: bool)
      requires Valid()
      modifies this
      ensures Valid() && (View(), ok) == CanExecute(config, old(View()), now)
    {
      StepKeepsInv(config, View(), Ask(now));
      ok := true;
      if state == Open {
        if now - lastFailureTime >= config.recoveryTimeout {
          state := HalfOpen;
          halfOpenSuccesses := 0;
        } else {
          ok := false;
        }
      }
    }

    /** `record_success()` */
    method RecordSuccessNow()
      requires Valid()
      modifies this
      ensures Valid() && View() == RecordSuccess(config, old(View()))
    {
      StepKeepsInv(config, View(), Success);
      if state == HalfOpen {
        halfOpenSuccesses := halfOpenSuccesses + 1;
        if halfOpenSuccesses >= config.halfOpenMax {
          state := Closed;
          failureCount := 0;
        }
      } else {
        failureCount := 0;
      }
    }

    /** `record_failure()` at time `now`. */
    method RecordFailureAt(now: int)
      requires Valid()
      modifies this
      ensures Valid() && View() == RecordFailure(config, old(View()), now)
    {
      StepKeepsInv(config, View(), Failure(now));
      failureCount := failureCount + 1;
      lastFailureTime := now;
      if state == HalfOpen {
        state := Open;
      } else if failureCount >= config.failureThreshold {
        state := Open;
      }
    }
  }

  // ---------------------------------------------------------------------------------------
  // Rate limiter

  /** `[t for t in requests if t > cutoff]` */
  function Recent(requests: seq<int>, cutoff: int): (r: seq<int>)
    ensures |r| <= |requests|
    ensures forall i :: 0 <= i < |r| ==> r[i] > cutoff
    ensures forall t :: t in r <==> t in requests && t > cutoff
    ensures multiset(r) <= multiset(requests)
    decreases |requests|
  {
    if |requests| == 0 then []
    else
      var rest := Recent(requests[..|requests| - 1], cutoff);
      var t := requests[|requests| - 1];
      assert requests == requests[..|requests| - 1] + [t];
      if t > cutoff then rest + [t] else rest
  }

  /** One more request is kept, at the end, exactly when it is recent. */
  lemma RecentSnoc(a: seq<int>, t: int, cutoff: int)
    ensures Recent(a + [t], cutoff) == Recent(a, cutoff) + (if t > cutoff then [t] else [])
  {
    assert (a + [t])[..|a + [t]| - 1] == a;
  }

  /** The filter keeps order and multiplicity: filtering a concatenation concatenates the
      filtered parts. */
  lemma {:induction false} RecentAppend(a: seq<int>, b: seq<int>, cutoff: int)
    ensures Recent(a + b, cutoff) == Recent(a, cutoff) + Recent(b, cutoff)
    decreases |b|
  {
    if |b| == 0 {
      assert a + b == a;
    } else {
      var b', t := b[..|b| - 1], b[|b| - 1];
      assert b == b' + [t];
      assert a + b == (a + b') + [t];
      RecentAppend(a, b', cutoff);
      RecentSnoc(a + b', t, cutoff);
      RecentSnoc(b', t, cutoff);
    }
  }

  /** Keeping the recent requests keeps their order: the result is the requests with the old
      ones dropped, and dropping from a list already all recent changes nothing. */
  lemma {:induction false} RecentAllNew(requests: seq<int>, cutoff: int)
    requires forall i :: 0 <= i < |requests| ==> requests[i] > cutoff
    ensures Recent(requests, cutoff) == requests
    decreases |requests|
  {
    if |requests| > 0 {
      RecentAllNew(requests[..|requests| - 1], cutoff);
    }
  }

  /** `allow()` at time `now`: the new request list and the answer. */
  function Allow(maxRequests: int, window: int, requests: seq<int>, now: int): (r: (seq<int>, bool))
    ensures var kept := Recent(requests, now - window);
      (r.1 <==> |kept| < maxRequests) &&
      r.0 == (if r.1 then kept + [now] else kept)
  {
    var kept := Recent(requests, now - window);
    if |kept| < maxRequests then (kept + [now], true) else (kept, false)
  }

  /** The limiter never holds more than `max_requests` timestamps, and every one it keeps is
      inside the window ending at the latest call, or is that call. */
  lemma AllowBounded(maxRequests: int, window: int, requests: seq<int>, now: int)
    requires |requests| <= Max(maxRequests, 0)
    ensures var (rs, _) := Allow(maxRequests, window, requests, now);
      |rs| <= Max(maxRequests, 0) && forall i :: 0 <= i < |rs| ==> rs[i] > now - window || rs[i] == now
  {
  }

  class RateLimiter {
    const maxRequests: int
    const window: int
    var requests: seq<int>

    ghost predicate Valid()
      reads this
    {
      |requests| <= Max(maxRequests, 0)
    }

    constructor (maxRequests: int, window: int)
      ensures this.maxRequests == maxRequests && this.window == window
      ensures requests == [] && Valid()
    {
      this.maxRequests, this.window := maxRequests, window;
      requests := [];
    }

    /** `allow()` */
    method AllowAt(now: int) returns (ok: bool)
      requires Valid()
      modifies this
      ensures Valid() && (requests, ok) == Allow(maxRequests, window, old(requests), now)
    {
      requests := Recent(requests, now - window);
      if |requests| < maxRequests {
        requests := requests + [now];
        ok := true;
      } else {
        ok := false;
      }
    }
  }

  // ---------------------------------------------------------------------------------------
  // Retry delay

  function Pow2(n: nat): (r: nat)
    ensures r >= 1
  {
    if n == 0 then 1 else 2 * Pow2(n - 1)
  }

  lemma {:induction false} Pow2Monotone(a: nat, b: nat)
    requires a <= b
    ensures Pow2(a) <= Pow2(b)
    decreases b
  {
    if a < b {
      Pow2Monotone(a, b - 1);
    }
  }

  datatype RetryPolicy = RetryPolicy(maxRetries: int, baseDelay: int, maxDelay: int, exponential: bool)

  /** `get_delay(attempt)`: `base * 2^attempt` (or just `base`), capped at `max_delay`. */
  function GetDelay(p: RetryPolicy, attempt: nat): (r: int)
    ensures r <= p.maxDelay
    ensures r <= (if p.exponential then p.baseDelay * Pow2(attempt) else p.baseDelay)
    ensures r == p.maxDelay || r == (if p.exponential then p.baseDelay * Pow2(attempt) else p.baseDelay)
  {
    var delay := if p.exponential then p.baseDelay * Pow2(attempt) else p.baseDelay;
    Min(delay, p.maxDelay)
  }

  /** With a non-negative base delay, later attempts never wait less. */
  lemma GetDelayMonotone(p: RetryPolicy, a: nat, b: nat)
    requires a <= b && p.baseDelay >= 0
    ensures GetDelay(p, a) <= GetDelay(p, b)
  {
    Pow2Monotone(a, b);
    assert p.baseDelay * Pow2(a) <= p.baseDelay * Pow2(b) by {
      MulMonotone(p.baseDelay, Pow2(a), Pow2(b));
    }
  }

  lemma MulMonotone(k: nat, x: nat, y: nat)
    requires x <= y
    ensures k * x <= k * y
  {
  }
}
