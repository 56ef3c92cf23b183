/**
 Retries under a deadline: the wrapper's retry loop, its use of the breaker, and what a
 caller can count on about calls made and time taken.

 Time is exact and relative to the start of the call. What the outside world does is a
 schedule fixed beforehand but arbitrary: how long each call takes and what it answers,
 the jitter drawn for each delay, and when, if ever, the caller's signal aborts.
 */
module Retry {
  import opened Prelude
  import opened Breaker

  datatype Answer = Ok | RetryableError(code: string) | OtherError(code: string) | Cancelled | Disabled | Throws

  /** One transport call: how long it would run if left alone, its answer, and the fetches it makes. */
  datatype Attempt = Attempt(takes: real, answer: Answer, fetches: nat)

  datatype Schedule = Schedule(attempts: nat -> Attempt, random: nat -> real, abortAt: Option<real>)

  ghost predicate Plausible(w: Schedule) {
    && (forall k :: w.attempts(k).takes >= 0.0)
    && (forall k :: 0.0 <= w.random(k) < 1.0)
  }

  datatype Policy = Policy(deadline: real, maxAttempts: nat, baseDelay: real, maxDelay: real, jitter: real)

  ghost predicate Sane(p: Policy) {
    p.maxAttempts >= 1 && p.jitter >= 0.0 && p.maxDelay >= 0.0
  }

  datatype Outcome = Answered(answer: Answer) | DeadlineExceeded | Aborted

  /** How a wrapped call ends: its outcome, the transport calls made, and the time it resolves. */
  datatype Resolution = Resolution(outcome: Outcome, calls: nat, at: real)

  function Pow2(k: nat): (r: real)
    ensures r >= 1.0
  {
    if k == 0 then 1.0 else 2.0 * Pow2(k - 1)
  }

  function MinR(a: real, b: real): real {
    if a < b then a else b
  }

  function MaxR(a: real, b: real): real {
    if a > b then a else b
  }

  /** Exponential backoff, capped, plus jitter on top of the cap. */
  function BackoffDelay(attempt: nat, base: real, cap: real, jitter: real, random: real): real {
    var d := MinR(cap, base * Pow2(attempt));
    d + d * jitter * random
  }

  function DelayAfter(p: Policy, w: Schedule, attempt: nat): real {
    BackoffDelay(attempt, p.baseDelay, p.maxDelay, p.jitter, w.random(attempt))
  }

  predicate IsAborted(w: Schedule, t: real) {
    w.abortAt.Some? && w.abortAt.value <= t
  }

  /** A sleep of `d` from `t`: nothing when not positive, cut short by an abort. */
  function WakeAt(w: Schedule, t: real, d: real): (r: real)
    ensures t <= r <= MaxR(t, t + d)
  {
    if d <= 0.0 then t
    else if w.abortAt.Some? && t <= w.abortAt.value < t + d then w.abortAt.value
    else if IsAborted(w, t) then t
    else t + d
  }

  /** The wrapper's loop from attempt `k`, starting at `t`. */
  function Resolve(p: Policy, w: Schedule, k: nat, t: real): Resolution
    decreases p.maxAttempts - k
  {
    if IsAborted(w, t) then Resolution(Aborted, k, t)
    else if p.deadline - t <= 0.0 then Resolution(DeadlineExceeded, k, t)
    else
      var a := w.attempts(k);
      if a.takes >= p.deadline - t then
        Resolution(if IsAborted(w, p.deadline) then Aborted else DeadlineExceeded, k + 1, p.deadline)
      else
        var done := t + a.takes;
        if !a.answer.RetryableError? && !a.answer.Throws? then Resolution(Answered(a.answer), k + 1, done)
        else if IsAborted(w, done) then Resolution(Aborted, k + 1, done)
        else if k + 1 >= p.maxAttempts || !a.answer.RetryableError? then Resolution(Answered(a.answer), k + 1, done)
        else
          var wake := WakeAt(w, done, DelayAfter(p, w, k));
          if IsAborted(w, wake) then Resolution(Aborted, k + 1, wake)
          else Resolve(p, w, k + 1, wake)
  }

  /** The retry loop. `maxAttempts` below one still makes one attempt. */
  method WithRetry(p: Policy, w: Schedule) returns (r: Resolution)
    requires p.maxAttempts >= 1
    ensures r == Resolve(p, w, 0, 0.0)
  {
    var attempt: nat, now := 0, 0.0;
    while true
      invariant attempt < p.maxAttempts
      invariant Resolve(p, w, attempt, now) == Resolve(p, w, 0, 0.0)
      decreases p.maxAttempts - attempt
    {
      if IsAborted(w, now) {
        return Resolution(Aborted, attempt, now);
      }
      var remaining := p.deadline - now;
      if remaining <= 0.0 {
        return Resolution(DeadlineExceeded, attempt, now);
      }
      var a := w.attempts(attempt);
      var failure: Outcome, calls := DeadlineExceeded, attempt + 1;
      if a.takes >= remaining {
        now := p.deadline;
      } else {
        now := now + a.takes;
        if !a.answer.RetryableError? && !a.answer.Throws? {
          return Resolution(Answered(a.answer), calls, now);
        }
        failure := Answered(a.answer);
      }
      if IsAborted(w, now) {
        return Resolution(Aborted, calls, now);
      }
      if attempt + 1 >= p.maxAttempts || failure.DeadlineExceeded? || !a.answer.RetryableError? {
        return Resolution(failure, calls, now);
      }
      now := WakeAt(w, now, DelayAfter(p, w, attempt));
      if IsAborted(w, now) {
        return Resolution(Aborted, calls, now);
      }
      attempt := attempt + 1;
    }
  }

  lemma Scaled(x: real, y: real, f: real)
    requires x <= y && f >= 0.0
    ensures x * f <= y * f
  {
  }

  lemma JitteredBounds(d: real, cap: real, jitter: real, r: real)
    requires d <= cap && cap >= 0.0 && jitter >= 0.0 && 0.0 <= r < 1.0
    ensures d + d * jitter * r <= cap + cap * jitter
    ensures d <= 0.0 ==> d + d * jitter * r <= 0.0
  {
    var factor := jitter * r;
    Scaled(0.0, r, jitter);
    Scaled(r, 1.0, jitter);
    assert d * jitter * r == d * factor;
    if d >= 0.0 {
      Scaled(factor, jitter, d);
      Scaled(d, cap, jitter);
    } else {
      Scaled(d, 0.0, factor);
      Scaled(0.0, cap, jitter);
    }
  }

  lemma DelayBounds(p: Policy, w: Schedule, k: nat)
    requires Sane(p) && Plausible(w)
    ensures DelayAfter(p, w, k) <= p.maxDelay * (1.0 + p.jitter)
    ensures p.baseDelay <= 0.0 || p.maxDelay == 0.0 ==> DelayAfter(p, w, k) <= 0.0
  {
    var d := MinR(p.maxDelay, p.baseDelay * Pow2(k));
    if p.baseDelay <= 0.0 {
    }
    JitteredBounds(d, p.maxDelay, p.jitter, w.random(k));
    assert p.maxDelay * (1.0 + p.jitter) == p.maxDelay + p.maxDelay * p.jitter;
  }

  /** Never more than `maxAttempts` calls; every call but the last ended in a retryable error. */
  lemma {:induction false} CallsAreBounded(p: Policy, w: Schedule, k: nat, t: real)
    requires k < p.maxAttempts
    ensures k <= Resolve(p, w, k, t).calls <= p.maxAttempts
    ensures forall i :: k <= i < Resolve(p, w, k, t).calls - 1 ==> w.attempts(i).answer.RetryableError?
    decreases p.maxAttempts - k
  {
    if k + 1 < p.maxAttempts {
      CallsAreBounded(p, w, k + 1, WakeAt(w, t + w.attempts(k).takes, DelayAfter(p, w, k)));
    }
  }

  /** An answer is the last call's own answer; a retryable error is answered only when no attempt is left. */
  lemma {:induction false} AnswerIsTheLastCalls(p: Policy, w: Schedule, k: nat, t: real)
    requires k < p.maxAttempts && Resolve(p, w, k, t).outcome.Answered?
    ensures var r := Resolve(p, w, k, t);
            && r.calls > k && r.outcome.answer == w.attempts(r.calls - 1).answer
            && (r.outcome.answer.RetryableError? ==> r.calls == p.maxAttempts)
    decreases p.maxAttempts - k
  {
    var a, done := w.attempts(k), t + w.attempts(k).takes;
    if a.answer.RetryableError? && !IsAborted(w, done) && k + 1 < p.maxAttempts {
      AnswerIsTheLastCalls(p, w, k + 1, WakeAt(w, done, DelayAfter(p, w, k)));
    }
  }

  /** The delay doubles from attempt to attempt up to its cap, and the jitter comes on top. */
  lemma DelayDoubles(attempt: nat, base: real, cap: real, jitter: real, random: real)
    requires base >= 0.0 && cap >= 0.0
    ensures BackoffDelay(0, base, cap, 0.0, 0.0) == MinR(cap, base)
    ensures BackoffDelay(attempt + 1, base, cap, 0.0, 0.0) == MinR(cap, 2.0 * BackoffDelay(attempt, base, cap, 0.0, 0.0))
    ensures BackoffDelay(attempt, base, cap, jitter, random)
         == BackoffDelay(attempt, base, cap, 0.0, 0.0) + BackoffDelay(attempt, base, cap, 0.0, 0.0) * jitter * random
  {
    var x := base * Pow2(attempt);
    assert base * Pow2(attempt + 1) == 2.0 * x;
    assert x >= 0.0;
  }

  /** A deadline is reported missed only when it has passed, and an abort only when the caller aborted. */
  lemma {:induction false} OutcomeIsEarned(p: Policy, w: Schedule, k: nat, t: real)
    ensures var r := Resolve(p, w, k, t);
            && (r.outcome.DeadlineExceeded? ==> r.at >= p.deadline)
            && (r.outcome.Aborted? ==> w.abortAt.Some? && w.abortAt.value <= r.at)
    decreases p.maxAttempts - k
  {
    if k + 1 < p.maxAttempts {
      OutcomeIsEarned(p, w, k + 1, WakeAt(w, t + w.attempts(k).takes, DelayAfter(p, w, k)));
    }
  }

  /** A retryable error is retried, after the delay, whenever an attempt and time are left and nobody aborts. */
  lemma RetriesWhileItCan(p: Policy, w: Schedule, k: nat, t: real)
    requires k + 1 < p.maxAttempts && w.abortAt.None? && w.attempts(k).answer.RetryableError?
    requires t < p.deadline && t + w.attempts(k).takes < p.deadline
    ensures Resolve(p, w, k, t) == Resolve(p, w, k + 1, t + w.attempts(k).takes + MaxR(0.0, DelayAfter(p, w, k)))
  {
  }

  /** If no sleep is longer than `slack`, the call resolves by its deadline plus `slack`. */
  lemma {:induction false} ResolvesWithin(p: Policy, w: Schedule, k: nat, t: real, slack: real)
    requires Plausible(w) && k < p.maxAttempts && slack >= 0.0
    requires p.maxAttempts <= 1 || forall i: nat :: DelayAfter(p, w, i) <= slack
    requires 0.0 <= t <= MaxR(0.0, p.deadline) + slack
    ensures 0.0 <= Resolve(p, w, k, t).at <= MaxR(0.0, p.deadline) + slack
    decreases p.maxAttempts - k
  {
    if k + 1 < p.maxAttempts && t < p.deadline && t + w.attempts(k).takes < p.deadline {
      ResolvesWithin(p, w, k + 1, WakeAt(w, t + w.attempts(k).takes, DelayAfter(p, w, k)), slack);
    }
  }

  /** On every schedule a wrapped call resolves by its deadline plus one longest backoff delay. */
  lemma ResolvesInTime(p: Policy, w: Schedule)
    requires Sane(p) && Plausible(w)
    ensures 0.0 <= Resolve(p, w, 0, 0.0).at <= MaxR(0.0, p.deadline) + p.maxDelay * (1.0 + p.jitter)
  {
    var slack := p.maxDelay * (1.0 + p.jitter);
    assert slack >= 0.0;
    forall i: nat ensures DelayAfter(p, w, i) <= slack {
      DelayBounds(p, w, i);
    }
    ResolvesWithin(p, w, 0, 0.0, slack);
  }

  ghost predicate AlwaysOnTime(p: Policy) {
    forall w :: Plausible(w) ==> Resolve(p, w, 0, 0.0).at <= MaxR(0.0, p.deadline)
  }

  /** A first attempt that fails just before the deadline is followed by a sleep across it. */
  lemma OversleepingSchedule(p: Policy) returns (w: Schedule)
    requires Sane(p) && p.deadline > 0.0 && p.maxAttempts > 1 && p.baseDelay > 0.0 && p.maxDelay > 0.0
    ensures Plausible(w) && Resolve(p, w, 0, 0.0).at > p.deadline
  {
    var d := MinR(p.maxDelay, p.baseDelay * Pow2(0));
    var takes := p.deadline - MinR(p.deadline, d) / 2.0;
    var attempt := Attempt(takes, RetryableError("jev.overloaded"), 1);
    w := Schedule(k => attempt, k => 0.0, None);
    assert DelayAfter(p, w, 0) == d;
    assert WakeAt(w, takes, d) == takes + d > p.deadline;
    assert Resolve(p, w, 0, 0.0) == Resolve(p, w, 1, takes + d);
  }

  /**
   A wrapped call is sure to resolve by its own deadline exactly when it never sleeps:
   the backoff sleep is not cut at the deadline.
   */
  lemma OnTimeExactlyWithoutSleeping(p: Policy)
    requires Sane(p)
    ensures AlwaysOnTime(p) <==>
            p.deadline <= 0.0 || p.maxAttempts <= 1 || p.baseDelay <= 0.0 || p.maxDelay == 0.0
  {
    if p.deadline <= 0.0 {
      assert forall w :: Plausible(w) ==> Resolve(p, w, 0, 0.0).at == 0.0;
    } else if p.maxAttempts <= 1 || p.baseDelay <= 0.0 || p.maxDelay == 0.0 {
      forall w | Plausible(w) ensures Resolve(p, w, 0, 0.0).at <= MaxR(0.0, p.deadline) {
        forall i: nat ensures p.maxAttempts <= 1 || DelayAfter(p, w, i) <= 0.0 {
          DelayBounds(p, w, i);
        }
        ResolvesWithin(p, w, 0, 0.0, 0.0);
      }
    } else {
      var w := OversleepingSchedule(p);
    }
  }

  /** The fetches made by the first `calls` transport calls together. */
  function FetchesOf(w: Schedule, calls: nat): nat {
    if calls == 0 then 0 else FetchesOf(w, calls - 1) + w.attempts(calls - 1).fetches
  }

  lemma {:induction false} FetchesPerCall(w: Schedule, calls: nat, each: nat)
    requires forall k: nat :: w.attempts(k).fetches <= each
    ensures FetchesOf(w, calls) <= calls * each
  {
    if calls > 0 {
      FetchesPerCall(w, calls - 1, each);
    }
  }

  // ----- the wrapped call and the breaker -----

  datatype Report = ReportSuccess | ReportCancelled | ReportFailure

  /** What a wrapped call tells the breaker, from how its retry loop ended. */
  function ReportOf(o: Outcome): Report {
    match o
    case Answered(Ok) => ReportSuccess
    case Answered(Cancelled) => ReportCancelled
    case Aborted => ReportCancelled
    case _ => ReportFailure
  }

  function Reported(cfg: Config, v: View, report: Report, now: int): View {
    match report
    case ReportSuccess => Succeeded(v)
    case ReportCancelled => FreeSlot(v)
    case ReportFailure => Failed(cfg, v, now)
  }

  /**
   What the breaker makes of a wrapped call: an answer closes it and clears the count; a
   cancellation or an abort changes neither; anything else, a missed deadline included, is
   a failure, which opens it afresh when half-open and otherwise counts towards the threshold.
   */
  lemma OutcomeIsReported(cfg: Config, v: View, o: Outcome, now: int)
    ensures var after := Reported(cfg, v, ReportOf(o), now);
            if o == Answered(Ok) then after.phase.Closed? && after.failures == 0 && after.openedAt.None?
            else if o == Answered(Cancelled) || o.Aborted? then
              after.phase == v.phase && after.failures == v.failures && after.openedAt == v.openedAt
            else if v.phase.HalfOpen? then after == View(Open, v.failures, Some(now), 0)
            else
              && after.failures == v.failures + 1
              && if v.failures + 1 >= cfg.threshold then after.phase.Open? && after.openedAt == Some(now)
                 else after.phase == v.phase && after.openedAt == v.openedAt
  {
  }

  /**
   One wrapped call. Refused while the breaker admits nothing, without touching the
   transport; otherwise it takes one slot and reports to the breaker exactly once, however
   many attempts ran. `finished` is the clock when it resolves; the answer is `None` when refused.
   */
  method RunWrapped(b: CircuitBreaker, p: Policy, w: Schedule, now: int, finished: int) returns (r: Option<Resolution>)
    requires p.maxAttempts >= 1
    modifies b
    ensures r.None? <==> !Admits(b.cfg, Refresh(b.cfg, old(b.Value()), now))
    ensures r.None? ==> b.Value() == Refresh(b.cfg, old(b.Value()), now)
    ensures r.Some? ==>
              && r.value == Resolve(p, w, 0, 0.0) && r.value.calls <= p.maxAttempts
              && b.Value() == Reported(b.cfg, Enter(Refresh(b.cfg, old(b.Value()), now)), ReportOf(r.value.outcome), finished)
  {
    var ok := b.CanProceed(now);
    if !ok {
      return None;
    }
    b.BeforeCall(now);
    var resolution := WithRetry(p, w);
    CallsAreBounded(p, w, 0, 0.0);
    match ReportOf(resolution.outcome) {
      case ReportSuccess => b.OnSuccess();
      case ReportCancelled => b.OnCancelled();
      case ReportFailure => b.OnFailure(finished);
    }
    return Some(resolution);
  }
}
