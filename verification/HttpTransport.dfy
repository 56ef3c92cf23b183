/**
 The HTTP transport's own retry loop, inside one call of the wrapper's, and the two loops
 together. Times are relative to the start of the HTTP call.
 */
module HttpTransport {
  import opened Prelude
  import opened Retry

  /** How a fetch ends. `bodyTakes` is how long the body takes after the headers. */
  datatype Reply =
    | NetworkError
    | Http(status: int, retryAfter: Option<real>, bodyTakes: real, answersParsed: bool)

  datatype Fetch = Fetch(takes: real, reply: Reply)

  /** `timerLag` is how long after the deadline the deadline timer's abort is seen. */
  datatype Wire = Wire(fetches: nat -> Fetch, random: nat -> real, abortAt: Option<real>, timerLag: real)

  ghost predicate PlausibleWire(w: Wire) {
    && (forall k :: w.fetches(k).takes >= 0.0)
    && (forall k :: w.fetches(k).reply.Http? ==> w.fetches(k).reply.bodyTakes >= 0.0)
    && w.timerLag >= 0.0
  }

  type Code = string

  datatype HttpResult = HttpOk | HttpError(code: Code)

  /** What a call answers and reports, when it is over, and the fetches it made on the wire. */
  datatype Evaluation = Evaluation(result: HttpResult, attempts: nat, elapsed: real, fetched: nat)

  predicate RetryableStatus(status: int) {
    status == 429 || status == 529 || status >= 500
  }

  predicate OkStatus(status: int) {
    200 <= status < 300
  }

  function CodeForStatus(status: int): Code {
    if status == 401 || status == 403 then "jev.auth"
    else if status == 400 || status == 422 then "jev.bad_request"
    else if status == 429 then "jev.rate_limited"
    else if status == 529 then "jev.overloaded"
    else if status >= 500 then "jev.unavailable"
    else "jev.unknown"
  }

  /** A reply after which the loop may try again. */
  predicate Transient(reply: Reply) {
    reply.NetworkError? || (!OkStatus(reply.status) && RetryableStatus(reply.status))
  }

  /** The instant the combined signal aborts. */
  function SignalAt(w: Wire, deadline: real): real {
    if w.abortAt.Some? then MinR(w.abortAt.value, deadline + w.timerLag) else deadline + w.timerLag
  }

  const BASE_BACKOFF := 500.0
  const MAX_BACKOFF := 5000.0

  /** When the sleep before the next attempt is over: as asked or backed off, within the deadline, cut by the signal. */
  function NextAt(deadline: real, w: Wire, attempt: nat, t: real, retryAfter: Option<real>): real {
    var delay := if retryAfter.Some? then retryAfter.value
                 else BackoffDelay(attempt, BASE_BACKOFF, MAX_BACKOFF, 0.25, w.random(attempt));
    var wait := MinR(delay, MaxR(0.0, deadline - t));
    if wait <= 0.0 then t else MinR(t + wait, MaxR(t, SignalAt(w, deadline)))
  }

  /** The loop from `attempt` on, at time `t`, with the error of the attempt before. */
  function Evaluated(deadline: real, maxRetries: int, w: Wire, attempt: nat, t: real, last: Option<Code>): Evaluation
    decreases if attempt <= maxRetries then 1 + maxRetries - attempt else 0
  {
    var signal := SignalAt(w, deadline);
    if attempt > maxRetries then Evaluation(HttpError(if last.Some? then last.value else "jev.unknown"), attempt, t, 0)
    else if signal <= t then Evaluation(HttpError("jev.cancelled"), attempt, t, 0)
    else if deadline - t <= 0.0 then
      Evaluation(HttpError(if last.Some? then last.value else "jev.unavailable"), attempt, t, 0)
    else
      var f := w.fetches(attempt);
      if t + f.takes >= signal then Evaluation(HttpError("jev.cancelled"), attempt + 1, signal, 1)
      else if f.reply.NetworkError? then
        if attempt >= maxRetries then Evaluation(HttpError("jev.unavailable"), attempt + 1, t + f.takes, 1)
        else OneMore(Evaluated(deadline, maxRetries, w, attempt + 1,
                               NextAt(deadline, w, attempt, t + f.takes, None), Some("jev.unavailable")))
      else
        var read := MinR(t + f.takes + f.reply.bodyTakes, signal);
        if OkStatus(f.reply.status) then
          var parsed := f.reply.answersParsed && read < signal;
          Evaluation(if parsed then HttpOk else HttpError("jev.malformed_response"), attempt + 1, read, 1)
        else if !RetryableStatus(f.reply.status) || attempt >= maxRetries then
          Evaluation(HttpError(CodeForStatus(f.reply.status)), attempt + 1, read, 1)
        else OneMore(Evaluated(deadline, maxRetries, w, attempt + 1,
                               NextAt(deadline, w, attempt, read, f.reply.retryAfter), Some(CodeForStatus(f.reply.status))))
  }

  function OneMore(e: Evaluation): Evaluation {
    e.(fetched := e.fetched + 1)
  }

  /** `HttpJevTransport.evaluate`. A body cut short by the signal is an unparsed body, not a cancellation. */
  method Evaluate(deadline: real, maxRetries: int, w: Wire) returns (e: Evaluation)
    ensures e == Evaluated(deadline, maxRetries, w, 0, 0.0, None)
  {
    var attempt: nat, now, fetched: nat := 0, 0.0, 0;
    var signal := SignalAt(w, deadline);
    var lastError: Option<Code> := None;
    ghost var whole := Evaluated(deadline, maxRetries, w, 0, 0.0, None);
    while attempt <= maxRetries
      invariant MoreBy(Evaluated(deadline, maxRetries, w, attempt, now, lastError), fetched) == whole
      decreases maxRetries - attempt
    {
      if signal <= now {
        return Evaluation(HttpError("jev.cancelled"), attempt, now, fetched);
      }
      if deadline - now <= 0.0 {
        return Evaluation(HttpError(if lastError.Some? then lastError.value else "jev.unavailable"), attempt, now, fetched);
      }
      var f := w.fetches(attempt);
      fetched := fetched + 1;
      if now + f.takes >= signal {
        return Evaluation(HttpError("jev.cancelled"), attempt + 1, signal, fetched);
      }
      now := now + f.takes;
      var retryAfter := None;
      if f.reply.Http? {
        var readInFull := now + f.reply.bodyTakes < signal;
        now := if readInFull then now + f.reply.bodyTakes else signal;
        if OkStatus(f.reply.status) {
          if !readInFull || !f.reply.answersParsed {
            return Evaluation(HttpError("jev.malformed_response"), attempt + 1, now, fetched);
          }
          return Evaluation(HttpOk, attempt + 1, now, fetched);
        }
        lastError := Some(CodeForStatus(f.reply.status));
        if !RetryableStatus(f.reply.status) || attempt >= maxRetries {
          return Evaluation(HttpError(lastError.value), attempt + 1, now, fetched);
        }
        retryAfter := f.reply.retryAfter;
      } else {
        lastError := Some("jev.unavailable");
        if attempt >= maxRetries {
          return Evaluation(HttpError("jev.unavailable"), attempt + 1, now, fetched);
        }
      }
      now := NextAt(deadline, w, attempt, now, retryAfter);
      attempt := attempt + 1;
    }
    return Evaluation(HttpError(if lastError.Some? then lastError.value else "jev.unknown"), attempt, now, fetched);
  }

  ghost function MoreBy(e: Evaluation, n: nat): Evaluation {
    e.(fetched := e.fetched + n)
  }

  /** One turn of the loop: it ends here, having made at most one fetch, or goes on after a transient reply. */
  lemma {:induction false} OneTurn(deadline: real, maxRetries: int, w: Wire, attempt: nat, t: real, last: Option<Code>)
    returns (goesOn: bool, at: real, code: Code)
    requires PlausibleWire(w) && 0.0 <= t <= MaxR(0.0, SignalAt(w, deadline))
    ensures goesOn ==>
              && attempt < maxRetries && Transient(w.fetches(attempt).reply)
              && t <= at <= MaxR(0.0, SignalAt(w, deadline))
              && Evaluated(deadline, maxRetries, w, attempt, t, last)
                 == OneMore(Evaluated(deadline, maxRetries, w, attempt + 1, at, Some(code)))
    ensures !goesOn ==>
              var e := Evaluated(deadline, maxRetries, w, attempt, t, last);
              && e.attempts == attempt + e.fetched && e.fetched <= 1
              && (e.fetched > 0 ==> attempt <= maxRetries)
              && (e.result.HttpOk? ==> e.fetched > 0 && Parsed(w.fetches(attempt).reply))
              && t <= e.elapsed <= MaxR(0.0, SignalAt(w, deadline))
  {
    var signal, f := SignalAt(w, deadline), w.fetches(attempt);
    goesOn := attempt < maxRetries && t < signal && t < deadline && t + f.takes < signal && Transient(f.reply);
    if goesOn && f.reply.NetworkError? {
      at, code := NextAt(deadline, w, attempt, t + f.takes, None), "jev.unavailable";
    } else if goesOn {
      var read := MinR(t + f.takes + f.reply.bodyTakes, signal);
      at, code := NextAt(deadline, w, attempt, read, f.reply.retryAfter), CodeForStatus(f.reply.status);
    } else {
      at, code := t, "";
    }
  }

  /**
   From any point of the loop: the attempts reported are those before and the fetches made
   since, at most `1 + maxRetries`; an answer is that of the last fetch; and it is over when
   the signal is.
   */
  lemma {:induction false} EvaluatedFrom(deadline: real, maxRetries: int, w: Wire, attempt: nat, t: real, last: Option<Code>)
    requires PlausibleWire(w) && 0.0 <= t <= MaxR(0.0, SignalAt(w, deadline))
    ensures var e := Evaluated(deadline, maxRetries, w, attempt, t, last);
            && e.attempts == attempt + e.fetched
            && (e.fetched > 0 ==> e.attempts <= 1 + maxRetries)
            && (e.result.HttpOk? ==> e.fetched > 0 && Parsed(w.fetches(e.attempts - 1).reply))
            && t <= e.elapsed <= MaxR(0.0, SignalAt(w, deadline))
    decreases if attempt <= maxRetries then 1 + maxRetries - attempt else 0
  {
    var goesOn, at, code := OneTurn(deadline, maxRetries, w, attempt, t, last);
    if goesOn {
      EvaluatedFrom(deadline, maxRetries, w, attempt + 1, at, Some(code));
    }
  }

  /** Every fetch but the last ended in something transient. */
  lemma {:induction false} OnlyTransientBefore(deadline: real, maxRetries: int, w: Wire, attempt: nat, t: real, last: Option<Code>)
    requires PlausibleWire(w) && 0.0 <= t <= MaxR(0.0, SignalAt(w, deadline))
    ensures forall i :: attempt <= i < Evaluated(deadline, maxRetries, w, attempt, t, last).attempts - 1 ==> Transient(w.fetches(i).reply)
    decreases if attempt <= maxRetries then 1 + maxRetries - attempt else 0
  {
    var goesOn, at, code := OneTurn(deadline, maxRetries, w, attempt, t, last);
    if goesOn {
      OnlyTransientBefore(deadline, maxRetries, w, attempt + 1, at, Some(code));
    }
  }

  predicate Parsed(reply: Reply) {
    reply.Http? && OkStatus(reply.status) && reply.answersParsed
  }

  /** What a caller of the transport can count on, whatever the wire does. */
  lemma AttemptsAreFetches(deadline: real, maxRetries: int, w: Wire)
    requires PlausibleWire(w)
    ensures var e := Evaluated(deadline, maxRetries, w, 0, 0.0, None);
            && e.attempts == e.fetched <= (if maxRetries < 0 then 0 else 1 + maxRetries)
            && (forall i :: 0 <= i < e.fetched - 1 ==> Transient(w.fetches(i).reply))
            && (e.result.HttpOk? ==> e.fetched > 0 && Parsed(w.fetches(e.fetched - 1).reply))
            && (e.fetched == 0 && e.result == HttpError("jev.unknown") <==> maxRetries < 0)
            && 0.0 <= e.elapsed <= MaxR(0.0, deadline + w.timerLag)
            && (w.abortAt.Some? ==> e.elapsed <= MaxR(0.0, w.abortAt.value))
  {
    EvaluatedFrom(deadline, maxRetries, w, 0, 0.0, None);
    OnlyTransientBefore(deadline, maxRetries, w, 0, 0.0, None);
  }

  /** A cancellation is reported only when the caller has aborted or the deadline timer has fired. */
  lemma {:induction false} CancellationIsEarned(deadline: real, maxRetries: int, w: Wire, attempt: nat, t: real, last: Option<Code>)
    requires last != Some("jev.cancelled")
    ensures var e := Evaluated(deadline, maxRetries, w, attempt, t, last);
            e.result == HttpError("jev.cancelled") ==>
              (w.abortAt.Some? && w.abortAt.value <= e.elapsed) || deadline + w.timerLag <= e.elapsed
    decreases if attempt <= maxRetries then 1 + maxRetries - attempt else 0
  {
    var signal, f := SignalAt(w, deadline), w.fetches(attempt);
    if attempt < maxRetries && t < signal && t < deadline && t + f.takes < signal && Transient(f.reply) {
      var read := if f.reply.Http? then MinR(t + f.takes + f.reply.bodyTakes, signal) else t + f.takes;
      var code := if f.reply.Http? then CodeForStatus(f.reply.status) else "jev.unavailable";
      CancellationIsEarned(deadline, maxRetries, w, attempt + 1, NextAt(deadline, w, attempt, read, AskedToWait(f.reply)), Some(code));
    }
  }

  /** When a fetch is heard out: its body, if it has one, read. */
  function HeardAt(w: Wire, attempt: nat, t: real): real {
    var f := w.fetches(attempt);
    t + f.takes + if f.reply.Http? then f.reply.bodyTakes else 0.0
  }

  function AskedToWait(reply: Reply): Option<real> {
    if reply.Http? then reply.retryAfter else None
  }

  /**
   Unaborted and with time left, a fetch is followed by another exactly after a network
   error, a 429 or a status from 500 up, while a retry is left and its delay ends in time.
   */
  lemma FetchesAgainExactly(deadline: real, maxRetries: int, w: Wire, attempt: nat, t: real, last: Option<Code>)
    requires PlausibleWire(w) && w.abortAt.None? && attempt <= maxRetries
    requires t < deadline && HeardAt(w, attempt, t) < deadline
    ensures var reply := w.fetches(attempt).reply;
            var next := NextAt(deadline, w, attempt, HeardAt(w, attempt, t), AskedToWait(reply));
            Evaluated(deadline, maxRetries, w, attempt, t, last).fetched >= 2 <==>
              && (reply.NetworkError? || reply.status == 429 || reply.status >= 500)
              && attempt < maxRetries && next < deadline
  {
  }

  /** The code reported for a status that is not a success. */
  predicate Reports(status: int, code: Code) {
    && (code == "jev.auth" <==> status in {401, 403})
    && (code == "jev.bad_request" <==> status in {400, 422})
    && (code == "jev.rate_limited" <==> status == 429)
    && (code == "jev.overloaded" <==> status == 529)
    && (code == "jev.unavailable" <==> status >= 500 && status != 529)
    && code in {"jev.auth", "jev.bad_request", "jev.rate_limited", "jev.overloaded", "jev.unavailable", "jev.unknown"}
  }

  /**
   What the last fetch decides when its headers came in time: a status from 200 to 299 is an
   answer exactly when its body was read in full and parsed; any other is an error by status,
   or a cancellation during the delay before another attempt.
   */
  lemma ReplyDecides(deadline: real, maxRetries: int, w: Wire, attempt: nat, t: real, last: Option<Code>)
    requires PlausibleWire(w) && attempt <= maxRetries && t < deadline
    requires w.fetches(attempt).reply.Http? && t + w.fetches(attempt).takes < SignalAt(w, deadline)
    requires Evaluated(deadline, maxRetries, w, attempt, t, last).fetched == 1
    ensures var reply, e := w.fetches(attempt).reply, Evaluated(deadline, maxRetries, w, attempt, t, last);
            && (e.result.HttpOk? <==> 200 <= reply.status < 300 && reply.answersParsed && HeardAt(w, attempt, t) < SignalAt(w, deadline))
            && (!e.result.HttpOk? && 200 <= reply.status < 300 ==> e.result == HttpError("jev.malformed_response"))
            && (!(200 <= reply.status < 300) ==>
                  && e.result.HttpError?
                  && (|| Reports(reply.status, e.result.code)
                      || (e.result.code == "jev.cancelled" && attempt < maxRetries && (reply.status == 429 || reply.status >= 500))))
  {
  }

  /** The wait is what the server asked for, or else at least the backed-off delay, and never beyond the deadline. */
  lemma WaitsAsAsked(deadline: real, w: Wire, attempt: nat, t: real, retryAfter: Option<real>)
    requires w.abortAt.None? && w.timerLag >= 0.0 && t < deadline && w.random(attempt) >= 0.0
    ensures var next := NextAt(deadline, w, attempt, t, retryAfter);
            if retryAfter.Some? then next == MinR(t + MaxR(0.0, retryAfter.value), deadline)
            else next >= MinR(t + BackoffDelay(attempt, 500.0, 5000.0, 0.0, 0.0), deadline) && next <= deadline
  {
    var d, random := BackoffDelay(attempt, BASE_BACKOFF, MAX_BACKOFF, 0.0, 0.0), w.random(attempt);
    DelayDoubles(attempt, BASE_BACKOFF, MAX_BACKOFF, 0.25, random);
    assert d >= 0.0;
    var quarter := d * 0.25;
    Scaled(0.0, quarter, random);
    assert BackoffDelay(attempt, BASE_BACKOFF, MAX_BACKOFF, 0.25, random) == d + quarter * random >= d;
  }

  // ----- the HTTP loop inside the wrapper's -----

  const RETRYABLE_CODES := {"jev.rate_limited", "jev.overloaded", "jev.unavailable", "jev.unknown"}

  /** How the wrapper takes an HTTP result. */
  function AnswerOf(r: HttpResult): Answer {
    if r.HttpOk? then Ok
    else if r.code in RETRYABLE_CODES then RetryableError(r.code)
    else if r.code == "jev.cancelled" then Cancelled
    else OtherError(r.code)
  }

  /** The wrapper tries again after any HTTP failure but a refusal of the request itself; an answer or a cancellation is final. */
  lemma WrapperRetriesExactly(status: int)
    ensures AnswerOf(HttpError(CodeForStatus(status))).RetryableError? <==> status !in {400, 401, 403, 422}
    ensures AnswerOf(HttpError("jev.unavailable")).RetryableError? && AnswerOf(HttpOk) == Ok
    ensures AnswerOf(HttpError("jev.cancelled")) == Cancelled
    ensures AnswerOf(HttpError("jev.malformed_response")).OtherError?
  {
  }

  /** The HTTP transport as configured, and what each call of it meets. */
  datatype Inner = Inner(deadline: real, maxRetries: nat, wires: nat -> Wire)

  function HttpAttempt(h: Inner, k: nat): Attempt {
    var e := Evaluated(h.deadline, h.maxRetries, h.wires(k), 0, 0.0, None);
    Attempt(e.elapsed, AnswerOf(e.result), e.fetched)
  }

  /** The wrapper's schedule when the transport it wraps is the HTTP one. */
  function Over(h: Inner, random: nat -> real, abortAt: Option<real>): Schedule {
    Schedule((k: nat) => HttpAttempt(h, k), random, abortAt)
  }

  ghost predicate PlausibleInner(h: Inner) {
    forall k :: PlausibleWire(h.wires(k))
  }

  /** The two nested loops make at most the product of their attempts in fetches, whatever wires they meet. */
  lemma NestedFetchesAreBounded(p: Policy, h: Inner, random: nat -> real, abortAt: Option<real>)
    requires p.maxAttempts >= 1 && PlausibleInner(h)
    ensures var w := Over(h, random, abortAt);
            FetchesOf(w, Resolve(p, w, 0, 0.0).calls) <= p.maxAttempts * (1 + h.maxRetries)
  {
    var w := Over(h, random, abortAt);
    var calls := Resolve(p, w, 0, 0.0).calls;
    CallsAreBounded(p, w, 0, 0.0);
    forall k: nat ensures w.attempts(k).fetches <= 1 + h.maxRetries {
      AttemptsAreFetches(h.deadline, h.maxRetries, h.wires(k));
    }
    FetchesPerCall(w, calls, 1 + h.maxRetries);
    ProductGrows(calls, p.maxAttempts, 1 + h.maxRetries);
  }

  lemma ProductGrows(a: nat, b: nat, c: nat)
    requires a <= b
    ensures a * c <= b * c
  {
  }

  // ----- the bound is reached -----

  const OVERLOADED := Fetch(0.0, Http(529, Some(0.0), 0.0, false))
  const OVERLOADED_WIRE := Wire(k => OVERLOADED, k => 0.0, None, 0.0)

  lemma {:induction false} OverloadedUsesEveryRetry(deadline: real, maxRetries: nat, attempt: nat, last: Option<Code>)
    requires deadline > 0.0 && attempt <= maxRetries
    ensures Evaluated(deadline, maxRetries, OVERLOADED_WIRE, attempt, 0.0, last)
         == Evaluation(HttpError("jev.overloaded"), 1 + maxRetries, 0.0, 1 + maxRetries - attempt)
    decreases maxRetries - attempt
  {
    if attempt < maxRetries {
      OverloadedUsesEveryRetry(deadline, maxRetries, attempt + 1, Some("jev.overloaded"));
    }
  }

  /** `n` of the longest delays without jitter. */
  function Delays(p: Policy, n: nat): real {
    if n == 0 then 0.0 else p.maxDelay + Delays(p, n - 1)
  }

  lemma {:induction false} EveryCallIsMade(p: Policy, w: Schedule, k: nat, t: real)
    requires Sane(p) && k < p.maxAttempts && w.abortAt.None?
    requires forall i :: w.attempts(i).takes == 0.0 && w.attempts(i).answer.RetryableError?
    requires forall i: nat :: DelayAfter(p, w, i) <= p.maxDelay
    requires t + Delays(p, p.maxAttempts - k) < p.deadline
    ensures Resolve(p, w, k, t).calls == p.maxAttempts
    decreases p.maxAttempts - k
  {
    DelaysNonNegative(p, p.maxAttempts - k - 1);
    if k + 1 < p.maxAttempts {
      EveryCallIsMade(p, w, k + 1, WakeAt(w, t, DelayAfter(p, w, k)));
    }
  }

  lemma {:induction false} DelaysNonNegative(p: Policy, n: nat)
    requires Sane(p)
    ensures Delays(p, n) >= 0.0
  {
    if n > 0 {
      DelaysNonNegative(p, n - 1);
    }
  }

  lemma {:induction false} FetchesWhenAllAlike(w: Schedule, calls: nat, each: nat)
    requires forall k: nat :: w.attempts(k).fetches == each
    ensures FetchesOf(w, calls) == calls * each
  {
    if calls > 0 {
      FetchesWhenAllAlike(w, calls - 1, each);
    }
  }

  /** And that many are made: an overloaded server, given time for the wrapper's delays, is asked that often. */
  lemma NestedBoundIsReached(p: Policy, deadline: real, maxRetries: nat)
    requires Sane(p) && deadline > 0.0 && p.deadline > Delays(p, p.maxAttempts)
    ensures var w := Over(Inner(deadline, maxRetries, k => OVERLOADED_WIRE), k => 0.0, None);
            FetchesOf(w, Resolve(p, w, 0, 0.0).calls) == p.maxAttempts * (1 + maxRetries)
  {
    var h := Inner(deadline, maxRetries, k => OVERLOADED_WIRE);
    var w := Over(h, k => 0.0, None);
    OverloadedUsesEveryRetry(deadline, maxRetries, 0, None);
    forall i: nat ensures DelayAfter(p, w, i) <= p.maxDelay {
    }
    EveryCallIsMade(p, w, 0, 0.0);
    FetchesWhenAllAlike(w, p.maxAttempts, 1 + maxRetries);
  }
}
