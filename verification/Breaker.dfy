/**
 The circuit breaker of the Jev transport: the object itself, and what holds of it under
 any sequence of overlapping calls, reports, status reads and clock advances.
 */
module Breaker {
  import opened Prelude

  datatype Phase = Closed | Open | HalfOpen

  datatype Config = Config(threshold: int, resetMs: int, maxProbes: int)

  /** The breaker's fields as a value. */
  datatype View = View(phase: Phase, failures: nat, openedAt: Option<int>, inFlight: int)

  const FRESH := View(Closed, 0, None, 0)

  function Trip(v: View, now: int): View {
    v.(phase := Open, openedAt := Some(now), inFlight := 0)
  }

  /** Open becomes half-open once the reset timeout has passed; looked at lazily, by queries only. */
  function Refresh(cfg: Config, v: View, now: int): View {
    if v.phase.Open? && v.openedAt.Some? && now - v.openedAt.value >= cfg.resetMs
    then v.(phase := HalfOpen, inFlight := 0)
    else v
  }

  predicate Admits(cfg: Config, v: View) {
    v.phase.Closed? || (v.phase.HalfOpen? && v.inFlight < cfg.maxProbes)
  }

  function FreeSlot(v: View): View {
    if v.phase.HalfOpen? then v.(inFlight := if v.inFlight > 1 then v.inFlight - 1 else 0) else v
  }

  function Enter(v: View): View {
    if v.phase.HalfOpen? then v.(inFlight := v.inFlight + 1) else v
  }

  function Succeeded(v: View): View {
    FreeSlot(v).(phase := Closed, failures := 0, openedAt := None)
  }

  function Failed(cfg: Config, v: View, now: int): View {
    if v.phase.HalfOpen? then Trip(v, now)
    else
      var w := v.(failures := v.failures + 1);
      if w.failures >= cfg.threshold then Trip(w, now) else w
  }

  class CircuitBreaker {
    const cfg: Config
    var phase: Phase
    var failures: nat
    var openedAt: Option<int>
    var halfOpenInFlight: int

    function Value(): View reads this {
      View(phase, failures, openedAt, halfOpenInFlight)
    }

    constructor (cfg: Config)
      ensures Value() == FRESH && this.cfg == cfg
    {
      this.cfg := cfg;
      phase, failures, openedAt, halfOpenInFlight := Closed, 0, None, 0;
    }

    method MaybeTransitionToHalfOpen(now: int)
      modifies this
      ensures Value() == Refresh(cfg, old(Value()), now)
    {
      if !phase.Open? || openedAt.None? {
        return;
      }
      if now - openedAt.value >= cfg.resetMs {
        phase := HalfOpen;
        halfOpenInFlight := 0;
      }
    }

    /** May a call proceed right now? Also performs the open to half-open transition. */
    method CanProceed(now: int) returns (ok: bool)
      modifies this
      ensures Value() == Refresh(cfg, old(Value()), now)
      ensures ok <==> Admits(cfg, Value())
    {
      MaybeTransitionToHalfOpen(now);
      if phase.Closed? {
        return true;
      }
      if phase.HalfOpen? {
        return halfOpenInFlight < cfg.maxProbes;
      }
      return false;
    }

    method BeforeCall(now: int)
      modifies this
      ensures Value() == Enter(Refresh(cfg, old(Value()), now))
    {
      MaybeTransitionToHalfOpen(now);
      if phase.HalfOpen? {
        halfOpenInFlight := halfOpenInFlight + 1;
      }
    }

    method OnSuccess()
      modifies this
      ensures Value() == Succeeded(old(Value()))
    {
      OnCancelled();
      phase := Closed;
      failures := 0;
      openedAt := None;
    }

    /** A call was cancelled: release a half-open slot, change nothing else. */
    method OnCancelled()
      modifies this
      ensures Value() == FreeSlot(old(Value()))
    {
      if phase.HalfOpen? {
        halfOpenInFlight := if halfOpenInFlight - 1 > 0 then halfOpenInFlight - 1 else 0;
      }
    }

    method TripNow(now: int)
      modifies this
      ensures Value() == Trip(old(Value()), now)
    {
      phase := Open;
      openedAt := Some(now);
      halfOpenInFlight := 0;
    }

    method OnFailure(now: int)
      modifies this
      ensures Value() == Failed(cfg, old(Value()), now)
    {
      if phase.HalfOpen? {
        OnCancelled();
        TripNow(now);
        return;
      }
      failures := failures + 1;
      if failures >= cfg.threshold {
        TripNow(now);
      }
    }
  }

  // ----- the breaker among its callers -----

  /**
   The breaker together with the calls in progress. A call admitted while half-open is a
   probe of that half-open period. The last three fields only observe: failures reported
   since the last success, the time of the last reported failure, and the slots of this
   half-open period given back by calls that held none. Such a debt is made when a call that is not a probe is cancelled while a slot
   is taken, and paid off when a probe is cancelled while none is.
   */
  datatype System = System(
    view: View,
    now: int,
    period: nat,
    calls: map<nat, Option<nat>>,
    failuresSinceSuccess: nat,
    lastFailureAt: Option<int>,
    debt: nat)

  datatype Event =
    | Tick(ms: nat)
    | Status
    | Call(k: nat)
    | Succeed(k: nat)
    | Fail(k: nat)
    | Cancel(k: nat)

  const START := System(FRESH, 0, 0, map[], 0, None, 0)

  function Queried(cfg: Config, s: System): System {
    var v := Refresh(cfg, s.view, s.now);
    if v != s.view then s.(view := v, period := s.period + 1, debt := 0) else s
  }

  function Step(cfg: Config, s: System, e: Event): System {
    match e
    case Tick(ms) => s.(now := s.now + ms)
    case Status => Queried(cfg, s)
    case Call(k) =>
      var q := Queried(cfg, s);
      if k !in s.calls && Admits(cfg, q.view) then
        q.(view := Enter(q.view), calls := q.calls[k := if q.view.phase.HalfOpen? then Some(q.period) else None])
      else q
    case Succeed(k) =>
      if k in s.calls then s.(view := Succeeded(s.view), calls := s.calls - {k}, failuresSinceSuccess := 0) else s
    case Fail(k) =>
      if k in s.calls
      then s.(view := Failed(cfg, s.view, s.now), calls := s.calls - {k},
              failuresSinceSuccess := s.failuresSinceSuccess + 1, lastFailureAt := Some(s.now))
      else s
    case Cancel(k) =>
      if k in s.calls
      then s.(view := FreeSlot(s.view), calls := s.calls - {k}, debt := DebtAfterCancel(s, s.calls[k] == Some(s.period)))
      else s
  }

  function DebtAfterCancel(s: System, ofProbe: bool): nat {
    if ofProbe && s.view.inFlight == 0 && s.debt > 0 then s.debt - 1
    else if !ofProbe && s.view.inFlight > 0 then s.debt + 1
    else s.debt
  }

  function Run(cfg: Config, events: seq<Event>): System {
    if events == [] then START
    else Step(cfg, Run(cfg, events[..|events| - 1]), events[|events| - 1])
  }

  /** Probes of the current half-open period still in progress. */
  function Probes(s: System): set<nat> {
    set k | k in s.calls && s.calls[k] == Some(s.period)
  }

  function Max(a: int, b: int): int {
    if a > b then a else b
  }

  ghost predicate Inv(cfg: Config, s: System) {
    && (s.view.phase.Closed? <==> s.view.openedAt.None?)
    && (s.view.phase.Closed? <==> s.failuresSinceSuccess < Max(1, cfg.threshold))
    && (s.view.phase.Closed? ==> s.view.failures == s.failuresSinceSuccess)
    && (!s.view.phase.Closed? ==> s.view.failures >= Max(1, cfg.threshold))
    && (!s.view.phase.Closed? ==> s.view.openedAt == s.lastFailureAt)
    && (s.view.phase.HalfOpen? ==> s.now >= s.view.openedAt.value + cfg.resetMs)
    && (s.view.phase.Open? ==> s.view.inFlight == 0)
    && 0 <= s.view.inFlight <= Max(0, cfg.maxProbes)
    && (forall k :: k in s.calls && s.calls[k].Some? ==> s.calls[k].value <= s.period)
    && (cfg.maxProbes <= 0 ==> s.debt == 0)
    && (s.view.phase.HalfOpen? ==> |Probes(s)| == s.view.inFlight + s.debt)
  }

  lemma QueryKeepsInv(cfg: Config, s: System)
    requires Inv(cfg, s)
    ensures Inv(cfg, Queried(cfg, s))
  {
  }

  lemma CallKeepsInv(cfg: Config, s: System, k: nat)
    requires Inv(cfg, s)
    ensures Inv(cfg, Step(cfg, s, Call(k)))
  {
    QueryKeepsInv(cfg, s);
    var q, t := Queried(cfg, s), Step(cfg, s, Call(k));
    if t != q && q.view.phase.HalfOpen? {
      assert Probes(t) == Probes(q) + {k};
    }
  }

  lemma CancelKeepsInv(cfg: Config, s: System, k: nat)
    requires Inv(cfg, s)
    ensures Inv(cfg, Step(cfg, s, Cancel(k)))
  {
    var t := Step(cfg, s, Cancel(k));
    if k in s.calls {
      assert Probes(t) == Probes(s) - {k};
      if s.view.phase.HalfOpen? && k !in Probes(s) {
        assert Probes(t) == Probes(s);
      }
    }
  }

  lemma StepKeepsInv(cfg: Config, s: System, e: Event)
    requires Inv(cfg, s)
    ensures Inv(cfg, Step(cfg, s, e))
  {
    match e
    case Tick(ms) => assert Probes(Step(cfg, s, e)) == Probes(s);
    case Status => QueryKeepsInv(cfg, s);
    case Call(k) => CallKeepsInv(cfg, s, k);
    case Succeed(k) =>
    case Fail(k) =>
    case Cancel(k) => CancelKeepsInv(cfg, s, k);
  }

  lemma {:induction false} RunKeepsInv(cfg: Config, events: seq<Event>)
    ensures Inv(cfg, Run(cfg, events))
  {
    if events != [] {
      RunKeepsInv(cfg, events[..|events| - 1]);
      StepKeepsInv(cfg, Run(cfg, events[..|events| - 1]), events[|events| - 1]);
    }
  }

  /**
   In every run the breaker is closed exactly while fewer than the threshold of failures
   were reported since the last success, exactly while `openedAt` is unset; and the slot
   counter stays within the configured maximum.
   */
  lemma ClosedExactlyBelowThreshold(cfg: Config, events: seq<Event>)
    ensures var s := Run(cfg, events);
            && (s.view.phase.Closed? <==> s.failuresSinceSuccess < Max(1, cfg.threshold))
            && (s.view.phase.Closed? <==> s.view.openedAt.None?)
            && 0 <= s.view.inFlight <= Max(0, cfg.maxProbes)
  {
    RunKeepsInv(cfg, events);
  }

  // ----- who is admitted, and when -----

  /** Does the breaker let a new call `k` through now? */
  predicate LetsThrough(cfg: Config, s: System, k: nat) {
    k !in s.calls && k in Step(cfg, s, Call(k)).calls
  }

  /**
   In every run a new call goes through exactly while fewer failures than the threshold
   were reported since the last success, or when the reset time has passed since the last
   failure and fewer slots than the maximum are taken.
   */
  lemma AdmittedExactly(cfg: Config, events: seq<Event>, k: nat)
    requires k !in Run(cfg, events).calls
    ensures var s := Run(cfg, events);
            LetsThrough(cfg, s, k) <==>
              || s.failuresSinceSuccess < Max(1, cfg.threshold)
              || (s.lastFailureAt.Some? && s.now >= s.lastFailureAt.value + cfg.resetMs && s.view.inFlight < cfg.maxProbes)
  {
    RunKeepsInv(cfg, events);
  }

  predicate IsReport(e: Event) {
    e.Succeed? || e.Fail?
  }

  /** What happens after a failure that leaves the breaker open, as long as no call reports. */
  ghost predicate QuietSince(cfg: Config, history: seq<Event>, quiet: seq<Event>) {
    && history != [] && history[|history| - 1].Fail?
    && history[|history| - 1].k in Run(cfg, history[..|history| - 1]).calls
    && !Run(cfg, history).view.phase.Closed?
    && forall i :: 0 <= i < |quiet| ==> !IsReport(quiet[i])
  }

  lemma {:induction false} QuietKeepsTheFailure(cfg: Config, history: seq<Event>, quiet: seq<Event>)
    requires QuietSince(cfg, history, quiet)
    ensures var s := Run(cfg, history + quiet);
            && s.lastFailureAt == Some(Run(cfg, history).now)
            && s.failuresSinceSuccess == Run(cfg, history).failuresSinceSuccess >= Max(1, cfg.threshold)
  {
    RunKeepsInv(cfg, history);
    if quiet == [] {
      assert history + quiet == history;
    } else {
      var n := |quiet| - 1;
      QuietKeepsTheFailure(cfg, history, quiet[..n]);
      var s := After(cfg, history + quiet[..n], quiet[n]);
      assert history + quiet == history + quiet[..n] + [quiet[n]];
    }
  }

  /** From the failure that opened it, the breaker lets nothing through before the reset time is over. */
  lemma OpenUntilReset(cfg: Config, history: seq<Event>, quiet: seq<Event>, k: nat)
    requires QuietSince(cfg, history, quiet)
    ensures var s := Run(cfg, history + quiet);
            LetsThrough(cfg, s, k) ==> s.now >= Run(cfg, history).now + cfg.resetMs
  {
    QuietKeepsTheFailure(cfg, history, quiet);
    if k !in Run(cfg, history + quiet).calls {
      AdmittedExactly(cfg, history + quiet, k);
    }
  }

  /** And from then on it lets the first new call through, if it has a slot at all. */
  lemma FirstCallAfterReset(cfg: Config, history: seq<Event>, quiet: seq<Event>, k: nat)
    requires QuietSince(cfg, history, quiet) && cfg.maxProbes >= 1
    requires forall i :: 0 <= i < |quiet| && quiet[i].Call? ==>
               Run(cfg, history + quiet[..i]).now < Run(cfg, history).now + cfg.resetMs
    ensures var s := Run(cfg, history + quiet);
            k !in s.calls && s.now >= Run(cfg, history).now + cfg.resetMs ==> LetsThrough(cfg, s, k)
  {
    NoSlotTakenYet(cfg, history, quiet);
    QuietKeepsTheFailure(cfg, history, quiet);
    if k !in Run(cfg, history + quiet).calls {
      AdmittedExactly(cfg, history + quiet, k);
    }
  }

  /** Before the reset time nothing quiet takes a slot, and after it only a call does. */
  lemma QuietTakesNoSlot(cfg: Config, s: System, e: Event)
    requires Inv(cfg, s) && !s.view.phase.Closed? && s.view.inFlight == 0
    requires !IsReport(e) && (e.Call? ==> s.now < s.lastFailureAt.value + cfg.resetMs)
    ensures Step(cfg, s, e).view.inFlight == 0
  {
  }

  lemma {:induction false} NoSlotTakenYet(cfg: Config, history: seq<Event>, quiet: seq<Event>)
    requires QuietSince(cfg, history, quiet)
    requires forall i :: 0 <= i < |quiet| && quiet[i].Call? ==>
               Run(cfg, history + quiet[..i]).now < Run(cfg, history).now + cfg.resetMs
    ensures Run(cfg, history + quiet).view.inFlight == 0
  {
    if quiet == [] {
      RunKeepsInv(cfg, history);
      var before := After(cfg, history[..|history| - 1], history[|history| - 1]);
      assert history == history[..|history| - 1] + [history[|history| - 1]];
      RunKeepsInv(cfg, history[..|history| - 1]);
      assert history + quiet == history;
    } else {
      var n := |quiet| - 1;
      var shorter := quiet[..n];
      assert forall i :: 0 <= i < n ==> shorter[..i] == quiet[..i];
      NoSlotTakenYet(cfg, history, shorter);
      QuietKeepsTheFailure(cfg, history, shorter);
      RunKeepsInv(cfg, history + shorter);
      QuietTakesNoSlot(cfg, Run(cfg, history + shorter), quiet[n]);
      var s := After(cfg, history + shorter, quiet[n]);
      assert history + quiet == history + shorter + [quiet[n]];
    }
  }

  // ----- how many probes at once -----

  /** While half-open the probes in progress are exactly the slots counted as taken and the debt. */
  lemma ProbesAreSlotsAndDebt(cfg: Config, events: seq<Event>)
    ensures var s := Run(cfg, events);
            s.view.phase.HalfOpen? ==>
              |Probes(s)| == s.view.inFlight + s.debt && (s.debt == 0 ==> |Probes(s)| <= Max(0, cfg.maxProbes))
  {
    RunKeepsInv(cfg, events);
  }

  /** In no run are more probes in progress at once than the configured maximum. */
  ghost predicate ProbesStayWithinMaximum(cfg: Config) {
    forall events :: var s := Run(cfg, events); s.view.phase.HalfOpen? ==> |Probes(s)| <= Max(0, cfg.maxProbes)
  }

  /**
   The maximum of concurrent probes is kept in every run exactly when it allows none: with
   any slot, whatever the threshold and the reset time, cancelling a call admitted before
   the breaker opened frees a slot that a probe still uses.
   */
  lemma MaximumKeptExactlyWithoutSlots(cfg: Config)
    ensures ProbesStayWithinMaximum(cfg) <==> cfg.maxProbes <= 0
  {
    if cfg.maxProbes <= 0 {
      forall events ensures var s := Run(cfg, events); s.view.phase.HalfOpen? ==> |Probes(s)| <= Max(0, cfg.maxProbes) {
        RunKeepsInv(cfg, events);
      }
    } else {
      var events := OneProbeTooMany(cfg);
    }
  }

  /** Half-open with `m` probes and, still in progress, call 1 from before the breaker opened. */
  predicate Probing(s: System, m: nat) {
    && s.view.phase.HalfOpen? && s.view.inFlight == m && s.debt == 0
    && 1 in s.calls && s.calls[1].None?
    && forall k :: k in s.calls ==> k < m + 2
  }

  lemma OneProbeTooMany(cfg: Config) returns (events: seq<Event>)
    requires cfg.maxProbes >= 1
    ensures var s := Run(cfg, events); s.view.phase.HalfOpen? && |Probes(s)| == cfg.maxProbes + 1
  {
    var start := OneOutstanding(cfg);
    var probing := HalfOpenAfter(cfg, start);
    var full := FillSlots(cfg, probing, cfg.maxProbes);
    events := OneMoreThanFull(cfg, full, cfg.maxProbes);
  }

  lemma OneOutstanding(cfg: Config) returns (events: seq<Event>)
    ensures var s := Run(cfg, events); s.failuresSinceSuccess == 0 && s.calls == map[1 := None]
  {
    var s := After(cfg, [], Call(1));
    events := [] + [Call(1)];
  }

  lemma OneMoreThanFull(cfg: Config, full: seq<Event>, m: nat) returns (events: seq<Event>)
    requires m == cfg.maxProbes >= 1 && Probing(Run(cfg, full), m)
    ensures var s := Run(cfg, events); s.view.phase.HalfOpen? && |Probes(s)| == m + 1
  {
    var freed := After(cfg, full, Cancel(1));
    StrayCancelMakesRoom(cfg, Run(cfg, full), m);
    var last := After(cfg, full + [Cancel(1)], Call(m + 2));
    events := full + [Cancel(1)] + [Call(m + 2)];
    ProbesAreSlotsAndDebt(cfg, events);
  }

  /** With every slot taken, a stray cancellation and a call bring the counter back to full and leave a debt. */
  lemma StrayCancelMakesRoom(cfg: Config, s: System, m: nat)
    requires m == cfg.maxProbes >= 1 && Probing(s, m)
    ensures var t := Step(cfg, Step(cfg, s, Cancel(1)), Call(m + 2));
            t.view.phase.HalfOpen? && t.view.inFlight == m && t.debt == 1
  {
  }

  lemma {:induction false} FillSlots(cfg: Config, start: seq<Event>, m: nat) returns (events: seq<Event>)
    requires m <= cfg.maxProbes && Probing(Run(cfg, start), 0)
    ensures Probing(Run(cfg, events), m)
  {
    if m == 0 {
      events := start;
    } else {
      var before := FillSlots(cfg, start, m - 1);
      var probing := After(cfg, before, Call(m + 1));
      events := before + [Call(m + 1)];
    }
  }

  lemma After(cfg: Config, events: seq<Event>, e: Event) returns (s: System)
    ensures s == Run(cfg, events + [e]) == Step(cfg, Run(cfg, events), e)
  {
    s := Run(cfg, events + [e]);
    assert (events + [e])[..|events|] == events;
  }

  // ----- it cannot wedge -----

  /** Half-open, every slot taken, and nobody left who could free one. */
  predicate Wedged(cfg: Config, s: System) {
    s.view.phase.HalfOpen? && !Admits(cfg, s.view) && Probes(s) == {}
  }

  /** A report of a current probe always makes room: the breaker closes, opens afresh, or has a free slot. */
  lemma ProbeReportMakesRoom(cfg: Config, events: seq<Event>, k: nat, e: Event)
    requires cfg.maxProbes >= 1
    requires k in Probes(Run(cfg, events)) && e in {Succeed(k), Fail(k), Cancel(k)}
    ensures var t := Step(cfg, Run(cfg, events), e); !t.view.phase.HalfOpen? || Admits(cfg, t.view)
  {
    RunKeepsInv(cfg, events);
  }

  ghost predicate NeverWedges(cfg: Config) {
    forall events :: !Wedged(cfg, Run(cfg, events))
  }

  /** Fail `n` calls in a row, one after another, leaving the other calls alone. */
  lemma {:induction false} FailInARow(cfg: Config, start: seq<Event>, n: nat) returns (events: seq<Event>)
    requires n <= Max(1, cfg.threshold)
    requires var s := Run(cfg, start); s.failuresSinceSuccess == 0 && 0 !in s.calls
    ensures var s := Run(cfg, events); s.calls == Run(cfg, start).calls && s.failuresSinceSuccess == n
    ensures !Run(cfg, events).view.phase.HalfOpen?
  {
    if n == 0 {
      events := start;
      RunKeepsInv(cfg, events);
    } else {
      var before := FailInARow(cfg, start, n - 1);
      RunKeepsInv(cfg, before);
      var a := After(cfg, before, Call(0));
      var b := After(cfg, before + [Call(0)], Fail(0));
      events := before + [Call(0)] + [Fail(0)];
      assert b.calls == Run(cfg, before).calls;
    }
  }

  /** From before any failure, enough failures and the reset time lead to a new half-open period. */
  lemma HalfOpenAfter(cfg: Config, start: seq<Event>) returns (events: seq<Event>)
    requires var s := Run(cfg, start); s.failuresSinceSuccess == 0 && 0 !in s.calls
    ensures var s := Run(cfg, events);
            s.calls == Run(cfg, start).calls && s.view.phase.HalfOpen? && s.view.inFlight == 0 && s.debt == 0
  {
    var failing := FailInARow(cfg, start, Max(1, cfg.threshold));
    RunKeepsInv(cfg, failing);
    var s := Run(cfg, failing);
    var wait: nat := Max(0, cfg.resetMs + s.view.openedAt.value - s.now);
    var t := After(cfg, failing, Tick(wait));
    var u := After(cfg, failing + [Tick(wait)], Status);
    events := failing + [Tick(wait)] + [Status];
  }

  lemma NoSlotsWedge(cfg: Config) returns (events: seq<Event>)
    requires cfg.maxProbes <= 0
    ensures Wedged(cfg, Run(cfg, events))
  {
    events := HalfOpenAfter(cfg, []);
  }

  /** The breaker can never wedge half-open exactly when it is configured with at least one probe slot. */
  lemma NeverWedgesExactlyWithASlot(cfg: Config)
    ensures NeverWedges(cfg) <==> cfg.maxProbes >= 1
  {
    if cfg.maxProbes >= 1 {
      forall events ensures !Wedged(cfg, Run(cfg, events)) {
        RunKeepsInv(cfg, events);
      }
    } else {
      var events := NoSlotsWedge(cfg);
    }
  }
}
