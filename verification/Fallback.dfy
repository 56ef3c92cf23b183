/**
 What happens to a task after a cap fires: keep the model, switch, or pause; and what
 that guarantees for one decision and over a whole run of them.
 */
module Fallback {
  import opened Prelude
  import opened Selection

  datatype Dwell = Minutes | RemainderOfTask | RemainderOfPhase

  /** The task's view of its model. `fallbackSince` is when the current fallback began. */
  datatype Attempt = Attempt(requested: ModelRef, used: ModelRef, pin: Option<ModelRef>, fallbackSince: Option<int>)

  datatype Reason = QuotaReason | RateReason | BudgetReason | UnavailableReason

  datatype PauseReason = AllCapped | NoAdequate | PinCapped | PreferWait

  datatype Decision =
    | Unchanged
    | Switch(used: ModelRef, fallbackReason: Option<Reason>)
    | Pause(reason: PauseReason, earliestReset: Option<int>, watchRoutes: seq<RouteId>)

  /** Everything a decision is taken from, except the attempt. Times are milliseconds. */
  datatype Facts = Facts(
    jev: Option<Jev>,
    candidates: seq<Candidate>,
    table: Table,
    now: int,
    allow: Allowlist,
    order: seq<ModelRef>,
    dwell: Dwell,
    dwellMinutes: int,
    preferWaitMinutes: int,
    budget: BudgetCheck,
    costOf: Option<ModelRef -> Option<real>>,
    atTaskBoundary: bool)

  const MINUTE := 60_000

  function ReasonFromCap(capKind: CapKind): Option<Reason> {
    match capKind
    case QuotaExhausted => Some(QuotaReason)
    case RateLimited => Some(RateReason)
    case BudgetCap => Some(BudgetReason)
    case Unavailable => Some(UnavailableReason)
    case NoCap => None
  }

  predicate InDwell(attempt: Attempt, f: Facts) {
    attempt.fallbackSince.Some? &&
    match f.dwell
    case Minutes => f.now < attempt.fallbackSince.value + f.dwellMinutes * MINUTE
    case RemainderOfTask => !f.atTaskBoundary
    case RemainderOfPhase => true
  }

  function Filter(s: seq<Candidate>, keep: Candidate -> bool): (r: seq<Candidate>)
    ensures forall c :: c in r <==> c in s && keep(c)
  {
    if s == [] then []
    else
      assert forall c :: c in s <==> c == s[0] || c in s[1..];
      (if keep(s[0]) then [s[0]] else []) + Filter(s[1..], keep)
  }

  function Available(candidates: seq<Candidate>, table: Table, now: int): seq<Candidate> {
    Filter(candidates, (c: Candidate) => Eligible(table, c.routeId, now))
  }

  /** At a task boundary the primary is asked about first. */
  function PrimaryFirst(s: seq<Candidate>, primary: ModelRef): (r: seq<Candidate>)
    ensures forall c :: c in r <==> c in s
  {
    Filter(s, (c: Candidate) => c.ref == primary) + Filter(s, (c: Candidate) => c.ref != primary)
  }

  function Routes(candidates: seq<Candidate>): (r: seq<RouteId>)
    ensures |r| == |candidates|
    ensures forall i :: 0 <= i < |r| ==> r[i] == candidates[i].routeId
  {
    if candidates == [] then [] else [candidates[0].routeId] + Routes(candidates[1..])
  }

  predicate IsResumable(watchRoutes: seq<RouteId>, table: Table, now: int) {
    exists route :: route in watchRoutes && Eligible(table, route, now)
  }

  predicate UsedStillEligible(attempt: Attempt, f: Facts) {
    var used := Find(f.candidates, attempt.used);
    used.Some? && Eligible(f.table, used.value.routeId, f.now)
  }

  /** Is the primary's reset near enough, and the substitute no cheaper, so that waiting wins? */
  predicate ShouldWait(requested: ModelRef, f: Facts, substitute: Candidate) {
    var primary := Find(f.candidates, requested);
    && primary.Some? && f.preferWaitMinutes > 0
    && var reset := ResetOf(f.table, primary.value.routeId);
    && reset.Some?
    && 0 <= reset.value - f.now <= f.preferWaitMinutes * MINUTE
    && (f.costOf.None? ||
        var mine, other := f.costOf.value(substitute.ref), f.costOf.value(primary.value.ref);
        mine.None? || other.None? || mine.value > other.value)
  }

  function CappedPause(reason: PauseReason, f: Facts): Decision {
    Pause(reason, EarliestReset(f.candidates, f.table), Routes(f.candidates))
  }

  /** What selection is asked about. */
  function Ranked(requested: ModelRef, f: Facts): seq<Candidate> {
    var available := Available(f.candidates, f.table, f.now);
    if f.atTaskBoundary then PrimaryFirst(available, requested) else available
  }

  /** Re-rank what is available; the reason recorded for a switch is the cap on the primary. */
  function Reselect(requested: ModelRef, used: ModelRef, f: Facts): (d: Decision)
    ensures d.Pause? ==> d == CappedPause(d.reason, f) && (d.reason.AllCapped? || d.reason.NoAdequate?)
  {
    match SelectModel(f.jev, Ranked(requested, f), f.allow, f.order, f.budget)
    case NothingAdequate => CappedPause(NoAdequate, f)
    case NothingPermitted => CappedPause(AllCapped, f)
    case Selected(_, next) =>
      if next == used then Unchanged
      else if next == requested then Switch(next, None)
      else
        var primary := Find(f.candidates, requested);
        var why := if primary.Some? && primary.value.routeId in f.table
                   then ReasonFromCap(f.table[primary.value.routeId].capKind) else None;
        Switch(next, Some(if why.Some? then why.value else UnavailableReason))
  }

  /** The decision for a task that is neither pinned nor dwelling. */
  function DecideAnew(requested: ModelRef, used: ModelRef, f: Facts): Decision {
    var available := Available(f.candidates, f.table, f.now);
    if available == [] then CappedPause(AllCapped, f)
    else if ShouldWait(requested, f, available[0]) then
      var primary := Find(f.candidates, requested).value;
      Pause(PreferWait, ResetOf(f.table, primary.routeId), [primary.routeId])
    else Reselect(requested, used, f)
  }

  function ChooseFallback(attempt: Attempt, f: Facts): Decision {
    if attempt.pin.Some? then
      var pinned := Find(f.candidates, attempt.pin.value);
      if pinned.Some? && Eligible(f.table, pinned.value.routeId, f.now) then Unchanged
      else if pinned.Some? then Pause(PinCapped, ResetOf(f.table, pinned.value.routeId), [pinned.value.routeId])
      else Pause(PinCapped, None, [])
    else if UsedStillEligible(attempt, f) && InDwell(attempt, f) then Unchanged
    else DecideAnew(attempt.requested, attempt.used, f)
  }

  // ----- one decision -----

  /** However Jev answers, a switch goes to another model that is offered, available now, allowlisted and within budget. */
  lemma SwitchIsSafe(attempt: Attempt, f: Facts)
    requires ChooseFallback(attempt, f).Switch?
    ensures attempt.pin.None?
    ensures var used := ChooseFallback(attempt, f).used;
            && used != attempt.used
            && (exists c :: c in f.candidates && c.ref == used && Eligible(f.table, c.routeId, f.now))
            && Allowed(used, f.allow, f.budget)
  {
    var ranked := Ranked(attempt.requested, f);
    SelectionIsPermitted(f.jev, ranked, f.allow, f.order, f.budget);
    var used := ChooseFallback(attempt, f).used;
    var c :| c in ranked && c.ref == used;
    assert c in f.candidates;
  }

  /** A pinned task is never moved to another model. */
  lemma PinIsNeverSubstituted(attempt: Attempt, f: Facts)
    requires attempt.pin.Some?
    ensures var d := ChooseFallback(attempt, f);
            && !d.Switch?
            && (d.Unchanged? <==> var pinned := Find(f.candidates, attempt.pin.value);
                                  pinned.Some? && Eligible(f.table, pinned.value.routeId, f.now))
  {
  }

  predicate Capped(table: Table, route: RouteId) {
    route in table && !table[route].capKind.NoCap?
  }

  predicate Reached(reset: Option<int>, t: int) {
    reset.Some? && reset.value <= t
  }

  /** The reset estimate of a pause is right: the pause can be resumed from then on and not before. */
  ghost predicate ResetTellsResume(watchRoutes: seq<RouteId>, reset: Option<int>, table: Table) {
    forall t :: IsResumable(watchRoutes, table, t) <==> Reached(reset, t)
  }

  /**
   The earliest reset among some candidates is when one of them becomes eligible, exactly
   when all of them are capped: one that is not is eligible at any time.
   */
  lemma EarliestResetTellsResume(candidates: seq<Candidate>, table: Table)
    ensures ResetTellsResume(Routes(candidates), EarliestReset(candidates, table), table)
       <==> forall c :: c in candidates ==> Capped(table, c.routeId)
  {
    var earliest, routes := EarliestReset(candidates, table), Routes(candidates);
    if c :| c in candidates && !Capped(table, c.routeId) {
      var t := if earliest.Some? then earliest.value - 1 else 0;
      WatchedRoute(candidates, c);
      assert Eligible(table, c.routeId, t) && !Reached(earliest, t);
      assert IsResumable(routes, table, t);
    } else {
      forall t ensures IsResumable(routes, table, t) <==> Reached(earliest, t) {
        CappedResumesAtReset(candidates, table, t);
      }
    }
  }

  lemma WatchedRoute(candidates: seq<Candidate>, c: Candidate)
    requires c in candidates
    ensures c.routeId in Routes(candidates)
  {
    var i :| 0 <= i < |candidates| && candidates[i] == c;
    assert Routes(candidates)[i] == c.routeId;
  }

  lemma CappedResumesAtReset(candidates: seq<Candidate>, table: Table, t: int)
    requires forall c :: c in candidates ==> Capped(table, c.routeId)
    ensures IsResumable(Routes(candidates), table, t) <==> Reached(EarliestReset(candidates, table), t)
  {
    var earliest, routes := EarliestReset(candidates, table), Routes(candidates);
    if IsResumable(routes, table, t) {
      var route :| route in routes && Eligible(table, route, t);
      var i :| 0 <= i < |routes| && routes[i] == route;
      assert candidates[i] in candidates;
    }
    if Reached(earliest, t) {
      var c :| c in candidates && ResetOf(table, c.routeId) == earliest;
      WatchedRoute(candidates, c);
    }
  }

  /**
   A pause can be resumed from its reset estimate on and not before, exactly when: for a
   pause over all candidates, every candidate's route is capped; when waiting for the
   primary, the primary's route is capped; for a capped pin, always.
   */
  lemma ResumableExactlyAtReset(attempt: Attempt, f: Facts)
    requires ChooseFallback(attempt, f).Pause?
    ensures var d := ChooseFallback(attempt, f);
            ResetTellsResume(d.watchRoutes, d.earliestReset, f.table) <==>
            match d.reason
            case AllCapped => forall c :: c in f.candidates ==> Capped(f.table, c.routeId)
            case NoAdequate => forall c :: c in f.candidates ==> Capped(f.table, c.routeId)
            case PreferWait => exists c :: Find(f.candidates, attempt.requested) == Some(c) && Capped(f.table, c.routeId)
            case PinCapped => true
  {
    var d := ChooseFallback(attempt, f);
    match d.reason
    case AllCapped => EarliestResetTellsResume(f.candidates, f.table);
    case NoAdequate => EarliestResetTellsResume(f.candidates, f.table);
    case PreferWait => OneRouteTellsResume(Find(f.candidates, attempt.requested).value, f.table);
    case PinCapped =>
      var pinned := Find(f.candidates, attempt.pin.value);
      if pinned.Some? {
        OneRouteTellsResume(pinned.value, f.table);
      }
  }

  lemma OneRouteTellsResume(c: Candidate, table: Table)
    ensures ResetTellsResume([c.routeId], ResetOf(table, c.routeId), table) <==> Capped(table, c.routeId)
  {
    assert c in [c];
    assert Routes([c]) == [c.routeId];
    EarliestResetTellsResume([c], table);
  }

  /** A pause because nothing passed selection, as opposed to nothing being available. */
  predicate SelectionRefused(attempt: Attempt, f: Facts) {
    var d := ChooseFallback(attempt, f);
    && d.Pause? && (d.reason.AllCapped? || d.reason.NoAdequate?)
    && exists c :: c in f.candidates && Eligible(f.table, c.routeId, f.now)
  }

  /**
   A pause because selection refused every available candidate watches a route that is
   eligible already: it is resumable at once, whatever reset estimate it carries.
   */
  lemma RefusedSelectionIsResumableAtOnce(attempt: Attempt, f: Facts)
    ensures SelectionRefused(attempt, f) ==> IsResumable(ChooseFallback(attempt, f).watchRoutes, f.table, f.now)
  {
    if c :| c in f.candidates && Eligible(f.table, c.routeId, f.now) {
      WatchedRoute(f.candidates, c);
    }
  }

  /** So for such a pause the reset estimate is not when the task may resume: here none is known and resuming is possible. */
  lemma RefusedSelectionIgnoresReset() returns (attempt: Attempt, f: Facts)
    ensures var d := ChooseFallback(attempt, f);
            && d.Pause? && d.reason.AllCapped? && d.earliestReset.None?
            && IsResumable(d.watchRoutes, f.table, f.now)
  {
    attempt := Attempt("a/x", "a/x", None, None);
    f := Facts(None, [Candidate("a/x", "r")], map[], 0, Allowlist(["b"], []), [], Minutes, 0, 0, None, None, false);
    assert ProviderOf("a/x") != "b";
    assert f.candidates[0] in f.candidates;
    var available := Available(f.candidates, f.table, f.now);
    assert available == f.candidates;
    var ranked := Ranked(attempt.requested, f);
    if SelectModel(f.jev, ranked, f.allow, f.order, f.budget).Selected? {
      SelectionIsPermitted(f.jev, ranked, f.allow, f.order, f.budget);
    }
    assert SelectionRefused(attempt, f);
    RefusedSelectionIsResumableAtOnce(attempt, f);
  }

  // ----- dwell -----

  /** The dwell of a fallback begun at `since` is over. */
  predicate DwellOver(f: Facts, since: int) {
    match f.dwell
    case Minutes => f.now >= since + f.dwellMinutes * 60_000
    case RemainderOfTask => f.atTaskBoundary
    case RemainderOfPhase => false
  }

  /**
   While its route answers, a fallback is kept exactly as long as its dwell: then the task
   is decided anew, as one that never dwelt. A route that stopped answering is not waited for.
   */
  lemma DwellDecides(attempt: Attempt, f: Facts, since: int)
    requires attempt.pin.None? && attempt.fallbackSince == Some(since)
    ensures var anew := ChooseFallback(attempt.(fallbackSince := None), f);
            var answers := exists c :: Find(f.candidates, attempt.used) == Some(c) && Eligible(f.table, c.routeId, f.now);
            ChooseFallback(attempt, f) == if answers && !DwellOver(f, since) then Unchanged else anew
  {
  }

  // ----- which model, and why -----

  /** The reason given for a switch is the cap on the primary; a return to the primary has none. */
  lemma ReasonIsThePrimarysCap(attempt: Attempt, f: Facts)
    requires ChooseFallback(attempt, f).Switch?
    ensures var d := ChooseFallback(attempt, f);
            && (d.used == attempt.requested <==> d.fallbackReason.None?)
            && (d.used != attempt.requested ==>
                  var primary := Find(f.candidates, attempt.requested);
                  d.fallbackReason.value ==
                    if primary.None? || primary.value.routeId !in f.table then UnavailableReason
                    else match f.table[primary.value.routeId].capKind
                         case QuotaExhausted => QuotaReason
                         case RateLimited => RateReason
                         case BudgetCap => BudgetReason
                         case Unavailable => UnavailableReason
                         case NoCap => UnavailableReason)
  {
  }

  /** The first candidate whose route is eligible. */
  ghost predicate FirstAvailable(f: Facts, i: nat) {
    && i < |f.candidates| && Eligible(f.table, f.candidates[i].routeId, f.now)
    && forall j :: 0 <= j < i ==> !Eligible(f.table, f.candidates[j].routeId, f.now)
  }

  /** The primary is due back within the minutes configured, and the substitute is not known to cost no more. */
  ghost predicate WorthWaiting(attempt: Attempt, f: Facts, reset: int, substitute: ModelRef) {
    && f.now <= reset <= f.now + f.preferWaitMinutes * 60_000
    && !(f.costOf.Some? && f.costOf.value(substitute).Some? && f.costOf.value(attempt.requested).Some?
         && f.costOf.value(substitute).value <= f.costOf.value(attempt.requested).value)
  }

  lemma FilterStep(s: seq<Candidate>, keep: Candidate -> bool)
    requires s != []
    ensures Filter(s, keep) == if keep(s[0]) then [s[0]] + Filter(s[1..], keep) else Filter(s[1..], keep)
  {
    assert [] + Filter(s[1..], keep) == Filter(s[1..], keep);
  }

  /** The primary is a candidate, its reset is known, and waiting for it is worth it. */
  ghost predicate WaitsFor(attempt: Attempt, f: Facts, i: nat, reset: int)
    requires i < |f.candidates|
  {
    && (exists primary :: Find(f.candidates, attempt.requested) == Some(primary) && ResetOf(f.table, primary.routeId) == Some(reset))
    && WorthWaiting(attempt, f, reset, f.candidates[i].ref)
  }

  lemma {:induction false} HeadOfFilter(s: seq<Candidate>, keep: Candidate -> bool) returns (i: nat)
    requires Filter(s, keep) != []
    ensures i < |s| && s[i] == Filter(s, keep)[0] && forall j :: 0 <= j < i ==> !keep(s[j])
  {
    if keep(s[0]) {
      i := 0;
    } else {
      i := HeadOfFilter(s[1..], keep);
      i := i + 1;
    }
  }

  /** A task waits for its primary exactly when something else is available but waiting is worth it, and until then. */
  lemma WaitsExactlyWhenWorthIt(attempt: Attempt, f: Facts)
    requires attempt.pin.None? && attempt.fallbackSince.None?
    ensures var d := ChooseFallback(attempt, f);
            && (d.Pause? && d.reason.PreferWait? <==>
                  f.preferWaitMinutes > 0 && exists i: nat, reset :: FirstAvailable(f, i) && WaitsFor(attempt, f, i, reset))
            && (d.Pause? && d.reason.PreferWait? ==>
                  exists primary :: Find(f.candidates, attempt.requested) == Some(primary)
                                    && d == Pause(PreferWait, ResetOf(f.table, primary.routeId), [primary.routeId]))
  {
    var available := Available(f.candidates, f.table, f.now);
    if available != [] {
      var keep := (c: Candidate) => Eligible(f.table, c.routeId, f.now);
      var i := HeadOfFilter(f.candidates, keep);
      assert keep(f.candidates[i]) && forall j :: 0 <= j < i ==> !keep(f.candidates[j]);
      assert FirstAvailable(f, i) && f.candidates[i] == available[0];
      forall j: nat | FirstAvailable(f, j) ensures j == i {
      }
      var primary := Find(f.candidates, attempt.requested);
      if primary.Some? && ResetOf(f.table, primary.value.routeId).Some? {
        assert ShouldWait(attempt.requested, f, available[0]) <==>
               f.preferWaitMinutes > 0 && WaitsFor(attempt, f, i, ResetOf(f.table, primary.value.routeId).value);
      }
    }
  }

  // ----- the choice without Jev -----

  predicate Offered(f: Facts, i: nat)
    requires i < |f.candidates|
  {
    Eligible(f.table, f.candidates[i].routeId, f.now) && Allowed(f.candidates[i].ref, f.allow, f.budget)
  }

  /**
   Candidate `i` is the best on offer: of the smallest rank in the static order; among
   those the primary, at a task boundary; and then the first listed.
   */
  ghost predicate BestOffered(requested: ModelRef, f: Facts, i: nat) {
    && i < |f.candidates| && Offered(f, i)
    && forall j :: 0 <= j < |f.candidates| && Offered(f, j) ==> NotBetter(requested, f, i, j)
  }

  predicate NotBetter(requested: ModelRef, f: Facts, i: nat, j: nat)
    requires i < |f.candidates| && j < |f.candidates|
  {
    var mine, other := f.candidates[i].ref, f.candidates[j].ref;
    || Rank(f.order, mine) < Rank(f.order, other)
    || (Rank(f.order, mine) == Rank(f.order, other) &&
        if f.atTaskBoundary && (mine == requested) != (other == requested)
        then mine == requested else i <= j)
  }

  lemma {:induction false} FilterTwice(s: seq<Candidate>, p: Candidate -> bool, q: Candidate -> bool, both: Candidate -> bool)
    requires forall c :: both(c) <==> p(c) && q(c)
    ensures Filter(Filter(s, p), q) == Filter(s, both)
  {
    if s != [] {
      FilterTwice(s[1..], p, q, both);
      FilterStep(s, p);
      FilterStep(s, both);
      var rest := Filter(s[1..], p);
      if p(s[0]) {
        assert ([s[0]] + rest)[1..] == rest;
        FilterStep([s[0]] + rest, q);
      }
    }
  }

  lemma RankOfFilter(s: seq<Candidate>, keep: Candidate -> bool, order: seq<ModelRef>, r: nat)
    requires s != []
    ensures WithRank(Filter(s, keep), order, r)
         == (if keep(s[0]) && Rank(order, s[0].ref) == r then [s[0]] else []) + WithRank(Filter(s[1..], keep), order, r)
  {
    FilterStep(s, keep);
    RankOfCons(s[0], Filter(s[1..], keep), order, r);
    assert [] + WithRank(Filter(s[1..], keep), order, r) == WithRank(Filter(s[1..], keep), order, r);
  }

  predicate KeptHere(c: Candidate, keep: Candidate -> bool, order: seq<ModelRef>, r: nat,
                     eligible: set<ModelRef>, allow: Allowlist, budget: BudgetCheck) {
    keep(c) && Rank(order, c.ref) == r && Passes(c, eligible, allow, budget)
  }

  lemma PassingOfKept(s: seq<Candidate>, keep: Candidate -> bool, order: seq<ModelRef>, r: nat,
                      eligible: set<ModelRef>, allow: Allowlist, budget: BudgetCheck)
    requires s != []
    ensures FirstPassing(WithRank(Filter(s, keep), order, r), eligible, allow, budget)
         == if KeptHere(s[0], keep, order, r, eligible, allow, budget) then Some(s[0])
            else FirstPassing(WithRank(Filter(s[1..], keep), order, r), eligible, allow, budget)
  {
    FirstPassingOfNone(eligible, allow, budget);
    RankOfFilter(s, keep, order, r);
    var here := if keep(s[0]) && Rank(order, s[0].ref) == r then [s[0]] else [];
    FirstPassingOfJoin(here, WithRank(Filter(s[1..], keep), order, r), eligible, allow, budget);
  }

  /** Position `i` is kept, of rank `r`, and passes, and none before it does all three. */
  ghost predicate FirstKept(s: seq<Candidate>, keep: Candidate -> bool, order: seq<ModelRef>, r: nat,
                            eligible: set<ModelRef>, allow: Allowlist, budget: BudgetCheck, i: nat) {
    && i < |s| && KeptHere(s[i], keep, order, r, eligible, allow, budget)
    && forall j :: 0 <= j < i ==> !KeptHere(s[j], keep, order, r, eligible, allow, budget)
  }

  lemma {:induction false} WalkOfKept(s: seq<Candidate>, keep: Candidate -> bool, order: seq<ModelRef>, r: nat,
                                      eligible: set<ModelRef>, allow: Allowlist, budget: BudgetCheck) returns (i: nat)
    requires FirstPassing(WithRank(Filter(s, keep), order, r), eligible, allow, budget).Some?
    ensures FirstKept(s, keep, order, r, eligible, allow, budget, i)
    ensures s[i] == FirstPassing(WithRank(Filter(s, keep), order, r), eligible, allow, budget).value
  {
    NothingOfNothing(s, keep, order, r, eligible, allow, budget);
    PassingOfKept(s, keep, order, r, eligible, allow, budget);
    if KeptHere(s[0], keep, order, r, eligible, allow, budget) {
      i := 0;
    } else {
      i := WalkOfKept(s[1..], keep, order, r, eligible, allow, budget);
      FirstKeptFurther(s, keep, order, r, eligible, allow, budget, i);
      i := i + 1;
    }
  }

  lemma FirstKeptFurther(s: seq<Candidate>, keep: Candidate -> bool, order: seq<ModelRef>, r: nat,
                         eligible: set<ModelRef>, allow: Allowlist, budget: BudgetCheck, i: nat)
    requires s != [] && !KeptHere(s[0], keep, order, r, eligible, allow, budget)
    requires FirstKept(s[1..], keep, order, r, eligible, allow, budget, i)
    ensures FirstKept(s, keep, order, r, eligible, allow, budget, i + 1)
  {
    forall j | 0 <= j < i + 1 ensures !KeptHere(s[j], keep, order, r, eligible, allow, budget) {
      if j > 0 {
        assert s[j] == s[1..][j - 1];
      }
    }
  }

  lemma NothingOfNothing(s: seq<Candidate>, keep: Candidate -> bool, order: seq<ModelRef>, r: nat,
                         eligible: set<ModelRef>, allow: Allowlist, budget: BudgetCheck)
    ensures s == [] ==> FirstPassing(WithRank(Filter(s, keep), order, r), eligible, allow, budget).None?
  {
  }

  lemma OfferedIsRanked(requested: ModelRef, f: Facts, j: nat)
    requires j < |f.candidates|
    ensures var ranked, c := Ranked(requested, f), f.candidates[j];
            Offered(f, j) ==> c in ranked && Passes(c, Refs(ranked), f.allow, f.budget)
  {
    var ranked := Ranked(requested, f);
    PassesExactly(f.candidates[j], Refs(ranked), f.allow, f.budget);
  }

  /** A candidate that is in the ranked list and passes was on offer. */
  lemma RankedIsOffered(requested: ModelRef, f: Facts, i: nat)
    requires i < |f.candidates| && Eligible(f.table, f.candidates[i].routeId, f.now)
    requires Passes(f.candidates[i], Refs(Ranked(requested, f)), f.allow, f.budget)
    ensures Offered(f, i)
  {
    PassesExactly(f.candidates[i], Refs(Ranked(requested, f)), f.allow, f.budget);
  }
  /** The first to pass among the candidates of one rank, in terms of the candidates as listed. */
  lemma FirstOfRankIsListedFirst(requested: ModelRef, f: Facts, r: nat) returns (i: nat)
    requires var ranked := Ranked(requested, f);
             FirstPassing(WithRank(ranked, f.order, r), Refs(ranked), f.allow, f.budget).Some?
    ensures i < |f.candidates| && Offered(f, i) && Rank(f.order, f.candidates[i].ref) == r
    ensures var ranked := Ranked(requested, f);
            f.candidates[i] == FirstPassing(WithRank(ranked, f.order, r), Refs(ranked), f.allow, f.budget).value
    ensures forall j :: 0 <= j < |f.candidates| && Offered(f, j) && Rank(f.order, f.candidates[j].ref) == r ==> NotBetter(requested, f, i, j)
  {
    var ranked := Ranked(requested, f);
    var eligible := Refs(ranked);
    var available := (c: Candidate) => Eligible(f.table, c.routeId, f.now);
    if !f.atTaskBoundary {
      i := WalkOfKept(f.candidates, available, f.order, r, eligible, f.allow, f.budget);
      RankedIsOffered(requested, f, i);
      forall j: nat | j < |f.candidates| && Offered(f, j) && Rank(f.order, f.candidates[j].ref) == r ensures NotBetter(requested, f, i, j) {
        OfferedIsRanked(requested, f, j);
        assert KeptHere(f.candidates[j], available, f.order, r, eligible, f.allow, f.budget);
      }
    } else {
      i := FirstOfRankAtBoundary(requested, f, r);
    }
  }

  lemma FirstOfRankAtBoundary(requested: ModelRef, f: Facts, r: nat) returns (i: nat)
    requires f.atTaskBoundary
    requires var ranked := Ranked(requested, f);
             FirstPassing(WithRank(ranked, f.order, r), Refs(ranked), f.allow, f.budget).Some?
    ensures i < |f.candidates| && Offered(f, i) && Rank(f.order, f.candidates[i].ref) == r
    ensures var ranked := Ranked(requested, f);
            f.candidates[i] == FirstPassing(WithRank(ranked, f.order, r), Refs(ranked), f.allow, f.budget).value
    ensures forall j :: 0 <= j < |f.candidates| && Offered(f, j) && Rank(f.order, f.candidates[j].ref) == r ==> NotBetter(requested, f, i, j)
  {
    var ranked := Ranked(requested, f);
    var eligible, primary := Refs(ranked), requested;
    var available := (c: Candidate) => Eligible(f.table, c.routeId, f.now);
    var isPrimary, isOther := (c: Candidate) => c.ref == primary, (c: Candidate) => c.ref != primary;
    var mine, others := (c: Candidate) => available(c) && isPrimary(c), (c: Candidate) => available(c) && isOther(c);
    FilterTwice(f.candidates, available, isPrimary, mine);
    FilterTwice(f.candidates, available, isOther, others);
    RanksOfJoin(Filter(f.candidates, mine), Filter(f.candidates, others), f.order, r);
    var first, second := WithRank(Filter(f.candidates, mine), f.order, r), WithRank(Filter(f.candidates, others), f.order, r);
    assert WithRank(ranked, f.order, r) == first + second;
    FirstPassingOfJoin(first, second, eligible, f.allow, f.budget);
    var fromPrimary := FirstPassing(first, eligible, f.allow, f.budget).Some?;
    var keep := if fromPrimary then mine else others;
    i := WalkOfKept(f.candidates, keep, f.order, r, eligible, f.allow, f.budget);
    RankedIsOffered(requested, f, i);
    forall j: nat | j < |f.candidates| && Offered(f, j) && Rank(f.order, f.candidates[j].ref) == r ensures NotBetter(requested, f, i, j) {
      OfferedIsRanked(requested, f, j);
      var c := f.candidates[j];
      RankMember(Filter(f.candidates, mine), f.order, r, c);
      if keep(c) {
        assert KeptHere(c, keep, f.order, r, eligible, f.allow, f.budget);
      }
    }
  }

  /** What selection without Jev uses is the best on offer, and something is used when anything is on offer. */
  lemma StaticSelectionIsBest(requested: ModelRef, f: Facts)
    ensures var r := SelectModel(None, Ranked(requested, f), f.allow, f.order, f.budget);
            && (r.Selected? <==> exists j :: 0 <= j < |f.candidates| && Offered(f, j))
            && (!r.Selected? ==> r == NothingPermitted)
            && (r.Selected? ==> exists i: nat :: BestOffered(requested, f, i) && f.candidates[i].ref == r.used)
  {
    var ranked := Ranked(requested, f);
    var eligible, sorted := Refs(ranked), StaticOrder(ranked, f.order);
    StaticOrderIsStable(ranked, f.order);
    forall j: nat | j < |f.candidates| && Offered(f, j)
      ensures FirstPassing(sorted, eligible, f.allow, f.budget).Some?
      ensures Rank(f.order, FirstPassing(sorted, eligible, f.allow, f.budget).value.ref) <= Rank(f.order, f.candidates[j].ref)
    {
      OfferedIsRanked(requested, f, j);
      NothingPassingRanksBefore(sorted, f.order, f.candidates[j], eligible, f.allow, f.budget);
    }
    if FirstPassing(sorted, eligible, f.allow, f.budget).Some? {
      var c := FirstPassing(sorted, eligible, f.allow, f.budget).value;
      FirstPassingOfItsRank(sorted, f.order, eligible, f.allow, f.budget);
      var i := FirstOfRankIsListedFirst(requested, f, Rank(f.order, c.ref));
      assert BestOffered(requested, f, i);
    }
  }

  ghost predicate SomethingOffered(f: Facts) {
    exists j :: 0 <= j < |f.candidates| && Offered(f, j)
  }

  /** Stay with the best candidate on offer, or switch to it. */
  ghost predicate GoesToTheBest(requested: ModelRef, used: ModelRef, f: Facts, d: Decision) {
    exists i: nat :: BestOffered(requested, f, i) &&
      if f.candidates[i].ref == used then d.Unchanged? else d.Switch? && d.used == f.candidates[i].ref
  }

  lemma StaticReselection(requested: ModelRef, used: ModelRef, f: Facts)
    requires f.jev.None?
    ensures var d := Reselect(requested, used, f);
            if SomethingOffered(f) then GoesToTheBest(requested, used, f, d) else d == CappedPause(AllCapped, f)
  {
    StaticSelectionIsBest(requested, f);
    var r := SelectModel(None, Ranked(requested, f), f.allow, f.order, f.budget);
    if r.Selected? {
      var i: nat :| BestOffered(requested, f, i) && f.candidates[i].ref == r.used;
    }
  }

  lemma OfferedIsAvailable(f: Facts)
    ensures SomethingOffered(f) ==> Available(f.candidates, f.table, f.now) != []
  {
    if j :| 0 <= j < |f.candidates| && Offered(f, j) {
      assert f.candidates[j] in Available(f.candidates, f.table, f.now);
    }
  }

  /**
   The whole decision without Jev, for a task that neither dwells nor waits: it pauses, all
   capped, exactly when no candidate is on offer, and otherwise goes to the best one.
   */
  lemma StaticDecision(attempt: Attempt, f: Facts)
    requires attempt.pin.None? && attempt.fallbackSince.None? && f.preferWaitMinutes <= 0 && f.jev.None?
    ensures var d := ChooseFallback(attempt, f);
            if SomethingOffered(f) then GoesToTheBest(attempt.requested, attempt.used, f, d)
            else d == Pause(AllCapped, EarliestReset(f.candidates, f.table), Routes(f.candidates))
  {
    StaticReselection(attempt.requested, attempt.used, f);
    OfferedIsAvailable(f);
  }

  /** Stay on candidate `i` of those asked about, or switch to it. */
  predicate GoesTo(ranked: seq<Candidate>, i: nat, used: ModelRef, d: Decision) {
    && i < |ranked|
    && if ranked[i].ref == used then d.Unchanged? else d.Switch? && d.used == ranked[i].ref
  }

  /**
   The same with Jev: it pauses, none adequate, exactly when no available candidate is both
   adequate and let through, and otherwise goes to the first such in the order asked.
   */
  lemma JevDecision(attempt: Attempt, f: Facts)
    requires attempt.pin.None? && attempt.fallbackSince.None? && f.preferWaitMinutes <= 0 && f.jev.Some?
    requires exists i :: 0 <= i < |Ranked(attempt.requested, f)| && !f.jev.value(i).fellBack
    ensures var d, ranked, jev := ChooseFallback(attempt, f), Ranked(attempt.requested, f), f.jev.value;
            if exists i :: 0 <= i < |ranked| && jev(i).adequate && Passes(ranked[i], Refs(ranked), f.allow, f.budget)
            then exists i: nat :: FirstAdequatePassing(ranked, jev, i, Refs(ranked), f.allow, f.budget) && GoesTo(ranked, i, attempt.used, d)
            else d == Pause(NoAdequate, EarliestReset(f.candidates, f.table), Routes(f.candidates))
  {
    var ranked := Ranked(attempt.requested, f);
    JevSelectionIsComplete(f.jev.value, ranked, f.allow, f.order, f.budget);
    JevReselection(attempt.requested, attempt.used, f);
    assert Available(f.candidates, f.table, f.now) != [];
  }

  lemma JevReselection(requested: ModelRef, used: ModelRef, f: Facts)
    ensures var d, ranked := Reselect(requested, used, f), Ranked(requested, f);
            match SelectModel(f.jev, ranked, f.allow, f.order, f.budget)
            case NothingAdequate => d == CappedPause(NoAdequate, f)
            case NothingPermitted => d == CappedPause(AllCapped, f)
            case Selected(_, next) => if next == used then d.Unchanged? else d.Switch? && d.used == next
  {
  }

  // ----- runs -----

  /** One decision of a run and the facts it was taken from. */
  datatype Moment = Moment(facts: Facts, decision: Decision)

  /** The caller's bookkeeping: a switch to a fallback is stamped, a switch back to the primary clears the stamp. */
  function Advance(attempt: Attempt, m: Moment): Attempt {
    match m.decision
    case Switch(used, _) =>
      attempt.(used := used, fallbackSince := if used == attempt.requested then None else Some(m.facts.now))
    case _ => attempt
  }

  /** The attempt before decision `n` of a run. */
  function Before(start: Attempt, run: seq<Moment>, n: nat): Attempt
    requires n <= |run|
  {
    if n == 0 then start else Advance(Before(start, run, n - 1), run[n - 1])
  }

  ghost predicate IsRun(start: Attempt, run: seq<Moment>) {
    forall n: nat :: n < |run| ==> run[n].decision == ChooseFallback(Before(start, run, n), run[n].facts)
  }

  /** Decision `j` moved the task to the model it is on at `n`, and nothing has switched it in between. */
  ghost predicate EnteredAt(start: Attempt, run: seq<Moment>, j: nat, n: nat)
    requires j < n <= |run|
  {
    && run[j].decision.Switch?
    && run[j].decision.used == Before(start, run, n).used
    && forall i :: j < i < n ==> !run[i].decision.Switch?
  }

  /** A task that began on its primary and is on a fallback now entered it at the stamped time. */
  lemma {:induction false} StampIsTheEntry(start: Attempt, run: seq<Moment>, n: nat) returns (j: nat)
    requires n <= |run| && start.used == start.requested && start.fallbackSince.None?
    ensures Before(start, run, n).requested == start.requested && Before(start, run, n).pin == start.pin
    ensures Before(start, run, n).used == start.requested <==> Before(start, run, n).fallbackSince.None?
    ensures Before(start, run, n).used != start.requested ==>
              && j < n && EnteredAt(start, run, j, n)
              && Before(start, run, n).fallbackSince == Some(run[j].facts.now)
  {
    if n == 0 {
      j := 0;
    } else {
      j := StampIsTheEntry(start, run, n - 1);
      if run[n - 1].decision.Switch? {
        j := n - 1;
      }
    }
  }

  /** Decision `n` of a run switches a task away from a fallback model whose route is still eligible. */
  ghost predicate LeavesEligibleFallback(start: Attempt, run: seq<Moment>, n: nat)
    requires n < |run|
  {
    && start.used == start.requested && start.fallbackSince.None? && IsRun(start, run)
    && run[n].decision.Switch? && Before(start, run, n).used != start.requested
    && UsedStillEligible(Before(start, run, n), run[n].facts)
  }

  /**
   Over any run of decisions, a task leaves a fallback model that is still eligible only
   when its dwell allows: after `dwellMinutes` since it entered it, or at a task boundary;
   never while the dwell is the remainder of the phase.
   */
  lemma DwellIsHonoured(start: Attempt, run: seq<Moment>, n: nat)
    requires n < |run|
    ensures LeavesEligibleFallback(start, run, n) ==>
              exists j: nat :: j < n && EnteredAt(start, run, j, n) && DwellOver(run[n].facts, run[j].facts.now)
  {
    if LeavesEligibleFallback(start, run, n) {
      var j := StampIsTheEntry(start, run, n);
      assert DwellOver(run[n].facts, run[j].facts.now);
    }
  }

  /**
   Over any run, a task on a fallback is held to it by exactly one thing: a dwell, counted
   from the decision that entered it, that is not over while the fallback's route answers.
   */
  lemma DwellDecidesInRuns(start: Attempt, run: seq<Moment>, n: nat)
    requires n < |run| && IsRun(start, run)
    requires start.used == start.requested && start.fallbackSince.None? && start.pin.None?
    requires Before(start, run, n).used != start.requested
    ensures var attempt, f := Before(start, run, n), run[n].facts;
            var answers := exists c :: Find(f.candidates, attempt.used) == Some(c) && Eligible(f.table, c.routeId, f.now);
            exists j: nat :: j < n && EnteredAt(start, run, j, n) &&
              run[n].decision == if answers && !DwellOver(f, run[j].facts.now) then Unchanged
                                 else ChooseFallback(attempt.(fallbackSince := None), f)
  {
    var j := StampIsTheEntry(start, run, n);
    DwellDecides(Before(start, run, n), run[n].facts, run[j].facts.now);
  }
}
