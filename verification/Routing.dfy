/**
 Choosing a route deterministically, and honouring a pin: the parts of model choice that
 never consult Jev.
 */
module Routing {
  import opened Prelude
  import opened Selection

  datatype RouteSelection =
    | SelectedRoute(route: Candidate, rank: nat)
    | AllRoutesCapped(earliestReset: Option<int>)
    | NoCandidates

  /** `i` is the first position whose route is eligible. */
  ghost predicate FirstEligible(ranked: seq<Candidate>, table: Table, now: int, i: nat) {
    && i < |ranked| && Eligible(table, ranked[i].routeId, now)
    && forall j :: 0 <= j < i ==> !Eligible(table, ranked[j].routeId, now)
  }

  ghost predicate AllCappedAt(candidates: seq<Candidate>, table: Table, now: int) {
    forall c :: c in candidates ==> !Eligible(table, c.routeId, now)
  }

  lemma EarliestOfMore(a: seq<Candidate>, b: seq<Candidate>, table: Table)
    requires forall c :: c in a ==> c in b
    ensures var x, y := EarliestReset(a, table), EarliestReset(b, table);
            x.Some? ==> y.Some? && y.value <= x.value
  {
  }

  /** The earliest reset does not depend on the order of the candidates. */
  lemma EarliestResetOfSameRoutes(a: seq<Candidate>, b: seq<Candidate>, table: Table)
    requires forall c :: c in a <==> c in b
    ensures EarliestReset(a, table) == EarliestReset(b, table)
  {
    EarliestOfMore(a, b, table);
    EarliestOfMore(b, a, table);
  }

  /** `selectRoute`: the first eligible route of the stable static order, or when the next one is expected. */
  method SelectRoute(candidates: seq<Candidate>, table: Table, now: int, order: seq<ModelRef>) returns (r: RouteSelection)
    ensures r.NoCandidates? <==> candidates == []
    ensures r.SelectedRoute? ==>
              FirstEligible(StaticOrder(candidates, order), table, now, r.rank) && r.route == StaticOrder(candidates, order)[r.rank]
    ensures r.AllRoutesCapped? ==> AllCappedAt(candidates, table, now) && r.earliestReset == EarliestReset(candidates, table)
  {
    if |candidates| == 0 {
      return NoCandidates;
    }
    var ranked := OrderByStatic(candidates, order);
    StaticOrderIsStable(candidates, order);
    for i := 0 to |ranked|
      invariant forall j :: 0 <= j < i ==> !Eligible(table, ranked[j].routeId, now)
    {
      if Eligible(table, ranked[i].routeId, now) {
        return SelectedRoute(ranked[i], i);
      }
    }
    var earliest := EarliestResetAmong(ranked, table);
    EarliestResetOfSameRoutes(ranked, candidates, table);
    r := AllRoutesCapped(earliest);
  }

  /** If every route is capped now, some route is eligible at `t` exactly when the earliest reset is known and reached. */
  lemma CappedUntilTheEarliestReset(candidates: seq<Candidate>, table: Table, now: int, t: int)
    requires AllCappedAt(candidates, table, now)
    ensures !AllCappedAt(candidates, table, t)
       <==> EarliestReset(candidates, table).Some? && EarliestReset(candidates, table).value <= t
  {
  }

  // ----- pins -----

  datatype PinResolution = NoPin | Pinned(candidate: Candidate) | NeedsAsk(ref: ModelRef, why: Option<Rejection>)

  function ApplyPin(pin: Option<ModelRef>, candidates: seq<Candidate>, allow: Allowlist, budget: BudgetCheck): PinResolution {
    if pin.None? then NoPin
    else
      var candidate := Find(candidates, pin.value);
      if candidate.None? then NeedsAsk(pin.value, None)
      else
        var check := Enforce(pin.value, Refs(candidates), allow, budget);
        if check.Some? then NeedsAsk(pin.value, check) else Pinned(candidate.value)
  }

  /** A pin widens nothing and substitutes nothing: it takes effect exactly for an offered model that policy lets through. */
  lemma PinIsHonouredOrAsked(pin: ModelRef, candidates: seq<Candidate>, allow: Allowlist, budget: BudgetCheck)
    ensures var r := ApplyPin(Some(pin), candidates, allow, budget);
            && (r.Pinned? <==> pin in Refs(candidates) && InAllowlist(pin, allow) && InBudget(pin, budget))
            && (r.Pinned? ==> r.candidate in candidates && r.candidate.ref == pin)
            && (!r.Pinned? ==> r.NeedsAsk? && r.ref == pin && (r.why.None? <==> pin !in Refs(candidates)))
            && (r == NeedsAsk(pin, Some(NotInAllowlist)) <==> pin in Refs(candidates) && !Allowed(pin, allow, None))
            && (r == NeedsAsk(pin, Some(BudgetUnavailable)) <==>
                  pin in Refs(candidates) && Allowed(pin, allow, None) && !Allowed(pin, allow, budget))
            && r != NeedsAsk(pin, Some(NotEligible))
  {
    RejectionIsTheFirst(pin, Refs(candidates), allow, budget);
  }

  datatype PinnedSelection = PinBlocked(ref: ModelRef, why: Option<Rejection>) | Chosen(result: SelectionResult)

  /** `selectModel` with a pin: settled before Jev or the static order are looked at. */
  function SelectWithPin(pin: Option<ModelRef>, jev: Option<Jev>, candidates: seq<Candidate>, allow: Allowlist,
                         order: seq<ModelRef>, budget: BudgetCheck): PinnedSelection
  {
    match ApplyPin(pin, candidates, allow, budget)
    case Pinned(c) => Chosen(Selected(c.ref, c.ref))
    case NeedsAsk(ref, why) => PinBlocked(ref, why)
    case NoPin => Chosen(SelectModel(jev, candidates, allow, order, budget))
  }

  /** With a pin the outcome is the pinned model or a question to the user, the same for every answer Jev could give. */
  lemma PinOutranksJev(pin: ModelRef, jev: Option<Jev>, other: Option<Jev>, candidates: seq<Candidate>, allow: Allowlist,
                       order: seq<ModelRef>, budget: BudgetCheck)
    ensures var r := SelectWithPin(Some(pin), jev, candidates, allow, order, budget);
            && r == SelectWithPin(Some(pin), other, candidates, allow, order, budget)
            && (r.PinBlocked? || r == Chosen(Selected(pin, pin)))
            && (r.Chosen? <==> pin in Refs(candidates) && InAllowlist(pin, allow) && InBudget(pin, budget))
  {
  }
}
