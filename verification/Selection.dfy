/**
 Model routes: which are available, in what order they are tried, and which policy lets
 through. Jev is an arbitrary oracle; nothing here depends on what it answers.
 */
module Selection {
  import opened Prelude

  type ModelRef = string
  type RouteId = string

  datatype Candidate = Candidate(ref: ModelRef, routeId: RouteId)

  // ----- route availability -----

  datatype CapKind = NoCap | QuotaExhausted | RateLimited | BudgetCap | Unavailable

  datatype Row = Row(capKind: CapKind, estimatedReset: Option<int>)

  type Table = map<RouteId, Row>

  function ResetOf(table: Table, route: RouteId): Option<int> {
    if route in table then table[route].estimatedReset else None
  }

  /** Never capped, cleared, or past its estimated reset. */
  predicate Eligible(table: Table, route: RouteId, now: int) {
    || route !in table
    || table[route].capKind.NoCap?
    || (table[route].estimatedReset.Some? && table[route].estimatedReset.value <= now)
  }

  /** What the table's own mutators keep: only a capped row carries a reset estimate. */
  ghost predicate ResetsBelongToCaps(table: Table) {
    forall route :: route in table && table[route].capKind.NoCap? ==> table[route].estimatedReset.None?
  }

  class RouteAvailabilityTable {
    var rows: Table

    constructor ()
      ensures rows == map[] && ResetsBelongToCaps(rows)
      ensures forall route, now :: Eligible(rows, route, now)
    {
      rows := map[];
    }

    /** A cap is attributed to exactly one route: no other route's eligibility changes. */
    method MarkCapped(route: RouteId, capKind: CapKind, estimatedReset: Option<int>)
      requires !capKind.NoCap?
      modifies this
      ensures rows == old(rows)[route := Row(capKind, estimatedReset)]
      ensures old(ResetsBelongToCaps(rows)) ==> ResetsBelongToCaps(rows)
      ensures forall other, now :: other != route ==> (Eligible(rows, other, now) <==> old(Eligible(rows, other, now)))
      ensures forall now :: Eligible(rows, route, now) <==> estimatedReset.Some? && estimatedReset.value <= now
    {
      rows := rows[route := Row(capKind, estimatedReset)];
    }

    method MarkAvailable(route: RouteId)
      modifies this
      ensures rows == old(rows)[route := Row(NoCap, None)]
      ensures old(ResetsBelongToCaps(rows)) ==> ResetsBelongToCaps(rows)
      ensures forall now :: Eligible(rows, route, now)
    {
      rows := rows[route := Row(NoCap, None)];
    }
  }

  /** The earliest known reset among the candidates' routes. */
  function EarliestReset(candidates: seq<Candidate>, table: Table): (r: Option<int>)
    ensures r.None? <==> forall c :: c in candidates ==> ResetOf(table, c.routeId).None?
    ensures r.Some? ==> exists c :: c in candidates && ResetOf(table, c.routeId) == r
    ensures forall c :: c in candidates && ResetOf(table, c.routeId).Some? ==> r.Some? && r.value <= ResetOf(table, c.routeId).value
  {
    if candidates == [] then None
    else
      var n := |candidates| - 1;
      var earlier, last := EarliestReset(candidates[..n], table), ResetOf(table, candidates[n].routeId);
      assert forall c :: c in candidates <==> c in candidates[..n] || c == candidates[n];
      if last.Some? && (earlier.None? || last.value < earlier.value) then last else earlier
  }

  method EarliestResetAmong(candidates: seq<Candidate>, table: Table) returns (earliest: Option<int>)
    ensures earliest == EarliestReset(candidates, table)
  {
    earliest := None;
    for i := 0 to |candidates|
      invariant earliest == EarliestReset(candidates[..i], table)
    {
      var reset := ResetOf(table, candidates[i].routeId);
      if reset.Some? && (earliest.None? || reset.value < earliest.value) {
        earliest := reset;
      }
      assert candidates[..i + 1][..i] == candidates[..i];
    }
    assert candidates[..|candidates|] == candidates;
  }

  // ----- the static order -----

  /** Position of the first mention of `ref`; refs not mentioned rank last, together. */
  function Rank(order: seq<ModelRef>, ref: ModelRef): (r: nat)
    ensures r <= |order|
    ensures r < |order| ==> order[r] == ref
    ensures forall i :: 0 <= i < r ==> order[i] != ref
  {
    if order == [] then 0 else if order[0] == ref then 0 else 1 + Rank(order[1..], ref)
  }

  function WithRank(s: seq<Candidate>, order: seq<ModelRef>, r: nat): seq<Candidate> {
    if s == [] then []
    else
      var n := |s| - 1;
      if Rank(order, s[n].ref) == r then WithRank(s[..n], order, r) + [s[n]] else WithRank(s[..n], order, r)
  }

  lemma WithOneMore(s: seq<Candidate>, c: Candidate, order: seq<ModelRef>)
    ensures forall r: nat :: WithRank(s + [c], order, r)
                          == if Rank(order, c.ref) == r then WithRank(s, order, r) + [c] else WithRank(s, order, r)
  {
  }

  ghost predicate RankSorted(s: seq<Candidate>, order: seq<ModelRef>) {
    forall i, j :: 0 <= i < j < |s| ==> Rank(order, s[i].ref) <= Rank(order, s[j].ref)
  }

  /** `out` lists the candidates by rank, and candidates of one rank as they came. */
  ghost predicate StablyOrdered(input: seq<Candidate>, out: seq<Candidate>, order: seq<ModelRef>) {
    RankSorted(out, order) && forall r: nat :: WithRank(out, order, r) == WithRank(input, order, r)
  }

  /** Insert after everything of the same or a smaller rank. */
  function InsertByRank(s: seq<Candidate>, c: Candidate, order: seq<ModelRef>): seq<Candidate> {
    if s == [] || Rank(order, s[|s| - 1].ref) <= Rank(order, c.ref) then s + [c]
    else InsertByRank(s[..|s| - 1], c, order) + [s[|s| - 1]]
  }

  function StaticOrder(candidates: seq<Candidate>, order: seq<ModelRef>): seq<Candidate> {
    if candidates == [] then []
    else InsertByRank(StaticOrder(candidates[..|candidates| - 1], order), candidates[|candidates| - 1], order)
  }

  lemma {:induction false} InsertAddsOne(s: seq<Candidate>, c: Candidate, order: seq<ModelRef>)
    ensures forall x :: x in InsertByRank(s, c, order) <==> x in s || x == c
  {
    if s != [] && Rank(order, s[|s| - 1].ref) > Rank(order, c.ref) {
      var n := |s| - 1;
      InsertAddsOne(s[..n], c, order);
      assert s == s[..n] + [s[n]];
    }
  }

  lemma {:induction false} InsertKeepsSorted(s: seq<Candidate>, c: Candidate, order: seq<ModelRef>)
    requires RankSorted(s, order)
    ensures RankSorted(InsertByRank(s, c, order), order)
  {
    if s != [] && Rank(order, s[|s| - 1].ref) > Rank(order, c.ref) {
      var n := |s| - 1;
      InsertKeepsSorted(s[..n], c, order);
      InsertAddsOne(s[..n], c, order);
      AppendKeepsSorted(InsertByRank(s[..n], c, order), s[n], order);
    } else {
      AppendKeepsSorted(s, c, order);
    }
  }

  lemma AppendKeepsSorted(s: seq<Candidate>, c: Candidate, order: seq<ModelRef>)
    requires RankSorted(s, order)
    requires forall x :: x in s ==> Rank(order, x.ref) <= Rank(order, c.ref)
    ensures RankSorted(s + [c], order)
  {
  }

  lemma {:induction false} InsertIsStable(s: seq<Candidate>, c: Candidate, order: seq<ModelRef>, r: nat)
    requires RankSorted(s, order)
    ensures WithRank(InsertByRank(s, c, order), order, r)
         == WithRank(s, order, r) + if Rank(order, c.ref) == r then [c] else []
  {
    if s == [] || Rank(order, s[|s| - 1].ref) <= Rank(order, c.ref) {
      assert (s + [c])[..|s|] == s;
    } else {
      var n := |s| - 1;
      var shorter := InsertByRank(s[..n], c, order);
      InsertIsStable(s[..n], c, order, r);
      assert (shorter + [s[n]])[..|shorter|] == shorter;
    }
  }

  /** The static order is the stable sort by rank, so a permutation of the candidates. */
  lemma {:induction false} StaticOrderIsStable(candidates: seq<Candidate>, order: seq<ModelRef>)
    ensures StablyOrdered(candidates, StaticOrder(candidates, order), order)
    ensures forall c :: c in StaticOrder(candidates, order) <==> c in candidates
  {
    if candidates != [] {
      var n := |candidates| - 1;
      var shorter := StaticOrder(candidates[..n], order);
      StaticOrderIsStable(candidates[..n], order);
      InsertKeepsSorted(shorter, candidates[n], order);
      InsertAddsOne(shorter, candidates[n], order);
      forall r: nat ensures WithRank(StaticOrder(candidates, order), order, r) == WithRank(candidates, order, r) {
        InsertIsStable(shorter, candidates[n], order, r);
      }
      assert candidates == candidates[..n] + [candidates[n]];
    }
  }

  lemma RankOfLast(s: seq<Candidate>, order: seq<ModelRef>)
    ensures s != [] ==>
              var r := Rank(order, s[|s| - 1].ref);
              WithRank(s, order, r) == WithRank(s[..|s| - 1], order, r) + [s[|s| - 1]]
  {
  }

  /** Equal rank by rank means equal last elements. */
  lemma {:induction false} SameLast(a: seq<Candidate>, b: seq<Candidate>, order: seq<ModelRef>)
    requires a != [] && b != [] && RankSorted(a, order) && RankSorted(b, order)
    requires forall r: nat :: WithRank(a, order, r) == WithRank(b, order, r)
    ensures a[|a| - 1] == b[|b| - 1]
  {
    LastHasTheLargestRank(a, b, order);
    LastHasTheLargestRank(b, a, order);
    var r := Rank(order, a[|a| - 1].ref);
    var all := WithRank(a, order, r);
    assert all[|all| - 1] == a[|a| - 1] && all[|all| - 1] == b[|b| - 1];
  }

  lemma SameWithoutLast(a: seq<Candidate>, b: seq<Candidate>, order: seq<ModelRef>, q: nat)
    requires a != [] && b != [] && a[|a| - 1] == b[|b| - 1]
    requires WithRank(a, order, q) == WithRank(b, order, q)
    ensures WithRank(a[..|a| - 1], order, q) == WithRank(b[..|b| - 1], order, q)
  {
    var x := a[|a| - 1];
    var p, p' := WithRank(a[..|a| - 1], order, q), WithRank(b[..|b| - 1], order, q);
    if Rank(order, x.ref) == q {
      assert WithRank(a, order, q) == p + [x];
      assert WithRank(b, order, q) == p' + [x];
      CancelLast(p, p', x);
    }
  }

  lemma CancelLast(p: seq<Candidate>, p': seq<Candidate>, x: Candidate)
    requires p + [x] == p' + [x]
    ensures p == p'
  {
    assert |p + [x]| == |p| + 1 && |p' + [x]| == |p'| + 1;
    assert (p + [x])[..|p|] == p && (p' + [x])[..|p|] == p';
  }

  /** Rank order and stability leave only one possible result. */
  lemma {:induction false} StableOrderIsUnique(a: seq<Candidate>, b: seq<Candidate>, order: seq<ModelRef>)
    requires RankSorted(a, order) && RankSorted(b, order)
    requires forall r: nat :: WithRank(a, order, r) == WithRank(b, order, r)
    ensures a == b
  {
    RankOfLast(a, order);
    RankOfLast(b, order);
    if a != [] && b != [] {
      SameLast(a, b, order);
      var shorter, other := a[..|a| - 1], b[..|b| - 1];
      forall q: nat ensures WithRank(shorter, order, q) == WithRank(other, order, q) {
        SameWithoutLast(a, b, order, q);
      }
      StableOrderIsUnique(shorter, other, order);
      assert a == shorter + [a[|a| - 1]] && b == other + [b[|b| - 1]];
    }
  }

  lemma {:induction false} RankMember(s: seq<Candidate>, order: seq<ModelRef>, r: nat, c: Candidate)
    ensures c in WithRank(s, order, r) <==> c in s && Rank(order, c.ref) == r
  {
    if s != [] {
      RankMember(s[..|s| - 1], order, r, c);
      assert s == s[..|s| - 1] + [s[|s| - 1]];
    }
  }

  lemma SameRankMember(a: seq<Candidate>, b: seq<Candidate>, order: seq<ModelRef>, r: nat, x: Candidate)
    requires x in a && Rank(order, x.ref) == r && WithRank(a, order, r) == WithRank(b, order, r)
    ensures x in b
  {
    RankMember(a, order, r, x);
    RankMember(b, order, r, x);
  }

  lemma {:induction false} LastHasTheLargestRank(a: seq<Candidate>, b: seq<Candidate>, order: seq<ModelRef>)
    requires a != [] && b != [] && RankSorted(b, order)
    requires forall r: nat :: WithRank(a, order, r) == WithRank(b, order, r)
    ensures Rank(order, a[|a| - 1].ref) <= Rank(order, b[|b| - 1].ref)
  {
    var x := a[|a| - 1];
    SameRankMember(a, b, order, Rank(order, x.ref), x);
    var i :| 0 <= i < |b| && b[i] == x;
  }

  /** `orderByStatic`: split off the mentioned refs, sort them by position, put the rest behind. */
  method OrderByStatic(candidates: seq<Candidate>, order: seq<ModelRef>) returns (out: seq<Candidate>)
    ensures out == StaticOrder(candidates, order)
    ensures StablyOrdered(candidates, out, order)
  {
    var pinned: seq<Candidate>, rest: seq<Candidate> := [], [];
    for i := 0 to |candidates|
      invariant forall c :: c in pinned ==> Rank(order, c.ref) < |order|
      invariant forall c :: c in rest ==> Rank(order, c.ref) == |order|
      invariant forall r: nat :: r < |order| ==> WithRank(pinned, order, r) == WithRank(candidates[..i], order, r)
      invariant rest == WithRank(candidates[..i], order, |order|)
    {
      assert candidates[..i + 1] == candidates[..i] + [candidates[i]];
      WithOneMore(candidates[..i], candidates[i], order);
      if Rank(order, candidates[i].ref) < |order| {
        WithOneMore(pinned, candidates[i], order);
        pinned := pinned + [candidates[i]];
      } else {
        rest := rest + [candidates[i]];
      }
    }
    assert candidates[..|candidates|] == candidates;
    var sorted := SortByRank(pinned, order);
    out := sorted + rest;
    JoinIsStaticOrder(candidates, pinned, rest, order);
    StaticOrderIsStable(candidates, order);
  }

  lemma JoinAtRank(candidates: seq<Candidate>, sorted: seq<Candidate>, rest: seq<Candidate>, order: seq<ModelRef>, r: nat)
    requires forall c :: c in sorted ==> Rank(order, c.ref) < |order|
    requires forall c :: c in rest ==> Rank(order, c.ref) == |order|
    requires r < |order| ==> WithRank(sorted, order, r) == WithRank(candidates, order, r)
    requires rest == WithRank(candidates, order, |order|)
    ensures WithRank(sorted + rest, order, r) == WithRank(candidates, order, r)
  {
    RanksOfJoin(sorted, rest, order, r);
    NoSuchRank(sorted, order, r);
    AllOfOneRank(rest, order, r);
    RanksBelowTheCount(candidates, order, r);
  }

  lemma JoinIsStaticOrder(candidates: seq<Candidate>, pinned: seq<Candidate>, rest: seq<Candidate>, order: seq<ModelRef>)
    requires forall c :: c in pinned ==> Rank(order, c.ref) < |order|
    requires forall c :: c in rest ==> Rank(order, c.ref) == |order|
    requires forall r: nat :: r < |order| ==> WithRank(pinned, order, r) == WithRank(candidates, order, r)
    requires rest == WithRank(candidates, order, |order|)
    ensures StaticOrder(pinned, order) + rest == StaticOrder(candidates, order)
  {
    var sorted, all := StaticOrder(pinned, order), StaticOrder(candidates, order);
    StaticOrderIsStable(pinned, order);
    StaticOrderIsStable(candidates, order);
    forall r: nat ensures WithRank(sorted + rest, order, r) == WithRank(all, order, r) {
      JoinAtRank(candidates, sorted, rest, order, r);
    }
    StableOrderIsUnique(sorted + rest, all, order);
  }

  method SortByRank(s: seq<Candidate>, order: seq<ModelRef>) returns (out: seq<Candidate>)
    ensures out == StaticOrder(s, order)
  {
    out := [];
    for i := 0 to |s|
      invariant out == StaticOrder(s[..i], order)
    {
      assert s[..i + 1][..i] == s[..i];
      out := InsertByRank(out, s[i], order);
    }
    assert s[..|s|] == s;
  }

  lemma {:induction false} RanksOfJoin(a: seq<Candidate>, b: seq<Candidate>, order: seq<ModelRef>, r: nat)
    ensures WithRank(a + b, order, r) == WithRank(a, order, r) + WithRank(b, order, r)
  {
    if b == [] {
      assert a + b == a;
    } else {
      var n := |b| - 1;
      RanksOfJoin(a, b[..n], order, r);
      assert (a + b)[..|a + b| - 1] == a + b[..n];
      assert WithRank(a + b, order, r) == WithRank(a + b[..n], order, r) + if Rank(order, b[n].ref) == r then [b[n]] else [];
    }
  }

  lemma {:induction false} NoSuchRank(s: seq<Candidate>, order: seq<ModelRef>, r: nat)
    requires forall c :: c in s ==> Rank(order, c.ref) < |order|
    ensures r >= |order| ==> WithRank(s, order, r) == []
  {
    if s != [] {
      NoSuchRank(s[..|s| - 1], order, r);
    }
  }

  lemma {:induction false} AllOfOneRank(s: seq<Candidate>, order: seq<ModelRef>, r: nat)
    requires forall c :: c in s ==> Rank(order, c.ref) == |order|
    ensures WithRank(s, order, r) == if r == |order| then s else []
  {
    if s != [] {
      AllOfOneRank(s[..|s| - 1], order, r);
      assert s == s[..|s| - 1] + [s[|s| - 1]];
    }
  }

  lemma {:induction false} RanksBelowTheCount(s: seq<Candidate>, order: seq<ModelRef>, r: nat)
    ensures r > |order| ==> WithRank(s, order, r) == []
  {
    if s != [] {
      RanksBelowTheCount(s[..|s| - 1], order, r);
    }
  }

  // ----- policy -----

  datatype Allowlist = Allowlist(providers: seq<string>, models: seq<ModelRef>)

  /** Everything before the first slash; the whole ref when there is none. */
  function ProviderOf(ref: ModelRef): (p: string)
    ensures p <= ref && '/' !in p
    ensures |p| < |ref| ==> ref[|p|] == '/'
  {
    if ref == [] || ref[0] == '/' then [] else [ref[0]] + ProviderOf(ref[1..])
  }

  predicate InAllowlist(ref: ModelRef, allow: Allowlist) {
    && (|allow.providers| == 0 || ProviderOf(ref) in allow.providers)
    && (|allow.models| == 0 || ref in allow.models)
  }

  datatype Rejection = NotInAllowlist | NotEligible | BudgetUnavailable

  type BudgetCheck = Option<ModelRef -> bool>

  predicate InBudget(ref: ModelRef, budget: BudgetCheck) {
    budget.None? || budget.value(ref)
  }

  function Enforce(ref: ModelRef, eligible: set<ModelRef>, allow: Allowlist, budget: BudgetCheck): Option<Rejection> {
    if !InAllowlist(ref, allow) then Some(NotInAllowlist)
    else if ref !in eligible then Some(NotEligible)
    else if !InBudget(ref, budget) then Some(BudgetUnavailable)
    else None
  }

  function Refs(candidates: seq<Candidate>): set<ModelRef> {
    set c | c in candidates :: c.ref
  }

  predicate Passes(c: Candidate, eligible: set<ModelRef>, allow: Allowlist, budget: BudgetCheck) {
    Enforce(c.ref, eligible, allow, budget).None?
  }

  ghost predicate IsFirstPassing(order: seq<Candidate>, c: Candidate, eligible: set<ModelRef>, allow: Allowlist, budget: BudgetCheck) {
    && Passes(c, eligible, allow, budget)
    && exists i :: 0 <= i < |order| && order[i] == c
                   && (forall j :: 0 <= j < i ==> !Passes(order[j], eligible, allow, budget))
  }

  function FirstPassing(order: seq<Candidate>, eligible: set<ModelRef>, allow: Allowlist, budget: BudgetCheck): (r: Option<Candidate>)
    ensures r.None? <==> forall c :: c in order ==> !Passes(c, eligible, allow, budget)
    ensures r.Some? ==> IsFirstPassing(order, r.value, eligible, allow, budget)
  {
    if order == [] then None
    else if Passes(order[0], eligible, allow, budget) then Some(order[0])
    else
      var r := FirstPassing(order[1..], eligible, allow, budget);
      assert forall c :: c in order <==> c == order[0] || c in order[1..];
      assert r.Some? ==> IsFirstPassing(order, r.value, eligible, allow, budget) by {
        if r.Some? {
          var i :| 0 <= i < |order[1..]| && order[1..][i] == r.value
                   && forall j :: 0 <= j < i ==> !Passes(order[1..][j], eligible, allow, budget);
          assert order[i + 1] == r.value;
          assert forall j :: 0 <= j < i + 1 ==> j == 0 || order[j] == order[1..][j - 1];
        }
      }
      r
  }

  /** Walk the list; every candidate passed over is recorded with the reason policy rejected it. */
  method FirstPolicyPassing(order: seq<Candidate>, eligible: set<ModelRef>, allow: Allowlist, budget: BudgetCheck)
    returns (r: Option<Candidate>, recorded: seq<(ModelRef, Rejection)>)
    ensures r == FirstPassing(order, eligible, allow, budget)
    ensures |recorded| <= |order| && (r.None? <==> |recorded| == |order|)
    ensures r.Some? ==> order[|recorded|] == r.value
    ensures forall j :: 0 <= j < |recorded| ==>
              recorded[j].0 == order[j].ref && Enforce(order[j].ref, eligible, allow, budget) == Some(recorded[j].1)
  {
    recorded := [];
    for i := 0 to |order|
      invariant |recorded| == i
      invariant forall j :: 0 <= j < i ==>
                  recorded[j].0 == order[j].ref && Enforce(order[j].ref, eligible, allow, budget) == Some(recorded[j].1)
      invariant FirstPassing(order, eligible, allow, budget) == FirstPassing(order[i..], eligible, allow, budget)
    {
      var check := Enforce(order[i].ref, eligible, allow, budget);
      assert order[i..][1..] == order[i + 1..];
      if check.None? {
        return Some(order[i]), recorded;
      }
      recorded := recorded + [(order[i].ref, check.value)];
    }
    return None, recorded;
  }

  /** The first candidate with this ref. */
  function Find(candidates: seq<Candidate>, ref: ModelRef): (r: Option<Candidate>)
    ensures r.Some? ==> r.value in candidates && r.value.ref == ref
    ensures r.None? <==> forall c :: c in candidates ==> c.ref != ref
  {
    if candidates == [] then None
    else if candidates[0].ref == ref then Some(candidates[0])
    else
      assert forall c :: c in candidates <==> c == candidates[0] || c in candidates[1..];
      Find(candidates[1..], ref)
  }

  // ----- selection -----

  /** Jev's answer about one candidate: did it find it adequate, and did it answer at all? */
  datatype Ranking = Ranking(adequate: bool, fellBack: bool)

  type Jev = nat -> Ranking

  datatype SelectionResult =
    | Selected(requested: ModelRef, used: ModelRef)
    | NothingAdequate
    | NothingPermitted

  function Adequate(candidates: seq<Candidate>, jev: Jev): (r: seq<Candidate>)
    ensures forall c :: c in r <==> exists i :: 0 <= i < |candidates| && candidates[i] == c && jev(i).adequate
  {
    if candidates == [] then []
    else
      var n := |candidates| - 1;
      var r := Adequate(candidates[..n], jev) + if jev(n).adequate then [candidates[n]] else [];
      assert forall c :: c in r <==> exists i :: 0 <= i < |candidates| && candidates[i] == c && jev(i).adequate by {
        forall c ensures c in r <==> exists i :: 0 <= i < |candidates| && candidates[i] == c && jev(i).adequate {
          if c in Adequate(candidates[..n], jev) {
            var i :| 0 <= i < n && candidates[..n][i] == c && jev(i).adequate;
            assert candidates[i] == c;
          }
          if i :| 0 <= i < |candidates| && candidates[i] == c && jev(i).adequate {
            assert i < n ==> candidates[..n][i] == c;
          }
        }
      }
      r
  }

  predicate AllFellBack(candidates: seq<Candidate>, jev: Jev) {
    forall i :: 0 <= i < |candidates| ==> jev(i).fellBack
  }

  predicate StaticPath(candidates: seq<Candidate>, jev: Option<Jev>) {
    jev.None? || candidates == [] || AllFellBack(candidates, jev.value)
  }

  function SelectFrom(order: seq<Candidate>, eligible: set<ModelRef>, allow: Allowlist, budget: BudgetCheck,
                      nothing: SelectionResult): SelectionResult
  {
    if order == [] then nothing
    else
      var used := FirstPassing(order, eligible, allow, budget);
      if used.None? then nothing else Selected(order[0].ref, used.value.ref)
  }

  /** `selectModel` with no pin: Jev's adequate candidates in the order asked, or the static order. */
  function SelectModel(jev: Option<Jev>, candidates: seq<Candidate>, allow: Allowlist, order: seq<ModelRef>,
                       budget: BudgetCheck): SelectionResult
  {
    if StaticPath(candidates, jev)
    then SelectFrom(StaticOrder(candidates, order), Refs(candidates), allow, budget, NothingPermitted)
    else SelectFrom(Adequate(candidates, jev.value), Refs(candidates), allow, budget, NothingAdequate)
  }

  /** `runStatic` as the code runs it: sort, then walk the sorted list. */
  method RunStatic(candidates: seq<Candidate>, allow: Allowlist, order: seq<ModelRef>, budget: BudgetCheck)
    returns (r: SelectionResult)
    ensures r == SelectModel(None, candidates, allow, order, budget)
  {
    var ordered := OrderByStatic(candidates, order);
    if ordered == [] {
      return NothingPermitted;
    }
    var used, _ := FirstPolicyPassing(ordered, Refs(candidates), allow, budget);
    if used.None? {
      return NothingPermitted;
    }
    return Selected(ordered[0].ref, used.value.ref);
  }

  /** Policy in its own terms: the lists apply when they are not empty, a provider being what stands before the first slash. */
  predicate Allowed(ref: ModelRef, allow: Allowlist, budget: BudgetCheck) {
    && (allow.models != [] ==> ref in allow.models)
    && (allow.providers != [] ==> exists p :: p in allow.providers && '/' !in p && (ref == p || p + "/" <= ref))
    && (budget.Some? ==> budget.value(ref))
  }

  lemma {:induction false} ProviderIs(ref: ModelRef, p: string)
    requires '/' !in p && (ref == p || p + "/" <= ref)
    ensures ProviderOf(ref) == p
  {
    if p != [] {
      assert ref[0] == p[0] && p[0] in p;
      assert ref == p || p[1..] + "/" <= ref[1..];
      ProviderIs(ref[1..], p[1..]);
    }
  }

  /** Of the offered models policy lets through exactly those that are allowed. */
  lemma PassesExactly(c: Candidate, eligible: set<ModelRef>, allow: Allowlist, budget: BudgetCheck)
    ensures Passes(c, eligible, allow, budget) <==> c.ref in eligible && Allowed(c.ref, allow, budget)
  {
    var provider := ProviderOf(c.ref);
    assert provider == c.ref || provider + "/" <= c.ref;
    if p :| p in allow.providers && '/' !in p && (c.ref == p || p + "/" <= c.ref) {
      ProviderIs(c.ref, p);
    }
  }

  /** Why a model is rejected: the lists come first, then whether it is offered, then the budget. */
  lemma RejectionIsTheFirst(ref: ModelRef, eligible: set<ModelRef>, allow: Allowlist, budget: BudgetCheck)
    ensures var why := Enforce(ref, eligible, allow, budget);
            && (why == Some(NotInAllowlist) <==> !Allowed(ref, allow, None))
            && (why == Some(NotEligible) <==> Allowed(ref, allow, None) && ref !in eligible)
            && (why == Some(BudgetUnavailable) <==>
                  Allowed(ref, allow, None) && ref in eligible && budget.Some? && !budget.value(ref))
  {
    PassesExactly(Candidate(ref, ""), eligible + {ref}, allow, None);
  }

  /** Whatever Jev answers, what is selected is offered and allowed. */
  lemma SelectionIsPermitted(jev: Option<Jev>, candidates: seq<Candidate>, allow: Allowlist, order: seq<ModelRef>, budget: BudgetCheck)
    requires SelectModel(jev, candidates, allow, order, budget).Selected?
    ensures var used := SelectModel(jev, candidates, allow, order, budget).used;
            && (exists c :: c in candidates && c.ref == used) && Allowed(used, allow, budget)
            && InAllowlist(used, allow) && InBudget(used, budget)
  {
    var used := SelectModel(jev, candidates, allow, order, budget).used;
    var c :| c in candidates && c.ref == used;
    PassesExactly(c, Refs(candidates), allow, budget);
  }

  /** Without Jev something is selected exactly when some candidate passes policy, and it is the first of the static order. */
  lemma StaticSelectionIsComplete(jev: Option<Jev>, candidates: seq<Candidate>, allow: Allowlist, order: seq<ModelRef>, budget: BudgetCheck)
    requires jev.None? || forall i :: 0 <= i < |candidates| ==> jev.value(i).fellBack
    ensures var r := SelectModel(jev, candidates, allow, order, budget);
            var sorted := StaticOrder(candidates, order);
            && (r.Selected? <==> exists c :: c in candidates && Passes(c, Refs(candidates), allow, budget))
            && (!r.Selected? ==> r == NothingPermitted)
            && (r.Selected? ==> sorted != [] && r.requested == sorted[0].ref)
            && (r.Selected? ==> exists c :: IsFirstPassing(sorted, c, Refs(candidates), allow, budget) && c.ref == r.used)
  {
    StaticOrderIsStable(candidates, order);
    var used := FirstPassing(StaticOrder(candidates, order), Refs(candidates), allow, budget);
    assert used.Some? ==> IsFirstPassing(StaticOrder(candidates, order), used.value, Refs(candidates), allow, budget);
  }

  lemma {:induction false} FirstPassingOfMore(a: seq<Candidate>, c: Candidate, eligible: set<ModelRef>, allow: Allowlist, budget: BudgetCheck)
    ensures FirstPassing(a + [c], eligible, allow, budget)
         == var r := FirstPassing(a, eligible, allow, budget);
            if r.Some? then r else if Passes(c, eligible, allow, budget) then Some(c) else None
  {
    if a == [] {
      assert a + [c] == [c];
    } else {
      FirstPassingOfMore(a[1..], c, eligible, allow, budget);
      assert (a + [c])[1..] == a[1..] + [c];
    }
  }

  /** Candidate `i` is adequate and passes, and no candidate asked before it is both. */
  ghost predicate FirstAdequatePassing(candidates: seq<Candidate>, jev: Jev, i: nat, eligible: set<ModelRef>, allow: Allowlist, budget: BudgetCheck) {
    && i < |candidates| && jev(i).adequate && Passes(candidates[i], eligible, allow, budget)
    && forall j :: 0 <= j < i && jev(j).adequate ==> !Passes(candidates[j], eligible, allow, budget)
  }

  /** Candidate `i` is the first Jev found adequate. */
  ghost predicate FirstAdequate(candidates: seq<Candidate>, jev: Jev, i: nat) {
    i < |candidates| && jev(i).adequate && forall j :: 0 <= j < i ==> !jev(j).adequate
  }

  lemma {:induction false} HeadOfAdequate(candidates: seq<Candidate>, jev: Jev) returns (i: nat)
    requires Adequate(candidates, jev) != []
    ensures FirstAdequate(candidates, jev, i) && candidates[i] == Adequate(candidates, jev)[0]
  {
    var n := |candidates| - 1;
    if Adequate(candidates[..n], jev) != [] {
      i := HeadOfAdequate(candidates[..n], jev);
    } else {
      NoneAdequateBefore(candidates, jev, n);
      i := n;
    }
  }

  lemma AdequateOfOneMore(candidates: seq<Candidate>, jev: Jev)
    requires candidates != []
    ensures var n := |candidates| - 1;
            Adequate(candidates, jev) == Adequate(candidates[..n], jev) + if jev(n).adequate then [candidates[n]] else []
  {
  }

  /** Appending at most one candidate changes the first to pass only where there was none. */
  lemma PassingOfOneMore(earlier: seq<Candidate>, all: seq<Candidate>, c: Candidate, more: bool, eligible: set<ModelRef>,
                         allow: Allowlist, budget: BudgetCheck)
    requires all == earlier + if more then [c] else []
    requires FirstPassing(all, eligible, allow, budget).Some?
    ensures var r := FirstPassing(earlier, eligible, allow, budget);
            && (r.Some? ==> FirstPassing(all, eligible, allow, budget) == r)
            && (r.None? ==> more && Passes(c, eligible, allow, budget) && FirstPassing(all, eligible, allow, budget) == Some(c))
  {
    if more {
      FirstPassingOfMore(earlier, c, eligible, allow, budget);
    } else {
      assert all == earlier;
    }
  }

  lemma {:induction false} WalkOfAdequate(candidates: seq<Candidate>, jev: Jev, eligible: set<ModelRef>, allow: Allowlist, budget: BudgetCheck)
      returns (i: nat)
    requires candidates != [] && FirstPassing(Adequate(candidates, jev), eligible, allow, budget).Some?
    ensures FirstAdequatePassing(candidates, jev, i, eligible, allow, budget)
    ensures candidates[i] == FirstPassing(Adequate(candidates, jev), eligible, allow, budget).value
  {
    var n := |candidates| - 1;
    AdequateOfOneMore(candidates, jev);
    PassingOfOneMore(Adequate(candidates[..n], jev), Adequate(candidates, jev), candidates[n], jev(n).adequate, eligible, allow, budget);
    if FirstPassing(Adequate(candidates[..n], jev), eligible, allow, budget).Some? {
      i := WalkOfAdequate(candidates[..n], jev, eligible, allow, budget);
    } else {
      NonePassedBefore(candidates, jev, n, eligible, allow, budget);
      i := n;
    }
  }

  lemma NoneAdequateBefore(candidates: seq<Candidate>, jev: Jev, n: nat)
    requires n <= |candidates| && Adequate(candidates[..n], jev) == []
    ensures forall j :: 0 <= j < n ==> !jev(j).adequate
  {
    forall j | 0 <= j < n ensures !jev(j).adequate {
      assert candidates[..n][j] !in Adequate(candidates[..n], jev);
    }
  }

  lemma NonePassedBefore(candidates: seq<Candidate>, jev: Jev, n: nat, eligible: set<ModelRef>, allow: Allowlist, budget: BudgetCheck)
    requires n <= |candidates| && FirstPassing(Adequate(candidates[..n], jev), eligible, allow, budget).None?
    ensures forall j :: 0 <= j < n && jev(j).adequate ==> !Passes(candidates[j], eligible, allow, budget)
  {
    forall j | 0 <= j < n && jev(j).adequate ensures !Passes(candidates[j], eligible, allow, budget) {
      assert candidates[..n][j] in Adequate(candidates[..n], jev);
    }
  }

  /**
   With Jev something is selected exactly when some candidate it found adequate passes
   policy: the first such, in the order asked, while the one asked for is the first adequate.
   */
  lemma JevSelectionIsComplete(jev: Jev, candidates: seq<Candidate>, allow: Allowlist, order: seq<ModelRef>, budget: BudgetCheck)
    requires exists i :: 0 <= i < |candidates| && !jev(i).fellBack
    ensures var r := SelectModel(Some(jev), candidates, allow, order, budget);
            && (r.Selected? <==> exists i :: 0 <= i < |candidates| && jev(i).adequate
                                             && Passes(candidates[i], Refs(candidates), allow, budget))
            && (!r.Selected? ==> r == NothingAdequate)
            && (r.Selected? ==> exists i: nat :: FirstAdequatePassing(candidates, jev, i, Refs(candidates), allow, budget) && candidates[i].ref == r.used)
            && (r.Selected? ==> exists i: nat :: FirstAdequate(candidates, jev, i) && candidates[i].ref == r.requested)
  {
    var adequate := Adequate(candidates, jev);
    forall i | 0 <= i < |candidates| && jev(i).adequate ensures candidates[i] in adequate {}
    if FirstPassing(adequate, Refs(candidates), allow, budget).Some? {
      var i := WalkOfAdequate(candidates, jev, Refs(candidates), allow, budget);
      var j := HeadOfAdequate(candidates, jev);
    }
  }

  // ----- the first to pass, within one rank -----

  lemma RankOfCons(c: Candidate, s: seq<Candidate>, order: seq<ModelRef>, r: nat)
    ensures WithRank([c] + s, order, r) == (if Rank(order, c.ref) == r then [c] else []) + WithRank(s, order, r)
  {
    RanksOfJoin([c], s, order, r);
    assert WithRank([c], order, r) == if Rank(order, c.ref) == r then [c] else [];
  }

  lemma {:induction false} FirstPassingOfJoin(a: seq<Candidate>, b: seq<Candidate>, eligible: set<ModelRef>, allow: Allowlist, budget: BudgetCheck)
    ensures var r := FirstPassing(a, eligible, allow, budget);
            FirstPassing(a + b, eligible, allow, budget) == if r.Some? then r else FirstPassing(b, eligible, allow, budget)
  {
    if a == [] {
      assert a + b == b;
    } else {
      assert (a + b)[0] == a[0] && (a + b)[1..] == a[1..] + b;
      if !Passes(a[0], eligible, allow, budget) {
        FirstPassingOfJoin(a[1..], b, eligible, allow, budget);
      }
    }
  }

  /** The first to pass is also the first to pass among those of its rank. */
  lemma {:induction false} FirstPassingOfItsRank(s: seq<Candidate>, order: seq<ModelRef>, eligible: set<ModelRef>, allow: Allowlist, budget: BudgetCheck)
    requires FirstPassing(s, eligible, allow, budget).Some?
    ensures var c := FirstPassing(s, eligible, allow, budget).value;
            FirstPassing(WithRank(s, order, Rank(order, c.ref)), eligible, allow, budget) == Some(c)
  {
    var r := Rank(order, FirstPassing(s, eligible, allow, budget).value.ref);
    assert s == [s[0]] + s[1..];
    RankOfCons(s[0], s[1..], order, r);
    FirstPassingOfJoin(if Rank(order, s[0].ref) == r then [s[0]] else [], WithRank(s[1..], order, r), eligible, allow, budget);
    FirstPassingOfNone(eligible, allow, budget);
    if !Passes(s[0], eligible, allow, budget) {
      FirstPassingOfItsRank(s[1..], order, eligible, allow, budget);
    }
  }

  lemma FirstPassingOfNone(eligible: set<ModelRef>, allow: Allowlist, budget: BudgetCheck)
    ensures FirstPassing([], eligible, allow, budget).None?
  {
  }

  /** In an order sorted by rank nothing that passes ranks before the first to pass. */
  lemma {:induction false} NothingPassingRanksBefore(sorted: seq<Candidate>, order: seq<ModelRef>, d: Candidate, eligible: set<ModelRef>, allow: Allowlist, budget: BudgetCheck)
    requires RankSorted(sorted, order) && d in sorted && Passes(d, eligible, allow, budget)
    ensures var c := FirstPassing(sorted, eligible, allow, budget);
            c.Some? && Rank(order, c.value.ref) <= Rank(order, d.ref)
  {
    var k :| 0 <= k < |sorted| && sorted[k] == d;
    if Passes(sorted[0], eligible, allow, budget) {
      assert Rank(order, sorted[0].ref) <= Rank(order, sorted[k].ref);
    } else {
      assert d == sorted[1..][k - 1];
      NothingPassingRanksBefore(sorted[1..], order, d, eligible, allow, budget);
    }
  }
}
