/**
 Usage per route, read back from the ledger's closing rows, and the merging of several
 usages into one. Unknown cost stays unknown: it is counted apart and never as a sum of money.
 */
module UsageReport {
  import opened LedgerLog
  import opened Prelude

  // ----- which rows count for which route -----

  const PREFIX := "route:"

  function RouteOf(text: Option<string>): Option<string> {
    if text.None? || !(PREFIX <= text.value) then None
    else
      var id := text.value[|PREFIX|..];
      if id == "" then None else Some(id)
  }

  predicate Closing(e: Entry) {
    e.kind.Settlement? || e.kind.Abandonment?
  }

  predicate Charged(e: Entry, route: string) {
    Closing(e) && RouteOf(e.labelText) == Some(route)
  }

  predicate Priced(u: Usage) {
    !u.costBasis.Unknown? && u.spendUsd.Some?
  }

  function OrZero(n: Option<int>): int {
    if n.Some? then n.value else 0
  }

  // ----- accumulating -----

  datatype Tally = Tally(
    inputTokens: int, outputTokens: int, requests: int,
    spendUsd: Option<real>, unknownCostRequests: int, estimatedSpendUsd: real, knownSpendUsd: real)

  const NOTHING := Tally(0, 0, 0, None, 0, 0.0, 0.0)

  function Plus(t: Tally, u: Usage): Tally {
    var t' := t.(inputTokens := t.inputTokens + OrZero(u.inputTokens),
                 outputTokens := t.outputTokens + OrZero(u.outputTokens),
                 requests := t.requests + u.requests);
    if !Priced(u) then t'.(unknownCostRequests := t.unknownCostRequests + u.requests)
    else
      var t'' := t'.(spendUsd := Some((if t.spendUsd.Some? then t.spendUsd.value else 0.0) + u.spendUsd.value));
      if u.costBasis.Estimated? then t''.(estimatedSpendUsd := t.estimatedSpendUsd + u.spendUsd.value)
      else t''.(knownSpendUsd := t.knownSpendUsd + u.spendUsd.value)
  }

  function TallyOf(usages: seq<Usage>): Tally {
    if usages == [] then NOTHING else Plus(TallyOf(usages[..|usages| - 1]), usages[|usages| - 1])
  }

  /** The usages of the rows charged to a route, in order. */
  function UsagesOf(entries: Log, route: string): seq<Usage> {
    if entries == [] then []
    else
      var before, last := UsagesOf(entries[..|entries| - 1], route), entries[|entries| - 1];
      if Charged(last, route) then before + [last.usage] else before
  }

  class RouteUsage {
    var inputTokens: int
    var outputTokens: int
    var requests: int
    var spendUsd: Option<real>
    var unknownCostRequests: int
    var estimatedSpendUsd: real
    var knownSpendUsd: real

    constructor ()
      ensures Value() == NOTHING
    {
      inputTokens, outputTokens, requests, unknownCostRequests := 0, 0, 0, 0;
      spendUsd, estimatedSpendUsd, knownSpendUsd := None, 0.0, 0.0;
    }

    function Value(): Tally
      reads this
    {
      Tally(inputTokens, outputTokens, requests, spendUsd, unknownCostRequests, estimatedSpendUsd, knownSpendUsd)
    }

    method AddUsage(usage: Usage)
      modifies this
      ensures Value() == Plus(old(Value()), usage)
    {
      inputTokens := inputTokens + OrZero(usage.inputTokens);
      outputTokens := outputTokens + OrZero(usage.outputTokens);
      requests := requests + usage.requests;
      if usage.costBasis.Unknown? || usage.spendUsd.None? {
        unknownCostRequests := unknownCostRequests + usage.requests;
        return;
      }
      spendUsd := Some((if spendUsd.Some? then spendUsd.value else 0.0) + usage.spendUsd.value);
      if usage.costBasis.Estimated? {
        estimatedSpendUsd := estimatedSpendUsd + usage.spendUsd.value;
      } else {
        knownSpendUsd := knownSpendUsd + usage.spendUsd.value;
      }
    }
  }

  /** One accumulator per charged route, holding the tally of its rows. */
  ghost predicate Reflects(acc: map<string, RouteUsage>, rows: Log)
    reads acc.Values
  {
    (forall r :: r in acc <==> UsagesOf(rows, r) != []) && Holds(acc, rows)
  }

  ghost predicate Separate(acc: map<string, RouteUsage>) {
    forall r, q :: r in acc && q in acc && r != q ==> acc[r] != acc[q]
  }

  ghost predicate Holds(acc: map<string, RouteUsage>, rows: Log)
    reads acc.Values
  {
    forall r :: r in acc ==> acc[r] in acc.Values && acc[r].Value() == TallyOf(UsagesOf(rows, r))
  }

  /** The accumulator of a route, made empty if it is not there yet. */
  method Ensure(acc: map<string, RouteUsage>, route: string, ghost rows: Log) returns (next: map<string, RouteUsage>)
    requires Reflects(acc, rows) && Separate(acc)
    ensures next.Keys == acc.Keys + {route} && Separate(next) && Holds(next, rows)
    ensures forall r :: r in next ==> (r in acc && next[r] == acc[r]) || fresh(next[r])
  {
    next := acc;
    if route !in acc {
      var created := new RouteUsage();
      next := acc[route := created];
      assert UsagesOf(rows, route) == [];
    }
  }

  method Charge(acc: map<string, RouteUsage>, route: string, usage: Usage, ghost before: Log, ghost entry: Entry)
      returns (next: map<string, RouteUsage>)
    requires Reflects(acc, before) && Separate(acc)
    requires Charged(entry, route) && usage == entry.usage
    modifies acc.Values
    ensures Reflects(next, before + [entry]) && Separate(next)
    ensures forall r :: r in next ==> (r in acc && next[r] == acc[r]) || fresh(next[r])
  {
    next := Ensure(acc, route, before);
    OneMoreRow(before, entry, before + [entry]);
    var current := next[route];
    assert forall r :: r in next && r != route ==> next[r] != current;
    current.AddUsage(usage);
  }

  /** `summariseUsageByRoute`: exactly the routes charged, each with the tally of its own rows. */
  method SummariseByRoute(entries: Log) returns (out: map<string, Tally>)
    ensures forall r :: r in out <==> UsagesOf(entries, r) != []
    ensures forall r :: r in out ==> out[r] == TallyOf(UsagesOf(entries, r))
  {
    var acc: map<string, RouteUsage> := map[];
    for i := 0 to |entries|
      invariant forall r :: r in acc ==> fresh(acc[r])
      invariant Separate(acc) && Reflects(acc, entries[..i])
    {
      var entry := entries[i];
      TakeOneMore(entries, i);
      if !Closing(entry) || RouteOf(entry.labelText).None? {
        UnroutedRow(entries[..i], entry);
        continue;
      }
      acc := Charge(acc, RouteOf(entry.labelText).value, entry.usage, entries[..i], entry);
    }
    assert entries[..|entries|] == entries;
    out := map r | r in acc :: acc[r].Value();
  }

  /** A row counts for a route exactly when it settles or abandons a call labelled with it; reservations and releases never do. */
  lemma RowsThatCount(before: Log, e: Entry, route: string)
    ensures UsagesOf(before + [e], route) == UsagesOf(before, route)
              + if (e.kind == Settlement || e.kind == Abandonment) && route != "" && e.labelText == Some("route:" + route)
                then [e.usage] else []
  {
    assert (before + [e])[..|before|] == before;
    if e.labelText.Some? {
      RouteLabelReadsBack(e.labelText.value, route);
    }
  }

  lemma UnroutedRow(before: Log, entry: Entry)
    requires !Closing(entry) || RouteOf(entry.labelText).None?
    ensures forall r :: UsagesOf(before + [entry], r) == UsagesOf(before, r)
  {
    assert (before + [entry])[..|before|] == before;
  }

  lemma OneMoreRow(before: Log, entry: Entry, after: Log)
    requires after == before + [entry] && Closing(entry) && RouteOf(entry.labelText).Some?
    ensures var route := RouteOf(entry.labelText).value;
            && UsagesOf(after, route) == UsagesOf(before, route) + [entry.usage]
            && TallyOf(UsagesOf(after, route)) == Plus(TallyOf(UsagesOf(before, route)), entry.usage)
            && forall r :: r != route ==> UsagesOf(after, r) == UsagesOf(before, r)
  {
    assert after[..|after| - 1] == before;
    var route := RouteOf(entry.labelText).value;
    var usages := UsagesOf(before, route);
    assert (usages + [entry.usage])[..|usages|] == usages;
  }

  // ----- merging -----

  /** `mergeUsage`. */
  method MergeUsage(usages: seq<Usage>) returns (merged: Usage)
    ensures merged == Merged(usages)
  {
    var inputTokens, outputTokens, requests := 0, 0, 0;
    var spend: Option<real> := None;
    var sawEstimate := false;
    for i := 0 to |usages|
      invariant inputTokens == TallyOf(usages[..i]).inputTokens && outputTokens == TallyOf(usages[..i]).outputTokens
      invariant requests == TallyOf(usages[..i]).requests && spend == TallyOf(usages[..i]).spendUsd
      invariant sawEstimate == SawEstimate(usages[..i])
    {
      assert usages[..i + 1][..i] == usages[..i];
      var usage := usages[i];
      inputTokens := inputTokens + OrZero(usage.inputTokens);
      outputTokens := outputTokens + OrZero(usage.outputTokens);
      requests := requests + usage.requests;
      if usage.costBasis.Unknown? || usage.spendUsd.None? {
        continue;
      }
      spend := Some((if spend.Some? then spend.value else 0.0) + usage.spendUsd.value);
      if usage.costBasis.Estimated? {
        sawEstimate := true;
      }
    }
    assert usages[..|usages|] == usages;
    if |usages| == 0 {
      return Usage(Some(0), Some(0), 0, None, Unknown);
    }
    if spend.None? {
      return Usage(Some(inputTokens), Some(outputTokens), requests, None, Unknown);
    }
    merged := Usage(Some(inputTokens), Some(outputTokens), requests, spend, if sawEstimate then Estimated else Known);
  }

  predicate SawEstimate(usages: seq<Usage>) {
    exists i :: 0 <= i < |usages| && Priced(usages[i]) && usages[i].costBasis.Estimated?
  }

  function BasisOf(usages: seq<Usage>): CostBasis {
    if TallyOf(usages).spendUsd.None? then Unknown else if SawEstimate(usages) then Estimated else Known
  }

  function Merged(usages: seq<Usage>): Usage {
    var t := TallyOf(usages);
    Usage(Some(t.inputTokens), Some(t.outputTokens), t.requests, t.spendUsd, BasisOf(usages))
  }

  /** A merge is priced exactly when some input is, and the money in it is exactly the priced money. */
  lemma {:induction false} UnknownCostIsNeverMoney(usages: seq<Usage>)
    ensures var t := TallyOf(usages);
            && (t.spendUsd.Some? <==> exists i :: 0 <= i < |usages| && Priced(usages[i]))
            && t.knownSpendUsd + t.estimatedSpendUsd == (if t.spendUsd.Some? then t.spendUsd.value else 0.0)
  {
    if usages != [] {
      UnknownCostIsNeverMoney(usages[..|usages| - 1]);
      assert forall i :: 0 <= i < |usages| - 1 ==> usages[..|usages| - 1][i] == usages[i];
    }
  }

  function SumInt(usages: seq<Usage>, f: Usage -> int): int {
    if usages == [] then 0 else SumInt(usages[..|usages| - 1], f) + f(usages[|usages| - 1])
  }

  function SumReal(usages: seq<Usage>, f: Usage -> real): real {
    if usages == [] then 0.0 else SumReal(usages[..|usages| - 1], f) + f(usages[|usages| - 1])
  }

  /** Each field of a tally is the total of its own kind: unpriced calls and estimated and known money are kept apart. */
  lemma {:induction false} FieldsAreTotals(usages: seq<Usage>)
    ensures var t := TallyOf(usages);
            && t.inputTokens == SumInt(usages, (u: Usage) => if u.inputTokens.Some? then u.inputTokens.value else 0)
            && t.outputTokens == SumInt(usages, (u: Usage) => if u.outputTokens.Some? then u.outputTokens.value else 0)
            && t.requests == SumInt(usages, (u: Usage) => u.requests)
            && t.unknownCostRequests == SumInt(usages, (u: Usage) => if u.costBasis.Unknown? || u.spendUsd.None? then u.requests else 0)
            && t.estimatedSpendUsd == SumReal(usages, (u: Usage) => if u.costBasis.Estimated? && u.spendUsd.Some? then u.spendUsd.value else 0.0)
            && t.knownSpendUsd == SumReal(usages, (u: Usage) => if u.costBasis.Known? && u.spendUsd.Some? then u.spendUsd.value else 0.0)
  {
    if usages != [] {
      FieldsAreTotals(usages[..|usages| - 1]);
    }
  }

  /** A merge adds tokens, calls and priced money; its cost is unknown if no input is priced, estimated if some priced one is. */
  lemma {:induction false} MergedMeans(usages: seq<Usage>)
    ensures var m := Merged(usages);
            && m.inputTokens == Some(SumInt(usages, (u: Usage) => if u.inputTokens.Some? then u.inputTokens.value else 0))
            && m.outputTokens == Some(SumInt(usages, (u: Usage) => if u.outputTokens.Some? then u.outputTokens.value else 0))
            && m.requests == SumInt(usages, (u: Usage) => u.requests)
            && (m.spendUsd.Some? ==>
                  m.spendUsd.value == SumReal(usages, (u: Usage) => if !u.costBasis.Unknown? && u.spendUsd.Some? then u.spendUsd.value else 0.0))
            && (m.spendUsd.None? <==> m.costBasis.Unknown?)
            && (m.costBasis.Unknown? <==> forall u :: u in usages ==> u.costBasis.Unknown? || u.spendUsd.None?)
            && (m.costBasis.Estimated? <==> exists u :: u in usages && u.costBasis.Estimated? && u.spendUsd.Some?)
  {
    FieldsAreTotals(usages);
    UnknownCostIsNeverMoney(usages);
    PricedMoney(usages);
  }

  lemma {:induction false} PricedMoney(usages: seq<Usage>)
    ensures var priced := (u: Usage) => if !u.costBasis.Unknown? && u.spendUsd.Some? then u.spendUsd.value else 0.0;
            TallyOf(usages).spendUsd.Some? ==> TallyOf(usages).spendUsd.value == SumReal(usages, priced)
    ensures var priced := (u: Usage) => if !u.costBasis.Unknown? && u.spendUsd.Some? then u.spendUsd.value else 0.0;
            TallyOf(usages).spendUsd.None? ==> SumReal(usages, priced) == 0.0
  {
    if usages != [] {
      PricedMoney(usages[..|usages| - 1]);
    }
  }

  /** A route's label reads back as the route, and nothing else does. */
  lemma RouteLabelReadsBack(text: string, id: string)
    ensures RouteOf(Some(text)) == Some(id) <==> id != "" && text == "route:" + id
    ensures RouteOf(None).None?
  {
    if text == "route:" + id {
      assert text[|PREFIX|..] == id;
    }
    if PREFIX <= text {
      assert text == PREFIX + text[|PREFIX|..];
    }
  }

  function Both(a: Option<real>, b: Option<real>): Option<real> {
    if a.None? then b else if b.None? then a else Some(a.value + b.value)
  }

  /** `t` has the tokens, calls and money of both. */
  predicate Combines(x: Tally, y: Tally, t: Tally) {
    && t.inputTokens == x.inputTokens + y.inputTokens && t.outputTokens == x.outputTokens + y.outputTokens
    && t.requests == x.requests + y.requests && t.spendUsd == Both(x.spendUsd, y.spendUsd)
  }

  lemma CombinesWithOneMore(x: Tally, y: Tally, t: Tally, u: Usage)
    requires Combines(x, y, t)
    ensures Combines(x, Plus(y, u), Plus(t, u))
  {
  }

  lemma {:induction false} TallyAppend(a: seq<Usage>, b: seq<Usage>)
    ensures Combines(TallyOf(a), TallyOf(b), TallyOf(a + b))
  {
    if b == [] {
      assert a + b == a;
    } else {
      var n := |b| - 1;
      assert (a + b)[..|a + b| - 1] == a + b[..n];
      TallyAppend(a, b[..n]);
      CombinesWithOneMore(TallyOf(a), TallyOf(b[..n]), TallyOf(a + b[..n]), b[n]);
    }
  }

  lemma SawEstimateAppend(a: seq<Usage>, b: seq<Usage>)
    ensures SawEstimate(a + b) <==> SawEstimate(a) || SawEstimate(b)
  {
    assert forall i :: 0 <= i < |a| ==> (a + b)[i] == a[i];
    assert forall i :: 0 <= i < |b| ==> (a + b)[|a| + i] == b[i];
  }

  lemma TallyOfTwo(x: Usage, y: Usage)
    ensures TallyOf([x, y]) == Plus(Plus(NOTHING, x), y)
  {
    assert [x][..0] == [];
    assert TallyOf([x]) == Plus(TallyOf([]), x);
    assert [x, y][..1] == [x];
  }

  lemma EstimateIsPriced(usages: seq<Usage>)
    ensures SawEstimate(usages) ==> TallyOf(usages).spendUsd.Some?
  {
  }

  /** Adding a merged usage adds all that was merged into it. */
  lemma PlusMerged(t: Tally, usages: seq<Usage>)
    ensures var t', x := Plus(t, Merged(usages)), TallyOf(usages);
            && t'.inputTokens == t.inputTokens + x.inputTokens && t'.outputTokens == t.outputTokens + x.outputTokens
            && t'.requests == t.requests + x.requests && t'.spendUsd == Both(t.spendUsd, x.spendUsd)
  {
  }

  lemma MergedEstimate(a: seq<Usage>, b: seq<Usage>)
    ensures SawEstimate([Merged(a), Merged(b)]) <==> SawEstimate(a) || SawEstimate(b)
  {
    EstimateIsPriced(a);
    EstimateIsPriced(b);
    var two := [Merged(a), Merged(b)];
    assert two[0] == Merged(a) && two[1] == Merged(b);
  }

  lemma SameMerge(a: seq<Usage>, b: seq<Usage>)
    requires var x, y := TallyOf(a), TallyOf(b);
             x.inputTokens == y.inputTokens && x.outputTokens == y.outputTokens && x.requests == y.requests && x.spendUsd == y.spendUsd
    requires SawEstimate(a) == SawEstimate(b)
    ensures Merged(a) == Merged(b)
  {
  }

  /** Merging in parts loses nothing: the merge of two merges is the merge of everything. */
  lemma MergeInParts(a: seq<Usage>, b: seq<Usage>)
    ensures Merged([Merged(a), Merged(b)]) == Merged(a + b)
  {
    TallyAppend(a, b);
    SawEstimateAppend(a, b);
    MergedEstimate(a, b);
    TallyOfTwo(Merged(a), Merged(b));
    PlusMerged(NOTHING, a);
    PlusMerged(Plus(NOTHING, Merged(a)), b);
    SameMerge([Merged(a), Merged(b)], a + b);
  }

  // ----- conservation across routes -----

  datatype Measure = Calls | TokensUsed | MoneyPriced

  function Measured(m: Measure, u: Usage): real {
    match m
    case Calls => u.requests as real
    case TokensUsed => (OrZero(u.inputTokens) + OrZero(u.outputTokens)) as real
    case MoneyPriced => if Priced(u) then u.spendUsd.value else 0.0
  }

  function TallyMeasure(m: Measure, t: Tally): real {
    match m
    case Calls => t.requests as real
    case TokensUsed => (t.inputTokens + t.outputTokens) as real
    case MoneyPriced => if t.spendUsd.Some? then t.spendUsd.value else 0.0
  }

  /** All rows charged to any route. */
  function RoutedTotal(m: Measure, entries: Log): real {
    if entries == [] then 0.0
    else
      var last := entries[|entries| - 1];
      RoutedTotal(m, entries[..|entries| - 1])
      + if Closing(last) && RouteOf(last.labelText).Some? then Measured(m, last.usage) else 0.0
  }

  function SumOverRoutes(m: Measure, entries: Log, routes: seq<string>): real {
    if routes == [] then 0.0
    else SumOverRoutes(m, entries, routes[..|routes| - 1]) + TallyMeasure(m, TallyOf(UsagesOf(entries, routes[|routes| - 1])))
  }

  ghost predicate Distinct(routes: seq<string>) {
    forall i, j :: 0 <= i < j < |routes| ==> routes[i] != routes[j]
  }

  lemma {:induction false} OneRowOneRoute(m: Measure, before: Log, entry: Entry, routes: seq<string>)
    requires Distinct(routes)
    ensures SumOverRoutes(m, before + [entry], routes)
         == SumOverRoutes(m, before, routes)
            + if Closing(entry) && RouteOf(entry.labelText).Some? && RouteOf(entry.labelText).value in routes then Measured(m, entry.usage) else 0.0
  {
    if routes != [] {
      var n := |routes| - 1;
      var last := routes[n];
      assert routes == routes[..n] + [last];
      OneRowOneRoute(m, before, entry, routes[..n]);
      RowFor(m, before, entry, last);
    }
  }

  lemma RowFor(m: Measure, before: Log, entry: Entry, route: string)
    ensures TallyMeasure(m, TallyOf(UsagesOf(before + [entry], route)))
         == TallyMeasure(m, TallyOf(UsagesOf(before, route))) + if Charged(entry, route) then Measured(m, entry.usage) else 0.0
  {
    assert (before + [entry])[..|before|] == before;
    var usages := UsagesOf(before, route);
    assert (usages + [entry.usage])[..|usages|] == usages;
  }

  lemma {:induction false} NothingAnywhere(m: Measure, routes: seq<string>)
    ensures SumOverRoutes(m, [], routes) == 0.0
  {
    if routes != [] {
      NothingAnywhere(m, routes[..|routes| - 1]);
    }
  }

  /** The reports of all routes together account for every routed row exactly once. */
  lemma {:induction false} RoutesAddUp(m: Measure, entries: Log, routes: seq<string>)
    requires Distinct(routes)
    requires forall e :: e in entries && Closing(e) && RouteOf(e.labelText).Some? ==> RouteOf(e.labelText).value in routes
    ensures SumOverRoutes(m, entries, routes) == RoutedTotal(m, entries)
  {
    if entries == [] {
      NothingAnywhere(m, routes);
    } else {
      var n := |entries| - 1;
      assert entries == entries[..n] + [entries[n]];
      RoutesAddUp(m, entries[..n], routes);
      OneRowOneRoute(m, entries[..n], entries[n], routes);
    }
  }
}
