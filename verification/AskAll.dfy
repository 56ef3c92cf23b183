/**
 Asking many independent questions: items with the same state share one request, requests
 run on a pool of workers over one shared counter, and answers come back by position.
 It gives each item what asking it alone would.
 */
module AskAll {
  import opened Decimal
  import opened Prelude

  /** A question about an input. `state` is the canonical form of the minimal state sent with it. */
  datatype Item<Q> = Item(question: Q, key: string, state: string, reuse: bool)

  datatype Outcome = Answered | Refused(reason: string)

  /**
   The world of one call. A recorded decision and a transport outcome depend on the state
   and the question only; `resolve` is the policy that turns an answer, or the lack of one,
   into a result.
   */
  datatype Context<!Q, !A, !R> = Context(
    replay: (Q, string) -> Option<R>,
    outcome: string -> Outcome,
    answer: (Q, string) -> Option<A>,
    resolve: (Q, Option<A>, Option<string>) -> R)

  function Replayed<Q, A, R>(ctx: Context<Q, A, R>, item: Item<Q>): Option<R> {
    if item.reuse then ctx.replay(item.question, item.state) else None
  }

  /** What asking this item by itself gives. */
  function Alone<Q, A, R>(ctx: Context<Q, A, R>, item: Item<Q>): R {
    var prior := Replayed(ctx, item);
    if prior.Some? then prior.value
    else
      match ctx.outcome(item.state)
      case Refused(reason) => ctx.resolve(item.question, None, Some(reason))
      case Answered => ctx.resolve(item.question, ctx.answer(item.question, item.state), None)
  }

  /** A recorded decision stands where reuse was asked for; otherwise policy gets the answer, or none and the reason why. */
  lemma AloneMeans<Q, A, R>(ctx: Context<Q, A, R>, item: Item<Q>)
    ensures item.reuse && ctx.replay(item.question, item.state).Some? ==>
              Alone(ctx, item) == ctx.replay(item.question, item.state).value
    ensures !item.reuse || ctx.replay(item.question, item.state).None? ==>
              Alone(ctx, item) == if ctx.outcome(item.state).Answered?
                                  then ctx.resolve(item.question, ctx.answer(item.question, item.state), None)
                                  else ctx.resolve(item.question, None, Some(ctx.outcome(item.state).reason))
  {
  }

  // ----- wire keys -----

  function WireKey(index: nat, key: string): string {
    "q" + Digits(index) + ":" + key
  }

  /** The length of the digits in front, up to the first other character. */
  function DigitRun(s: string): (k: nat)
    ensures k <= |s|
  {
    if s == [] || !IsDigit(s[0]) then 0 else 1 + DigitRun(s[1..])
  }

  lemma {:induction false} DigitRunOf(digits: string, rest: string)
    requires forall i :: 0 <= i < |digits| ==> IsDigit(digits[i])
    requires rest != [] && !IsDigit(rest[0])
    ensures DigitRun(digits + rest) == |digits|
  {
    if digits == [] {
      assert digits + rest == rest;
    } else {
      assert (digits + rest)[1..] == digits[1..] + rest;
      DigitRunOf(digits[1..], rest);
    }
  }

  /** The position and the question's key, read back from a wire key. */
  function Unwire(wire: string): (int, string)
    requires wire != [] && |wire| > DigitRun(wire[1..]) + 1
  {
    var k := DigitRun(wire[1..]);
    (Number(wire[1..k + 1]), wire[k + 2..])
  }

  lemma UnwireWire(i: nat, key: string)
    ensures WireKey(i, key) != [] && |WireKey(i, key)| > DigitRun(WireKey(i, key)[1..]) + 1
    ensures Unwire(WireKey(i, key)) == (i, key)
  {
    var digits, wire := Digits(i), WireKey(i, key);
    assert wire[1..] == digits + (":" + key);
    DigitRunOf(digits, ":" + key);
    assert wire[1..|digits| + 1] == digits;
    assert wire[|digits| + 2..] == key;
    NumberOfDigits(i);
  }

  /** Keys of different positions differ, whatever the questions are called. */
  lemma WireKeysAreDistinct(i: nat, a: string, j: nat, b: string)
    ensures WireKey(i, a) == WireKey(j, b) ==> i == j && a == b
  {
    UnwireWire(i, a);
    UnwireWire(j, b);
  }

  // ----- one request -----

  /** The wire keys of these positions and no others, each naming its question. */
  ghost predicate RequestFor<Q>(request: map<string, Q>, items: seq<Item<Q>>, pending: seq<nat>) {
    && (forall p :: p in pending ==> p < |items|)
    && (forall key :: key in request ==> exists p :: p in pending && p < |items| && key == WireKey(p, items[p].key))
    && (forall p :: p in pending ==> WireKey(p, items[p].key) in request && request[WireKey(p, items[p].key)] == items[p].question)
  }

  method BuildRequest<Q>(items: seq<Item<Q>>, pending: seq<nat>) returns (request: map<string, Q>)
    requires forall p :: p in pending ==> p < |items|
    ensures RequestFor(request, items, pending)
  {
    request := map[];
    for i := 0 to |pending|
      invariant RequestFor(request, items, pending[..i])
    {
      var p := pending[i];
      assert p in pending;
      forall q | q in pending[..i] && WireKey(q, items[q].key) == WireKey(p, items[p].key) ensures q == p {
        WireKeysAreDistinct(q, items[q].key, p, items[p].key);
      }
      request := request[WireKey(p, items[p].key) := items[p].question];
      assert pending[..i + 1] == pending[..i] + [p];
    }
    assert pending[..|pending|] == pending;
  }

  /** The transport: an answer, or none, under every key it was asked. */
  function Evaluate<Q, A, R>(ctx: Context<Q, A, R>, state: string, request: map<string, Q>): map<string, Option<A>> {
    map k | k in request :: ctx.answer(request[k], state)
  }

  function AloneAll<Q, A, R>(ctx: Context<Q, A, R>, items: seq<Item<Q>>): seq<R> {
    seq(|items|, i requires 0 <= i < |items| => Alone(ctx, items[i]))
  }

  /** The positions of the items that have no recorded decision to stand. */
  ghost predicate WithoutRecord<Q, A, R>(ctx: Context<Q, A, R>, items: seq<Item<Q>>, pending: seq<nat>) {
    forall i: nat :: i < |items| ==> (i in pending <==> Replayed(ctx, items[i]).None?)
  }

  /** The results of the items with a recorded decision, and the positions of the others. */
  method Replay<Q, A, R>(ctx: Context<Q, A, R>, items: seq<Item<Q>>) returns (results: array<Option<R>>, pending: seq<nat>)
    ensures fresh(results) && results.Length == |items|
    ensures WithoutRecord(ctx, items, pending) && forall p :: p in pending ==> p < |items|
    ensures forall i :: 0 <= i < |items| && Replayed(ctx, items[i]).Some? ==> results[i] == Some(Alone(ctx, items[i]))
  {
    results := new Option<R>[|items|](_ => None);
    pending := [];
    for i := 0 to |items|
      invariant forall p: nat :: p in pending <==> p < i && Replayed(ctx, items[p]).None?
      invariant forall j :: 0 <= j < i && Replayed(ctx, items[j]).Some? ==> results[j] == Some(Alone(ctx, items[j]))
    {
      var prior := Replayed(ctx, items[i]);
      if prior.Some? {
        results[i] := prior;
      } else {
        pending := pending + [i];
      }
    }
  }

  /** One request for the pending items; every one of them gets its own answer, or none and the reason. */
  method AskPending<Q, A, R>(ctx: Context<Q, A, R>, state: string, items: seq<Item<Q>>, pending: seq<nat>, results: array<Option<R>>)
      returns (request: map<string, Q>)
    requires forall i :: 0 <= i < |items| ==> items[i].state == state
    requires results.Length == |items| && forall p :: p in pending ==> p < |items| && Replayed(ctx, items[p]).None?
    modifies results
    ensures RequestFor(request, items, pending)
    ensures forall i: nat :: i < |items| ==>
              results[i] == if i in pending then Some(Alone(ctx, items[i])) else old(results[i])
  {
    request := BuildRequest(items, pending);
    var outcome := ctx.outcome(state);
    var answers := Evaluate(ctx, state, request);
    for n := 0 to |pending|
      invariant forall i: nat :: i < |items| ==>
                  results[i] == if i in pending[..n] then Some(Alone(ctx, items[i])) else old(results[i])
    {
      var p := pending[n];
      assert p in pending;
      if outcome.Refused? {
        results[p] := Some(ctx.resolve(items[p].question, None, Some(outcome.reason)));
      } else {
        results[p] := Some(ctx.resolve(items[p].question, answers[WireKey(p, items[p].key)], None));
      }
      assert pending[..n + 1] == pending[..n] + [p];
    }
    assert pending[..|pending|] == pending;
  }

  /**
   `askBatch`: recorded decisions first, then one request for the rest, answers read back by
   key. `requests` is what went to the transport: nothing when every item has a record.
   */
  method AskBatch<Q, A, R>(ctx: Context<Q, A, R>, state: string, items: seq<Item<Q>>)
      returns (batch: seq<R>, ghost requests: seq<map<string, Q>>)
    requires forall i :: 0 <= i < |items| ==> items[i].state == state
    ensures batch == AloneAll(ctx, items)
    ensures |requests| <= 1 && (requests == [] <==> forall i :: 0 <= i < |items| ==> Replayed(ctx, items[i]).Some?)
    ensures |requests| == 1 ==> exists pending :: WithoutRecord(ctx, items, pending) && RequestFor(requests[0], items, pending)
  {
    var results, pending := Replay(ctx, items);
    requests := [];
    if |pending| > 0 {
      assert pending[0] in pending;
      var request := AskPending(ctx, state, items, pending, results);
      requests := [request];
    }
    batch := [];
    for i := 0 to |items|
      invariant batch == AloneAll(ctx, items[..i])
    {
      assert results[i] == Some(Alone(ctx, items[i]));
      batch := batch + [results[i].value];
    }
    assert items[..|items|] == items;
  }

  // ----- grouping -----

  /** Positions of the items that share a state. */
  datatype Group = Group(state: string, entries: seq<nat>)

  ghost predicate Ascending(s: seq<nat>) {
    forall i, j :: 0 <= i < j < |s| ==> s[i] < s[j]
  }

  ghost predicate GroupHolds<Q>(items: seq<Item<Q>>, n: nat, g: Group) {
    && g.entries != [] && Ascending(g.entries)
    && forall e: nat :: e in g.entries <==> e < n <= |items| && items[e].state == g.state
  }

  /** Distinct states, in the order they first appear. */
  ghost predicate InOrder(groups: seq<Group>) {
    forall a, b :: 0 <= a < b < |groups| && groups[a].entries != [] && groups[b].entries != [] ==>
      groups[a].state != groups[b].state && groups[a].entries[0] < groups[b].entries[0]
  }

  /** The first `n` items partitioned by state: each group has all of its positions, and each position is in a group. */
  ghost predicate Grouped<Q>(items: seq<Item<Q>>, n: nat, groups: seq<Group>) {
    && (forall a :: 0 <= a < |groups| ==> GroupHolds(items, n, groups[a]))
    && InOrder(groups)
    && (forall i: nat :: i < n <= |items| ==> exists a :: 0 <= a < |groups| && groups[a].state == items[i].state)
  }

  method FindGroup(groups: seq<Group>, state: string) returns (at: nat)
    ensures at <= |groups|
    ensures at < |groups| ==> groups[at].state == state
    ensures at == |groups| ==> forall a :: 0 <= a < |groups| ==> groups[a].state != state
  {
    at := 0;
    while at < |groups| && groups[at].state != state
      invariant at <= |groups|
      invariant forall a :: 0 <= a < at ==> groups[a].state != state
    {
      at := at + 1;
    }
  }

  method GroupItems<Q>(items: seq<Item<Q>>) returns (groups: seq<Group>)
    ensures Grouped(items, |items|, groups)
  {
    groups := [];
    for i := 0 to |items|
      invariant Grouped(items, i, groups)
    {
      var state := items[i].state;
      var at := FindGroup(groups, state);
      if at < |groups| {
        ExtendGroup(items, i, groups, at);
        groups := groups[at := Group(state, groups[at].entries + [i])];
      } else {
        NewGroup(items, i, groups);
        groups := groups + [Group(state, [i])];
      }
    }
  }

  lemma HoldsWithOneMore<Q>(items: seq<Item<Q>>, i: nat, g: Group)
    requires i < |items| && GroupHolds(items, i, g) && g.state == items[i].state
    ensures GroupHolds(items, i + 1, Group(g.state, g.entries + [i]))
  {
    var after := g.entries + [i];
    assert forall x :: 0 <= x < |g.entries| ==> g.entries[x] in g.entries && after[x] == g.entries[x];
    assert Ascending(after);
    assert forall e: nat :: e in after <==> e in g.entries || e == i;
  }

  lemma ExtendGroup<Q>(items: seq<Item<Q>>, i: nat, groups: seq<Group>, at: nat)
    requires i < |items| && Grouped(items, i, groups) && at < |groups| && groups[at].state == items[i].state
    ensures Grouped(items, i + 1, groups[at := Group(items[i].state, groups[at].entries + [i])])
  {
    var after := groups[at := Group(items[i].state, groups[at].entries + [i])];
    forall a | 0 <= a < |after| ensures GroupHolds(items, i + 1, after[a]) {
      assert GroupHolds(items, i, groups[a]) && GroupHolds(items, i, groups[at]);
      if a == at {
        HoldsWithOneMore(items, i, groups[at]);
      } else {
        if a < at {
          assert groups[a].state != groups[at].state;
        } else {
          assert groups[at].state != groups[a].state;
        }
      }
    }
    assert forall a :: 0 <= a < |after| ==> after[a].state == groups[a].state;
    assert forall a :: 0 <= a < |after| ==> GroupHolds(items, i, groups[a]) && after[a].entries[0] == groups[a].entries[0];
    forall j | 0 <= j < i + 1 ensures exists a :: 0 <= a < |after| && after[a].state == items[j].state {
      if j == i {
        assert after[at].state == items[j].state;
      } else {
        var a :| 0 <= a < |groups| && groups[a].state == items[j].state;
        assert after[a].state == items[j].state;
      }
    }
  }

  lemma NewGroup<Q>(items: seq<Item<Q>>, i: nat, groups: seq<Group>)
    requires i < |items| && Grouped(items, i, groups)
    requires forall a :: 0 <= a < |groups| ==> groups[a].state != items[i].state
    ensures Grouped(items, i + 1, groups + [Group(items[i].state, [i])])
  {
    var after := groups + [Group(items[i].state, [i])];
    forall a | 0 <= a < |after| ensures GroupHolds(items, i + 1, after[a]) {
      if a < |groups| {
        assert GroupHolds(items, i, groups[a]);
      } else {
      }
    }
    forall a | 0 <= a < |groups| ensures groups[a].entries[0] < i {
      assert GroupHolds(items, i, groups[a]);
      assert groups[a].entries[0] in groups[a].entries;
    }
    forall j | 0 <= j < i + 1 ensures exists a :: 0 <= a < |after| && after[a].state == items[j].state {
      if j == i {
        assert after[|groups|].state == items[j].state;
      } else {
        var a :| 0 <= a < |groups| && groups[a].state == items[j].state;
        assert after[a].state == items[j].state;
      }
    }
  }
}
