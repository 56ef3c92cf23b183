/**
 The workers of `askAll`, interleaved at their await points. Between two awaits a worker
 takes the next group from the shared counter, or writes a finished batch back by position
 and becomes ready again.
 */
module AskPool {
  import opened AskAll
  import opened Prelude

  datatype Worker = Ready | Asking(group: nat) | Done

  datatype Pool<R> = Pool(next: nat, workers: seq<Worker>, out: seq<Option<R>>)

  function PoolSize(cap: int, groups: nat): nat {
    var c := if cap < 1 then 1 else cap;
    if c <= groups then c else groups
  }

  function Start<Q, R>(items: seq<Item<Q>>, groups: seq<Group>, cap: int): Pool<R> {
    Pool(0, seq(PoolSize(cap, |groups|), _ => Ready), seq(|items|, _ => None))
  }

  predicate Below(entries: seq<nat>, n: nat) {
    forall i :: 0 <= i < |entries| ==> entries[i] < n
  }

  function Members<Q>(items: seq<Item<Q>>, entries: seq<nat>): seq<Item<Q>>
    requires Below(entries, |items|)
  {
    seq(|entries|, i requires 0 <= i < |entries| => items[entries[i]])
  }

  /** Each result of the batch at the position of its item. */
  function Scatter<R>(out: seq<Option<R>>, entries: seq<nat>, batch: seq<R>): (r: seq<Option<R>>)
    requires |entries| == |batch| && Below(entries, |out|)
    ensures |r| == |out|
  {
    if entries == [] then out
    else
      var n := |entries| - 1;
      Scatter(out, entries[..n], batch[..n])[entries[n] := Some(batch[n])]
  }

  method ScatterBack<R>(out: seq<Option<R>>, entries: seq<nat>, batch: seq<R>) returns (r: seq<Option<R>>)
    requires |entries| == |batch| && Below(entries, |out|)
    ensures r == Scatter(out, entries, batch)
  {
    r := out;
    for i := 0 to |entries|
      invariant r == Scatter(out, entries[..i], batch[..i])
    {
      assert entries[..i + 1][..i] == entries[..i] && batch[..i + 1][..i] == batch[..i];
      r := r[entries[i] := Some(batch[i])];
    }
    assert entries[..|entries|] == entries && batch[..|batch|] == batch;
  }

  predicate CanStep<R>(p: Pool<R>, w: nat) {
    w < |p.workers| && p.workers[w] != Done
  }

  ghost predicate WellGrouped<Q>(items: seq<Item<Q>>, groups: seq<Group>) {
    Grouped(items, |items|, groups)
  }

  ghost predicate InRange<Q, R>(items: seq<Item<Q>>, groups: seq<Group>, p: Pool<R>) {
    && |p.out| == |items|
    && forall w :: 0 <= w < |p.workers| && p.workers[w].Asking? ==> p.workers[w].group < p.next && p.workers[w].group < |groups|
  }

  lemma EntriesInRange<Q>(items: seq<Item<Q>>, groups: seq<Group>, g: nat)
    requires WellGrouped(items, groups) && g < |groups|
    ensures Below(groups[g].entries, |items|)
    ensures forall i :: 0 <= i < |groups[g].entries| ==> items[groups[g].entries[i]].state == groups[g].state
  {
    assert GroupHolds(items, |items|, groups[g]);
    assert forall i :: 0 <= i < |groups[g].entries| ==> groups[g].entries[i] in groups[g].entries;
  }

  /** One worker runs from one await to the next. */
  ghost function After<Q, A, R>(ctx: Context<Q, A, R>, items: seq<Item<Q>>, groups: seq<Group>, p: Pool<R>, w: nat): Pool<R>
    requires WellGrouped(items, groups) && InRange(items, groups, p) && CanStep(p, w)
  {
    match p.workers[w]
    case Ready =>
      Pool(p.next + 1, p.workers[w := if p.next < |groups| then Asking(p.next) else Done], p.out)
    case Asking(g) =>
      EntriesInRange(items, groups, g);
      var entries := groups[g].entries;
      Pool(p.next, p.workers[w := Ready], Scatter(p.out, entries, AloneAll(ctx, Members(items, entries))))
  }

  // ----- what every step keeps -----

  ghost predicate InFlight<R>(p: Pool<R>, g: nat) {
    exists w :: 0 <= w < |p.workers| && p.workers[w] == Asking(g)
  }

  /** No group is being asked by two workers. */
  ghost predicate NoneTwice<R>(p: Pool<R>) {
    forall v, w :: 0 <= v < w < |p.workers| && p.workers[v].Asking? && p.workers[w].Asking? ==> p.workers[v].group != p.workers[w].group
  }

  ghost predicate DoneMeansExhausted<R>(groups: seq<Group>, p: Pool<R>) {
    forall w :: 0 <= w < |p.workers| && p.workers[w].Done? ==> p.next >= |groups|
  }

  /** Slots of finished groups hold what asking alone gives; all other slots are empty. */
  ghost predicate SlotsHold<Q, A, R>(ctx: Context<Q, A, R>, items: seq<Item<Q>>, groups: seq<Group>, p: Pool<R>, g: nat)
    requires g < |groups| && |p.out| == |items|
  {
    forall e :: e in groups[g].entries && e < |items| ==>
      p.out[e] == if g < p.next && !InFlight(p, g) then Some(Alone(ctx, items[e])) else None
  }

  ghost predicate Inv<Q, A, R>(ctx: Context<Q, A, R>, items: seq<Item<Q>>, groups: seq<Group>, p: Pool<R>) {
    && WellGrouped(items, groups)
    && InRange(items, groups, p)
    && NoneTwice(p)
    && DoneMeansExhausted(groups, p)
    && forall g :: 0 <= g < |groups| ==> SlotsHold(ctx, items, groups, p, g)
  }

  lemma {:induction false} ScatterAt<R>(out: seq<Option<R>>, entries: seq<nat>, batch: seq<R>, e: nat)
    requires |entries| == |batch| && Below(entries, |out|) && Ascending(entries) && e < |out|
    ensures e !in entries ==> Scatter(out, entries, batch)[e] == out[e]
    ensures forall i :: 0 <= i < |entries| && entries[i] == e ==> Scatter(out, entries, batch)[e] == Some(batch[i])
  {
    if entries != [] {
      var n := |entries| - 1;
      assert entries == entries[..n] + [entries[n]];
      ScatterAt(out, entries[..n], batch[..n], e);
      assert forall i :: 0 <= i < n ==> entries[..n][i] == entries[i];
    }
  }

  lemma ScatterAlone<Q, A, R>(ctx: Context<Q, A, R>, items: seq<Item<Q>>, out: seq<Option<R>>, entries: seq<nat>, e: nat)
    requires |out| == |items| && Below(entries, |items|) && Ascending(entries) && e < |items|
    ensures Scatter(out, entries, AloneAll(ctx, Members(items, entries)))[e]
         == if e in entries then Some(Alone(ctx, items[e])) else out[e]
  {
    var batch := AloneAll(ctx, Members(items, entries));
    ScatterAt(out, entries, batch, e);
    if e in entries {
      var i :| 0 <= i < |entries| && entries[i] == e;
      assert batch[i] == Alone(ctx, items[e]);
    }
  }

  lemma TakeKeeps<Q, A, R>(ctx: Context<Q, A, R>, items: seq<Item<Q>>, groups: seq<Group>, p: Pool<R>, w: nat)
    requires Inv(ctx, items, groups, p) && CanStep(p, w) && p.workers[w].Ready?
    ensures Inv(ctx, items, groups, After(ctx, items, groups, p, w))
  {
    var p' := After(ctx, items, groups, p, w);
    forall g | 0 <= g < |groups| ensures SlotsHold(ctx, items, groups, p', g) {
      assert SlotsHold(ctx, items, groups, p, g);
      assert p'.workers[w] == if p.next < |groups| then Asking(p.next) else Done;
      if v :| 0 <= v < |p.workers| && p.workers[v] == Asking(g) {
        assert p'.workers[v] == Asking(g);
      }
      if v :| 0 <= v < |p'.workers| && p'.workers[v] == Asking(g) && v != w {
        assert p.workers[v] == Asking(g);
      }
    }
  }

  lemma FinishKeeps<Q, A, R>(ctx: Context<Q, A, R>, items: seq<Item<Q>>, groups: seq<Group>, p: Pool<R>, w: nat)
    requires Inv(ctx, items, groups, p) && CanStep(p, w) && p.workers[w].Asking?
    ensures Inv(ctx, items, groups, After(ctx, items, groups, p, w))
  {
    var p', h := After(ctx, items, groups, p, w), p.workers[w].group;
    EntriesInRange(items, groups, h);
    assert GroupHolds(items, |items|, groups[h]);
    forall g | 0 <= g < |groups| ensures SlotsHold(ctx, items, groups, p', g) {
      assert SlotsHold(ctx, items, groups, p, g);
      FinishInFlight(p, p', w, g);
      forall e | e in groups[g].entries && e < |items|
        ensures p'.out[e] == if g < p'.next && !InFlight(p', g) then Some(Alone(ctx, items[e])) else None
      {
        ScatterAlone(ctx, items, p.out, groups[h].entries, e);
        if e in groups[h].entries {
        }
      }
    }
  }

  lemma FinishInFlight<R>(p: Pool<R>, p': Pool<R>, w: nat, g: nat)
    requires NoneTwice(p) && w < |p.workers| && p.workers[w].Asking? && p'.workers == p.workers[w := Ready]
    ensures InFlight(p', g) <==> InFlight(p, g) && g != p.workers[w].group
  {
    if v :| 0 <= v < |p.workers| && p.workers[v] == Asking(g) && v != w {
      assert p'.workers[v] == Asking(g);
    }
    if v :| 0 <= v < |p'.workers| && p'.workers[v] == Asking(g) {
      assert p.workers[v] == Asking(g) && v != w;
    }
  }

  lemma StepKeeps<Q, A, R>(ctx: Context<Q, A, R>, items: seq<Item<Q>>, groups: seq<Group>, p: Pool<R>, w: nat)
    requires Inv(ctx, items, groups, p) && CanStep(p, w)
    ensures Inv(ctx, items, groups, After(ctx, items, groups, p, w))
  {
    if p.workers[w].Ready? {
      TakeKeeps(ctx, items, groups, p, w);
    } else {
      FinishKeeps(ctx, items, groups, p, w);
    }
  }

  // ----- termination -----

  function Weight(w: Worker): nat {
    match w
    case Ready => 1
    case Asking(_) => 2
    case Done => 0
  }

  function Weights(workers: seq<Worker>): nat {
    if workers == [] then 0 else Weights(workers[..|workers| - 1]) + Weight(workers[|workers| - 1])
  }

  /** An upper bound on the steps still to come. */
  function Measure<R>(groups: nat, p: Pool<R>): nat {
    Weights(p.workers) + if p.next < groups then 2 * (groups - p.next) else 0
  }

  lemma {:induction false} WeightsUpdate(workers: seq<Worker>, w: nat, x: Worker)
    requires w < |workers|
    ensures Weights(workers[w := x]) == Weights(workers) - Weight(workers[w]) + Weight(x)
  {
    var n := |workers| - 1;
    if w == n {
      assert workers[w := x][..n] == workers[..n];
    } else {
      assert workers[w := x][..n] == workers[..n][w := x];
      WeightsUpdate(workers[..n], w, x);
    }
  }

  lemma StepDecreases<Q, A, R>(ctx: Context<Q, A, R>, items: seq<Item<Q>>, groups: seq<Group>, p: Pool<R>, w: nat)
    requires Inv(ctx, items, groups, p) && CanStep(p, w)
    ensures Measure(|groups|, After(ctx, items, groups, p, w)) == Measure(|groups|, p) - 1
  {
    WeightsUpdate(p.workers, w, After(ctx, items, groups, p, w).workers[w]);
  }

  lemma {:induction false} WeightsOfReady(n: nat)
    ensures Weights(seq(n, _ => Ready)) == n
  {
    if n > 0 {
      assert seq(n, _ => Ready)[..n - 1] == seq(n - 1, _ => Ready);
      WeightsOfReady(n - 1);
    }
  }

  lemma {:induction false} NothingLeft(workers: seq<Worker>)
    ensures Weights(workers) == 0 <==> forall w :: 0 <= w < |workers| ==> workers[w] == Done
  {
    if workers != [] {
      NothingLeft(workers[..|workers| - 1]);
    }
  }

  // ----- runs -----

  /** `steps[k]` is the worker that runs next; every schedule is such a sequence. */
  ghost predicate IsRun<Q, A, R>(ctx: Context<Q, A, R>, items: seq<Item<Q>>, groups: seq<Group>, cap: int, run: seq<Pool<R>>, steps: seq<nat>) {
    && WellGrouped(items, groups)
    && |run| == |steps| + 1 && run[0] == Start(items, groups, cap)
    && forall k :: 0 <= k < |steps| ==>
         InRange(items, groups, run[k]) && CanStep(run[k], steps[k]) && run[k + 1] == After(ctx, items, groups, run[k], steps[k])
  }

  lemma {:induction false} EveryStateHolds<Q, A, R>(ctx: Context<Q, A, R>, items: seq<Item<Q>>, groups: seq<Group>, cap: int, run: seq<Pool<R>>, steps: seq<nat>, k: nat)
    requires IsRun(ctx, items, groups, cap, run, steps) && k < |run|
    ensures Inv(ctx, items, groups, run[k]) && |run[k].workers| == PoolSize(cap, |groups|)
    ensures Measure(|groups|, run[k]) + k == PoolSize(cap, |groups|) + 2 * |groups|
  {
    if k == 0 {
      WeightsOfReady(PoolSize(cap, |groups|));
    } else {
      EveryStateHolds(ctx, items, groups, cap, run, steps, k - 1);
      StepKeeps(ctx, items, groups, run[k - 1], steps[k - 1]);
      StepDecreases(ctx, items, groups, run[k - 1], steps[k - 1]);
    }
  }

  function InFlightCount(workers: seq<Worker>): nat {
    if workers == [] then 0
    else InFlightCount(workers[..|workers| - 1]) + if workers[|workers| - 1].Asking? then 1 else 0
  }

  lemma {:induction false} AtMostAllWorkers(workers: seq<Worker>)
    ensures InFlightCount(workers) <= |workers|
  {
    if workers != [] {
      AtMostAllWorkers(workers[..|workers| - 1]);
    }
  }

  /** At every moment at most `concurrency` requests are in flight, and always one is allowed; no state in two of them. */
  lemma ConcurrencyIsBounded<Q, A, R>(ctx: Context<Q, A, R>, items: seq<Item<Q>>, groups: seq<Group>, cap: int, run: seq<Pool<R>>, steps: seq<nat>, k: nat)
    requires IsRun(ctx, items, groups, cap, run, steps) && k < |run|
    ensures InFlightCount(run[k].workers) <= if cap < 1 then 1 else cap
    ensures NoneTwice(run[k])
  {
    EveryStateHolds(ctx, items, groups, cap, run, steps, k);
    AtMostAllWorkers(run[k].workers);
  }

  /** The first `n` workers one after another take a group each. */
  lemma {:induction false} FirstWorkersTake<Q, A, R>(ctx: Context<Q, A, R>, items: seq<Item<Q>>, groups: seq<Group>, cap: int, n: nat)
      returns (run: seq<Pool<R>>, steps: seq<nat>)
    requires WellGrouped(items, groups)
    requires n <= |groups| && n <= if cap < 1 then 1 else cap
    ensures IsRun(ctx, items, groups, cap, run, steps) && |run| == n + 1 && run[n].next == n
    ensures |run[n].workers| >= n
    ensures forall w :: 0 <= w < |run[n].workers| ==> run[n].workers[w] == if w < n then Asking(w) else Ready
  {
    if n == 0 {
      run, steps := [Start(items, groups, cap)], [];
    } else {
      var earlier, taken := FirstWorkersTake(ctx, items, groups, cap, n - 1);
      EveryStateHolds(ctx, items, groups, cap, earlier, taken, n - 1);
      var p := earlier[n - 1];
      run, steps := earlier + [After(ctx, items, groups, p, n - 1)], taken + [n - 1];
      forall k | 0 <= k < n
        ensures InRange(items, groups, run[k]) && CanStep(run[k], steps[k]) && run[k + 1] == After(ctx, items, groups, run[k], steps[k])
      {
        assert run[k] == earlier[k];
        assert k < n - 1 ==> steps[k] == taken[k] && run[k + 1] == earlier[k + 1];
      }
    }
  }

  lemma {:induction false} AllAsking(workers: seq<Worker>, n: nat)
    requires n <= |workers|
    requires forall w :: 0 <= w < n ==> workers[w].Asking?
    ensures InFlightCount(workers) >= n
  {
    if n < |workers| {
      AllAsking(workers[..|workers| - 1], n);
    } else if n > 0 {
      AllAsking(workers[..n - 1], n - 1);
    }
  }

  /** The concurrency is made use of: on some schedule that many requests are in flight, or all of them if they are fewer. */
  lemma ConcurrencyIsReached<Q, A, R>(ctx: Context<Q, A, R>, items: seq<Item<Q>>, groups: seq<Group>, cap: int, n: nat)
      returns (run: seq<Pool<R>>, steps: seq<nat>)
    requires WellGrouped(items, groups)
    requires n <= |groups| && n <= if cap < 1 then 1 else cap
    ensures IsRun(ctx, items, groups, cap, run, steps) && InFlightCount(run[|steps|].workers) >= n
  {
    run, steps := FirstWorkersTake(ctx, items, groups, cap, n);
    AllAsking(run[n].workers, n);
  }

  /** A run can go on unless every worker has returned, and no run is longer than its first measure. */
  lemma EveryRunEnds<Q, A, R>(ctx: Context<Q, A, R>, items: seq<Item<Q>>, groups: seq<Group>, cap: int, run: seq<Pool<R>>, steps: seq<nat>)
    requires IsRun(ctx, items, groups, cap, run, steps)
    ensures |steps| <= PoolSize(cap, |groups|) + 2 * |groups|
    ensures (forall w :: !CanStep(run[|steps|], w)) <==> |steps| == PoolSize(cap, |groups|) + 2 * |groups|
  {
    var last := run[|steps|];
    EveryStateHolds(ctx, items, groups, cap, run, steps, |steps|);
    NothingLeft(last.workers);
    if forall w :: !CanStep(last, w) {
      assert forall w :: 0 <= w < |last.workers| ==> CanStep(last, w) || last.workers[w] == Done;
      if |last.workers| > 0 {
        assert last.workers[0] == Done;
      }
    }
  }

  /** When the workers have returned, item `i` has what asking it alone gives, whatever the schedule was. */
  lemma FinishedRunAnswersAll<Q, A, R>(ctx: Context<Q, A, R>, items: seq<Item<Q>>, groups: seq<Group>, p: Pool<R>, cap: int)
    requires Inv(ctx, items, groups, p) && |p.workers| == PoolSize(cap, |groups|)
    requires forall w :: 0 <= w < |p.workers| ==> p.workers[w] == Done
    ensures forall i :: 0 <= i < |items| ==> p.out[i] == Some(Alone(ctx, items[i]))
  {
    forall i: nat | i < |items| ensures p.out[i] == Some(Alone(ctx, items[i])) {
      var g :| 0 <= g < |groups| && groups[g].state == items[i].state;
      assert GroupHolds(items, |items|, groups[g]);
      assert SlotsHold(ctx, items, groups, p, g);
      assert p.workers[0] == Done;
    }
  }

  /** A step that takes group `g` from the counter. */
  ghost predicate Takes<R>(run: seq<Pool<R>>, k: nat, g: nat) {
    k + 1 < |run| && run[k].next == g && run[k + 1].next == g + 1
  }

  lemma {:induction false} CounterOnlyGrows<Q, A, R>(ctx: Context<Q, A, R>, items: seq<Item<Q>>, groups: seq<Group>, cap: int, run: seq<Pool<R>>, steps: seq<nat>, j: nat, k: nat)
    requires IsRun(ctx, items, groups, cap, run, steps) && j <= k < |run|
    ensures run[j].next <= run[k].next
    decreases k - j
  {
    if j < k {
      CounterOnlyGrows(ctx, items, groups, cap, run, steps, j, k - 1);
    }
  }

  /** No group is ever taken twice. */
  lemma TakenAtMostOnce<Q, A, R>(ctx: Context<Q, A, R>, items: seq<Item<Q>>, groups: seq<Group>, cap: int, run: seq<Pool<R>>, steps: seq<nat>, j: nat, k: nat, g: nat)
    requires IsRun(ctx, items, groups, cap, run, steps) && Takes(run, j, g) && Takes(run, k, g)
    ensures j == k
  {
    if j < k {
      CounterOnlyGrows(ctx, items, groups, cap, run, steps, j + 1, k);
    } else if k < j {
      CounterOnlyGrows(ctx, items, groups, cap, run, steps, k + 1, j);
    }
  }

  /** Every group the counter has passed was taken at some step. */
  lemma {:induction false} TakenAtLeastOnce<Q, A, R>(ctx: Context<Q, A, R>, items: seq<Item<Q>>, groups: seq<Group>, cap: int, run: seq<Pool<R>>, steps: seq<nat>, g: nat, n: nat)
      returns (k: nat)
    requires IsRun(ctx, items, groups, cap, run, steps) && n < |run| && g < run[n].next
    ensures Takes(run, k, g)
    decreases n
  {
    if g < run[n - 1].next {
      k := TakenAtLeastOnce(ctx, items, groups, cap, run, steps, g, n - 1);
    } else {
      k := n - 1;
    }
  }

  // ----- the whole -----

  method RunWorker<Q, A, R>(ctx: Context<Q, A, R>, items: seq<Item<Q>>, groups: seq<Group>, p: Pool<R>, w: nat) returns (p': Pool<R>)
    requires WellGrouped(items, groups) && InRange(items, groups, p) && CanStep(p, w)
    ensures p' == After(ctx, items, groups, p, w)
  {
    match p.workers[w]
    case Ready =>
      p' := Pool(p.next + 1, p.workers[w := if p.next < |groups| then Asking(p.next) else Done], p.out);
    case Asking(g) =>
      EntriesInRange(items, groups, g);
      var entries := groups[g].entries;
      var batch, _ := AskBatch(ctx, groups[g].state, Members(items, entries));
      var filled := ScatterBack(p.out, entries, batch);
      p' := Pool(p.next, p.workers[w := Ready], filled);
  }

  /** `askAll` under an arbitrary schedule: the results are those of asking each item alone, in the order given. */
  method AskEach<Q, A, R>(ctx: Context<Q, A, R>, items: seq<Item<Q>>, cap: int) returns (out: seq<Option<R>>)
    ensures |out| == |items| && forall i :: 0 <= i < |items| ==> out[i] == Some(Alone(ctx, items[i]))
  {
    var groups := GroupItems(items);
    var p: Pool<R> := Start(items, groups, cap);
    while exists w :: 0 <= w < |p.workers| && p.workers[w] != Done
      invariant Inv(ctx, items, groups, p) && |p.workers| == PoolSize(cap, |groups|)
      decreases Measure(|groups|, p)
    {
      var w :| 0 <= w < |p.workers| && p.workers[w] != Done;
      StepKeeps(ctx, items, groups, p, w);
      StepDecreases(ctx, items, groups, p, w);
      p := RunWorker(ctx, items, groups, p, w);
    }
    FinishedRunAnswersAll(ctx, items, groups, p, cap);
    out := p.out;
  }
}
