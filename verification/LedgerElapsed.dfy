/**
 Elapsed time, the one cap that is checked with nothing requested: when a settlement
 passes it, by how much a whole run may, and why no refusal under it ever clears.
 */
module LedgerElapsed {
  import opened Prelude
  import opened LedgerLog
  import opened LedgerRuns

  /** What a row adds to the elapsed time of `t`: reservations and releases carry none. */
  function Charged(t: Target, row: Entry): real {
    if Matches(t, row) then row.elapsedMs as real else 0.0
  }

  lemma ElapsedAfterClosing(log: Log, open: Entry, row: Entry, t: Target)
    requires WellFormed(log) && Closes(log, open, row)
    ensures Committed(log + [row], t, Elapsed) == Committed(log, t, Elapsed) + Charged(t, row)
    ensures Charged(t, row) >= 0.0
  {
    CommittedAfterClosing(log, open, row, t, Elapsed);
    EstimateIsTheReservation(log, open, t, Elapsed);
  }

  lemma ElapsedAfter(budgets: Budgets, log: Log, row: Entry, t: Target)
    requires WellFormed(log) && Admitted(budgets, log, row)
    ensures Committed(log + [row], t, Elapsed) == Committed(log, t, Elapsed) + Charged(t, row)
    ensures row.kind.Reservation? ==> Charged(t, row) == 0.0
  {
    if ClosesSome(log, row) {
      var open :| Closes(log, open, row);
      ElapsedAfterClosing(log, open, row, t);
    } else {
      ElapsedAfterOpening(log, row, t);
    }
  }

  lemma ElapsedAfterOpening(log: Log, row: Entry, t: Target)
    requires WellFormed(log) && Opens(log, row)
    ensures Committed(log + [row], t, Elapsed) == Committed(log, t, Elapsed)
    ensures Charged(t, row) == 0.0
  {
    CommittedAfterOpening(log, row, t, Elapsed);
  }

  /** The check the cap would need before a terminal row is written; reservations always pass it. */
  predicate HasTimeLeft(log: Log, row: Entry, t: Target, limit: real) {
    !row.kind.Reservation? ==> Committed(log, t, Elapsed) + Charged(t, row) <= limit
  }

  /** Closing an open reservation leaves elapsed time within its limit exactly when the missing check would pass. */
  lemma SettlementKeepsElapsedCapExactly(log: Log, open: Entry, row: Entry, t: Target, limit: real)
    requires WellFormed(log) && Closes(log, open, row)
    ensures Committed(log + [row], t, Elapsed) <= limit <==> HasTimeLeft(log, row, t, limit)
  {
    ElapsedAfterClosing(log, open, row, t);
  }

  ghost predicate ElapsedKept(log: Log, t: Target, limit: real) {
    forall n: nat {:trigger log[..n]} :: n <= |log| ==> Committed(log[..n], t, Elapsed) <= limit
  }

  ghost predicate TimeLeftAt(log: Log, t: Target, limit: real, n: nat)
    requires n < |log|
  {
    HasTimeLeft(log[..n], log[n], t, limit)
  }

  /** Over a whole run elapsed time keeps its cap exactly when every terminal row would have passed that check. */
  lemma ElapsedKeptExactly(budgets: Budgets, log: Log, t: Target, limit: real)
    requires Reachable(budgets, log) && limit >= 0.0
    ensures ElapsedKept(log, t, limit) <==> forall n: nat :: n < |log| ==> TimeLeftAt(log, t, limit, n)
  {
    forall n: nat | n < |log|
      ensures Committed(log[..n + 1], t, Elapsed) == Committed(log[..n], t, Elapsed) + Charged(t, log[n])
      ensures log[n].kind.Reservation? ==> Charged(t, log[n]) == 0.0
    {
      RowOfRun(budgets, log, n);
      ElapsedAfter(budgets, log[..n], log[n], t);
    }
    if ElapsedKept(log, t, limit) {
      forall n: nat | n < |log| ensures TimeLeftAt(log, t, limit, n) {
        assert Committed(log[..n + 1], t, Elapsed) <= limit;
      }
    }
    if forall n: nat :: n < |log| ==> TimeLeftAt(log, t, limit, n) {
      for n := 0 to |log|
        invariant forall k: nat {:trigger log[..k]} :: k <= n ==> Committed(log[..k], t, Elapsed) <= limit
      {
        assert TimeLeftAt(log, t, limit, n);
      }
    }
  }

  lemma RowOfRun(budgets: Budgets, log: Log, n: nat)
    requires Reachable(budgets, log) && n < |log|
    ensures Reachable(budgets, log[..n]) && WellFormed(log[..n])
    ensures Admitted(budgets, log[..n], log[n])
    ensures log[..n + 1] == log[..n] + [log[n]]
  {
    var p := log[..n];
    forall k: nat | k < n ensures AdmittedAt(budgets, p, k) {
      assert p[..k] == log[..k];
      assert AdmittedAt(budgets, log, k);
    }
    assert AdmittedAt(budgets, log, n);
    ReservationsCloseOnce(budgets, [], p);
  }

  // ----- how far beyond the cap -----

  /** No row charged to `t` reports more elapsed time than `longest`. */
  ghost predicate NoneLonger(log: Log, t: Target, longest: real) {
    forall e :: e in log ==> Charged(t, e) <= longest
  }

  /** Elapsed time if every open reservation of `t` were still to take the longest. */
  function Worst(log: Log, t: Target, longest: real): real {
    Committed(log, t, Elapsed) + longest * Committed(log, t, Concurrency)
  }

  lemma OneLess(longest: real, k: real)
    ensures longest * (k - 1.0) == longest * k - longest
  {
  }

  lemma ClosingKeepsWorst(log: Log, open: Entry, row: Entry, t: Target, longest: real)
    requires WellFormed(log) && Closes(log, open, row) && Charged(t, row) <= longest
    ensures Worst(log + [row], t, longest) <= Worst(log, t, longest)
  {
    ElapsedAfterClosing(log, open, row, t);
    CommittedAfterClosing(log, open, row, t, Concurrency);
    EstimateIsTheReservation(log, open, t, Concurrency);
    OneLess(longest, Committed(log, t, Concurrency));
  }

  /** Once elapsed time has passed its cap no reservation charged to `t` is admitted. */
  lemma NothingOpensPastTheCap(budgets: Budgets, log: Log, row: Entry, t: Target, limit: real)
    requires budgets(t.kind)(Elapsed) == Some(limit)
    requires Opens(log, row) && WithinCaps(budgets, log, row) && Matches(t, row)
    ensures Committed(log, t, Elapsed) <= limit
  {
    MatchingTargetIsChecked(t, row);
    EveryMetricIsChecked(Elapsed);
    assert FitsAt(budgets, log, row, t.kind, Elapsed);
  }

  lemma StepKeepsWorst(budgets: Budgets, log: Log, row: Entry, t: Target, limit: real, longest: real)
    requires WellFormed(log) && Admitted(budgets, log, row) && Charged(t, row) <= longest
    requires budgets(t.kind)(Elapsed) == Some(limit) && Committed(log + [row], t, Elapsed) > limit
    ensures Worst(log + [row], t, longest) <= Worst(log, t, longest)
  {
    ElapsedAfter(budgets, log, row, t);
    if ClosesSome(log, row) {
      var open :| Closes(log, open, row);
      ClosingKeepsWorst(log, open, row, t, longest);
    } else {
      if Matches(t, row) {
        NothingOpensPastTheCap(budgets, log, row, t, limit);
      }
      CommittedAfterOpening(log, row, t, Concurrency);
    }
  }

  lemma {:induction false} WorstFromTheBreachOn(budgets: Budgets, log: Log, t: Target, limit: real, longest: real)
    returns (n: nat)
    requires Reachable(budgets, log) && limit >= 0.0
    requires budgets(t.kind)(Elapsed) == Some(limit) && NoneLonger(log, t, longest)
    requires Committed(log, t, Elapsed) > limit
    ensures n < |log|
    ensures Committed(log[..n], t, Elapsed) <= limit < Committed(log[..n + 1], t, Elapsed)
    ensures Worst(log, t, longest) <= Worst(log[..n], t, longest)
    decreases |log|
  {
    n := |log| - 1;
    var p := log[..n];
    RowOfRun(budgets, log, n);
    assert log == p + [log[n]] == log[..n + 1];
    StepKeepsWorst(budgets, p, log[n], t, limit, longest);
    if Committed(p, t, Elapsed) > limit {
      n := WorstFromTheBreachOn(budgets, p, t, limit, longest);
      assert log[..n] == p[..n] && log[..n + 1] == p[..n + 1];
    }
  }

  /**
   If a run passed the elapsed cap, then one of its rows, `n`, took it past, and from there
   it has gone at most one longest settlement beyond the cap for each reservation open then.
   */
  lemma OneSettlementPerOpenReservation(budgets: Budgets, log: Log, t: Target, limit: real, longest: real)
    returns (n: nat)
    requires Reachable(budgets, log) && limit >= 0.0 && longest >= 0.0
    requires budgets(t.kind)(Elapsed) == Some(limit) && NoneLonger(log, t, longest)
    requires Committed(log, t, Elapsed) > limit
    ensures n < |log|
    ensures Committed(log[..n], t, Elapsed) <= limit < Committed(log[..n + 1], t, Elapsed)
    ensures Committed(log, t, Elapsed) <= limit + longest * |OpenPositions(log[..n], ClosedIds(log[..n]), t)| as real
  {
    n := WorstFromTheBreachOn(budgets, log, t, limit, longest);
    ElapsedAtMostWorst(log, t, longest);
    WorstAtTheBreach(log[..n], t, limit, longest);
  }

  lemma WorstAtTheBreach(log: Log, t: Target, limit: real, longest: real)
    requires Committed(log, t, Elapsed) <= limit && longest >= 0.0
    ensures Worst(log, t, longest) <= limit + longest * |OpenPositions(log, ClosedIds(log), t)| as real
  {
    ConcurrencyCountsOpenRows(log, ClosedIds(log), t);
    Scaled(longest, Committed(log, t, Concurrency), |OpenPositions(log, ClosedIds(log), t)| as real);
  }

  lemma ElapsedAtMostWorst(log: Log, t: Target, longest: real)
    requires longest >= 0.0
    ensures Committed(log, t, Elapsed) <= Worst(log, t, longest)
  {
    ConcurrencyCountsOpenRows(log, ClosedIds(log), t);
    Scaled(longest, 0.0, Committed(log, t, Concurrency));
  }

  /** So with a concurrency cap as well, elapsed time never passes its cap by more than the cap's worth of settlements. */
  lemma ElapsedIsBounded(budgets: Budgets, log: Log, t: Target, limit: real, slots: real, longest: real)
    requires Reachable(budgets, log) && limit >= 0.0 && slots >= 0.0 && longest >= 0.0
    requires budgets(t.kind)(Elapsed) == Some(limit) && budgets(t.kind)(Concurrency) == Some(slots)
    requires NoneLonger(log, t, longest)
    ensures Committed(log, t, Elapsed) <= limit + longest * slots
  {
    if Committed(log, t, Elapsed) > limit {
      var n := OneSettlementPerOpenReservation(budgets, log, t, limit, longest);
      RowOfRun(budgets, log, n);
      OpenReservationsNeverPassTheCap(budgets, log[..n], t, slots);
      Scaled(longest, |OpenPositions(log[..n], ClosedIds(log[..n]), t)| as real, slots);
    } else {
      Scaled(longest, 0.0, slots);
    }
  }

  lemma Scaled(factor: real, a: real, b: real)
    requires factor >= 0.0 && a <= b
    ensures factor * a <= factor * b
  {
    var more := b - a;
    assert factor * more >= 0.0;
    assert factor * (a + more) == factor * a + factor * more;
  }

  // ----- the bound is reached -----

  const WORKFLOW := Target(WorkflowScope, "w")

  /** Caps on elapsed time and concurrency only. */
  function TimeAndSlots(limit: nat, slots: nat): Budgets {
    kind => m => if m == Elapsed then Some(limit as real) else if m == Concurrency then Some(slots as real) else None
  }

  /** A run under these caps that has taken `elapsed` so far and has `open` reservations open. */
  ghost predicate Stands(limit: nat, slots: nat, longest: nat, log: Log, elapsed: nat, open: nat) {
    && Reachable(TimeAndSlots(limit, slots), log)
    && NoneLonger(log, WORKFLOW, longest as real)
    && Committed(log, WORKFLOW, Elapsed) == elapsed as real
    && Committed(log, WORKFLOW, Concurrency) == open as real
  }

  lemma OpenOneMore(limit: nat, slots: nat, longest: nat, log: Log, elapsed: nat, open: nat) returns (next: Log)
    requires Stands(limit, slots, longest, log, elapsed, open) && elapsed <= limit && open < slots
    ensures Stands(limit, slots, longest, next, elapsed, open + 1)
  {
    var budgets := TimeAndSlots(limit, slots);
    var id := FreshId(log);
    var row := Entry(id, Scope("w", None, None), Model, Reservation, id, "s", NO_USAGE, 0, None);
    next := log + [row];
    ReservationsCloseOnce(budgets, [], log);
    forall kind, m | kind in KindsFor(row.channel) && m in METRICS ensures FitsAt(budgets, log, row, kind, m) {
      assert kind == WorkflowScope ==> TargetOf(kind, row.scope) == Some(WORKFLOW);
    }
    assert Opens(log, row);
    ExtendsOne(budgets, [], log, row);
    CommittedAfterOpening(log, row, WORKFLOW, Elapsed);
    CommittedAfterOpening(log, row, WORKFLOW, Concurrency);
  }

  lemma SettleOne(limit: nat, slots: nat, longest: nat, log: Log, elapsed: nat, open: nat, ms: nat) returns (next: Log)
    requires Stands(limit, slots, longest, log, elapsed, open) && open > 0 && ms <= longest
    ensures Stands(limit, slots, longest, next, elapsed + ms, open - 1)
  {
    var budgets := TimeAndSlots(limit, slots);
    ReservationsCloseOnce(budgets, [], log);
    ConcurrencyCountsOpenRows(log, ClosedIds(log), WORKFLOW);
    var i :| i in OpenPositions(log, ClosedIds(log), WORKFLOW);
    var held := log[i];
    var row := Entry(FreshId(log), held.scope, held.channel, Settlement, held.reservationId, "s", NO_USAGE, ms, held.labelText);
    next := log + [row];
    assert Closes(log, held, row);
    ExtendsOne(budgets, [], log, row);
    ElapsedAfterClosing(log, held, row, WORKFLOW);
    CommittedAfterClosing(log, held, row, WORKFLOW, Concurrency);
    EstimateIsTheReservation(log, held, WORKFLOW, Concurrency);
  }

  /** One reservation of one millisecond after another, up to `elapsed`. */
  lemma {:induction false} TakeTime(limit: nat, slots: nat, longest: nat, elapsed: nat) returns (log: Log)
    requires slots >= 1 && longest >= 1 && elapsed <= limit
    ensures Stands(limit, slots, longest, log, elapsed, 0)
  {
    if elapsed == 0 {
      log := [];
    } else {
      var before := TakeTime(limit, slots, longest, elapsed - 1);
      var held := OpenOneMore(limit, slots, longest, before, elapsed - 1, 0);
      log := SettleOne(limit, slots, longest, held, elapsed - 1, 1, 1);
    }
  }

  lemma {:induction false} OpenAll(limit: nat, slots: nat, longest: nat, start: Log, k: nat) returns (log: Log)
    requires Stands(limit, slots, longest, start, limit, 0) && k <= slots
    ensures Stands(limit, slots, longest, log, limit, k)
  {
    if k == 0 {
      log := start;
    } else {
      var before := OpenAll(limit, slots, longest, start, k - 1);
      log := OpenOneMore(limit, slots, longest, before, limit, k - 1);
    }
  }

  lemma {:induction false} SettleAll(limit: nat, slots: nat, longest: nat, start: Log, elapsed: nat, k: nat) returns (log: Log)
    requires Stands(limit, slots, longest, start, elapsed, k)
    ensures Stands(limit, slots, longest, log, elapsed + longest * k, 0)
    decreases k
  {
    if k == 0 {
      log := start;
    } else {
      var next := SettleOne(limit, slots, longest, start, elapsed, k, longest);
      log := SettleAll(limit, slots, longest, next, elapsed + longest, k - 1);
      assert longest + longest * (k - 1) == longest * k;
    }
  }

  /** That bound is the least one: for any cap, any number of slots and any longest settlement a run reaches it. */
  lemma ElapsedBoundIsReached(limit: nat, slots: nat, longest: nat) returns (log: Log)
    requires slots >= 1 && longest >= 1
    ensures Reachable(TimeAndSlots(limit, slots), log) && NoneLonger(log, WORKFLOW, longest as real)
    ensures Committed(log, WORKFLOW, Elapsed) == (limit + longest * slots) as real
  {
    var start := TakeTime(limit, slots, longest, limit);
    var full := OpenAll(limit, slots, longest, start, slots);
    log := SettleAll(limit, slots, longest, full, limit, slots);
  }

  // ----- which refusals can clear -----

  /** On some reachable ledger a request is refused under `m` now, and some continuation makes room for it. */
  ghost predicate RefusalCanClear(m: Metric) {
    exists budgets, log, t, limit, requested :: ClearingRefusal(budgets, log, t, m, limit, requested)
  }

  ghost predicate ClearingRefusal(budgets: Budgets, log: Log, t: Target, m: Metric, limit: real, requested: real) {
    && Reachable(budgets, log) && budgets(t.kind)(m) == Some(limit)
    && Committed(log, t, m) + requested > limit
    && !RefusedForever(budgets, log, t, m, limit, requested)
  }

  /** Elapsed time is the only cap of the five whose refusals are all permanent. */
  lemma OnlyElapsedRefusalsArePermanent(m: Metric)
    ensures RefusalCanClear(m) <==> m != Elapsed
  {
    if m == Elapsed {
      forall budgets, log, t, limit, requested ensures !ClearingRefusal(budgets, log, t, m, limit, requested) {
        if Reachable(budgets, log) {
          ReservationsCloseOnce(budgets, [], log);
          ElapsedIsNeverGivenBack(log, ClosedIds(log), t);
          RefusalIsPermanentIffClosedRowsRefuse(budgets, log, t, m, limit, requested);
        }
      }
    } else {
      ReleaseClears(m);
    }
  }

  /** A cap of one unit on `m` alone, and a reservation that takes it up. */
  function OneUnit(m: Metric): Budgets {
    kind => other => if other == m then Some(1.0) else None
  }

  const UNIT := Entry("r", Scope("w", None, None), Model, Reservation, "r", "s", Usage(Some(1), None, 1, Some(1.0), Known), 0, None)

  lemma UnitIsAdmitted(m: Metric)
    requires m != Elapsed
    ensures Reachable(OneUnit(m), [] + [UNIT])
  {
    assert Committed([], WORKFLOW, m) == 0.0 && Amount(m, UNIT) == 1.0;
    forall kind, other | kind in KindsFor(UNIT.channel) && other in METRICS ensures FitsAt(OneUnit(m), [], UNIT, kind, other) {
      assert kind == WorkflowScope ==> TargetOf(kind, UNIT.scope) == Some(WORKFLOW);
    }
    assert Extends(OneUnit(m), [], []);
    ExtendsOne(OneUnit(m), [], [], UNIT);
  }

  /** With one unit taken a second is refused, and admitted once the first is released. */
  lemma ReleaseClears(m: Metric)
    requires m != Elapsed
    ensures RefusalCanClear(m)
  {
    UnitIsAdmitted(m);
    CommittedAfterOpening([], UNIT, WORKFLOW, m);
    var log := [] + [UNIT];
    assert Committed([], WORKFLOW, m) == 0.0;
    NothingClosedYet(WORKFLOW, m);
    ReservationsCloseOnce(OneUnit(m), [], log);
    RefusalIsPermanentIffClosedRowsRefuse(OneUnit(m), log, WORKFLOW, m, 1.0, 1.0);
    assert ClearingRefusal(OneUnit(m), log, WORKFLOW, m, 1.0, 1.0);
  }

  lemma NothingClosedYet(t: Target, m: Metric)
    ensures ClosedTotal([] + [UNIT], t, m) == 0.0
  {
    assert ([] + [UNIT])[..0] == [];
  }
}
