/**
 What holds of every ledger the system can reach: the log is its own history, so
 the reachable logs are those in which every row was admitted by the rows before it.
 */
module LedgerRuns {
  import opened Prelude
  import opened LedgerLog

  const METRICS: seq<Metric> := [Spend, Tokens, Requests, Concurrency, Elapsed]

  /** The scope kinds whose caps a charge on a channel draws on, in checking order. */
  function KindsFor(channel: Channel): seq<ScopeKind> {
    (if channel == Jev then [JevScope] else []) + [WorkflowScope, PhaseScope, TaskScope]
  }

  function TargetOf(kind: ScopeKind, scope: Scope): Option<Target> {
    match kind
    case JevScope => Some(Target(kind, scope.workflowId))
    case WorkflowScope => Some(Target(kind, scope.workflowId))
    case PhaseScope => if scope.phaseId.None? then None else Some(Target(kind, scope.phaseId.value))
    case TaskScope => if scope.taskId.None? then None else Some(Target(kind, scope.taskId.value))
  }

  /** One cap check: does adding `requested` to what is committed stay within the limit, if there is one? */
  predicate Fits(budgets: Budgets, log: Log, t: Target, m: Metric, requested: real) {
    var limit := budgets(t.kind)(m);
    limit.None? || Committed(log, t, m) + requested <= limit.value
  }

  predicate FitsAt(budgets: Budgets, log: Log, row: Entry, kind: ScopeKind, m: Metric) {
    var t := TargetOf(kind, row.scope);
    t.None? || Fits(budgets, log, t.value, m, Amount(m, row))
  }

  predicate WithinCaps(budgets: Budgets, log: Log, row: Entry) {
    forall kind, m :: kind in KindsFor(row.channel) && m in METRICS ==> FitsAt(budgets, log, row, kind, m)
  }

  ghost predicate ClosesSome(log: Log, row: Entry) {
    exists open :: Closes(log, open, row)
  }

  ghost predicate Admitted(budgets: Budgets, log: Log, row: Entry) {
    (Opens(log, row) && WithinCaps(budgets, log, row)) || ClosesSome(log, row)
  }

  ghost predicate AdmittedAt(budgets: Budgets, log: Log, n: nat)
    requires n < |log|
  {
    Admitted(budgets, log[..n], log[n])
  }

  /** `later` extends `log` by admitted rows only. */
  ghost predicate Extends(budgets: Budgets, log: Log, later: Log) {
    && |log| <= |later| && later[..|log|] == log
    && forall n: nat {:trigger AdmittedAt(budgets, later, n)} :: |log| <= n < |later| ==> AdmittedAt(budgets, later, n)
  }

  /** The logs reachable from an empty ledger. */
  ghost predicate Reachable(budgets: Budgets, log: Log) {
    Extends(budgets, [], log)
  }

  lemma ExtendsOne(budgets: Budgets, log: Log, later: Log, row: Entry)
    requires Extends(budgets, log, later) && Admitted(budgets, later, row)
    ensures Extends(budgets, log, later + [row])
  {
    var next := later + [row];
    forall n: nat | |log| <= n < |next| ensures AdmittedAt(budgets, next, n) {
      assert next[..n] == later[..n];
      assert n < |later| ==> AdmittedAt(budgets, later, n);
    }
    assert next[..|log|] == later[..|log|];
  }

  lemma ExtendsTransitive(budgets: Budgets, a: Log, b: Log, c: Log)
    requires Extends(budgets, a, b) && Extends(budgets, b, c)
    ensures Extends(budgets, a, c)
  {
    assert c[..|a|] == b[..|a|];
    forall n: nat | |a| <= n < |c| ensures AdmittedAt(budgets, c, n) {
      if n < |b| {
        assert c[..n] == b[..n] && c[n] == c[..|b|][n];
        assert AdmittedAt(budgets, b, n);
      }
    }
  }

  lemma ExtendsPrefix(budgets: Budgets, log: Log, later: Log)
    requires Extends(budgets, log, later) && |log| < |later|
    ensures Extends(budgets, log, later[..|later| - 1])
    ensures Admitted(budgets, later[..|later| - 1], later[|later| - 1])
  {
    var p := later[..|later| - 1];
    assert p[..|log|] == later[..|log|];
    forall n: nat | |log| <= n < |p| ensures AdmittedAt(budgets, p, n) {
      assert p[..n] == later[..n];
      assert AdmittedAt(budgets, later, n);
    }
    assert AdmittedAt(budgets, later, |later| - 1);
  }

  lemma AdmittedKeepsWellFormed(budgets: Budgets, log: Log, row: Entry)
    requires WellFormed(log) && Admitted(budgets, log, row)
    ensures WellFormed(log + [row])
  {
    if ClosesSome(log, row) {
      var open :| Closes(log, open, row);
      ClosingKeepsWellFormed(log, open, row);
    } else {
      OpeningKeepsWellFormed(log, row);
    }
  }

  /** Exactly once: in every later log each reservation has one reservation row and at most one terminal row. */
  lemma {:induction false} ReservationsCloseOnce(budgets: Budgets, log: Log, later: Log)
    requires WellFormed(log) && Extends(budgets, log, later)
    ensures WellFormed(later)
    decreases |later|
  {
    if |log| == |later| {
      assert later[..|log|] == later;
    } else {
      var n := |later| - 1;
      ExtendsPrefix(budgets, log, later);
      ReservationsCloseOnce(budgets, log, later[..n]);
      AdmittedKeepsWellFormed(budgets, later[..n], later[n]);
      assert later[..n] + [later[n]] == later;
    }
  }

  lemma MatchingTargetIsChecked(t: Target, row: Entry)
    requires Matches(t, row)
    ensures TargetOf(t.kind, row.scope) == Some(t) && t.kind in KindsFor(row.channel)
  {
  }

  lemma EveryMetricIsChecked(m: Metric)
    ensures m in METRICS
  {
  }

  /** And only those: every target checked for a row is one the row is charged to. */
  lemma CheckedTargetMatches(t: Target, row: Entry)
    requires t.kind in KindsFor(row.channel) && TargetOf(t.kind, row.scope) == Some(t)
    ensures Matches(t, row)
  {
  }

  /** What a row is charged to, by its scope and channel; a Jev call counts for its workflow's Jev scope as well. */
  lemma ChargedScopes(row: Entry, id: string)
    ensures Matches(Target(WorkflowScope, id), row) <==> id == row.scope.workflowId
    ensures Matches(Target(JevScope, id), row) <==> id == row.scope.workflowId && row.channel == Jev
    ensures Matches(Target(PhaseScope, id), row) <==> row.scope.phaseId == Some(id)
    ensures Matches(Target(TaskScope, id), row) <==> row.scope.taskId == Some(id)
  {
  }

  /** The row fits under the cap that a scope has for a metric. */
  predicate FitsUnder(log: Log, row: Entry, t: Target, m: Metric, limit: real) {
    Committed(log, t, m) + Amount(m, row) <= limit
  }

  /** A row is within the caps exactly when it fits under every cap of every scope it is charged to. */
  lemma WithinCapsExactly(budgets: Budgets, log: Log, row: Entry)
    ensures WithinCaps(budgets, log, row)
       <==> forall t, m, limit :: Matches(t, row) && budgets(t.kind)(m) == Some(limit) ==> FitsUnder(log, row, t, m, limit)
  {
    if WithinCaps(budgets, log, row) {
      forall t, m, limit | Matches(t, row) && budgets(t.kind)(m) == Some(limit) ensures FitsUnder(log, row, t, m, limit) {
        MatchingTargetIsChecked(t, row);
        EveryMetricIsChecked(m);
        assert FitsAt(budgets, log, row, t.kind, m);
      }
    }
    if forall t, m, limit :: Matches(t, row) && budgets(t.kind)(m) == Some(limit) ==> FitsUnder(log, row, t, m, limit) {
      forall kind, m | kind in KindsFor(row.channel) && m in METRICS ensures FitsAt(budgets, log, row, kind, m) {
        CheckedKindFits(budgets, log, row, kind, m);
      }
    }
  }

  lemma CheckedKindFits(budgets: Budgets, log: Log, row: Entry, kind: ScopeKind, m: Metric)
    requires kind in KindsFor(row.channel)
    requires forall t, limit :: Matches(t, row) && budgets(t.kind)(m) == Some(limit) ==> FitsUnder(log, row, t, m, limit)
    ensures FitsAt(budgets, log, row, kind, m)
  {
    var t := TargetOf(kind, row.scope);
    if t.Some? {
      CheckedTargetMatches(t.value, row);
      if budgets(kind)(m).Some? {
        assert FitsUnder(log, row, t.value, m, budgets(kind)(m).value);
      }
    }
  }

  /** The Jev caps concern Jev calls only: budgets that agree on the other scopes admit the same model calls. */
  lemma ModelCallsIgnoreJevCaps(a: Budgets, b: Budgets, log: Log, row: Entry)
    requires row.channel == Model && forall kind :: kind != JevScope ==> a(kind) == b(kind)
    ensures WithinCaps(a, log, row) <==> WithinCaps(b, log, row)
  {
    forall kind, m | kind in KindsFor(row.channel) && m in METRICS
      ensures FitsAt(a, log, row, kind, m) <==> FitsAt(b, log, row, kind, m) {
    }
  }

  /** A cap holds up to what settlements used beyond their estimates. */
  ghost predicate CapKept(log: Log, t: Target, m: Metric, limit: real) {
    Committed(log, t, m) <= limit + Overrun(log, t, m)
  }

  lemma CapKeptByOneRow(budgets: Budgets, log: Log, row: Entry, t: Target, m: Metric, limit: real)
    requires WellFormed(log) && Admitted(budgets, log, row)
    requires budgets(t.kind)(m) == Some(limit)
    requires CapKept(log, t, m, limit)
    ensures CapKept(log + [row], t, m, limit)
  {
    assert (log + [row])[..|log|] == log;
    OverrunNonNegative(log, t, m);
    if ClosesSome(log, row) {
      var open :| Closes(log, open, row);
      CommittedAfterClosing(log, open, row, t, m);
      EstimateNonNegative(log, row.reservationId, t, m);
      EstimateIsTheReservation(log, open, t, m);
      if row.kind.Abandonment? {
        assert Matches(t, open) == Matches(t, row);
      }
    } else {
      CommittedAfterOpening(log, row, t, m);
      if Matches(t, row) {
        MatchingTargetIsChecked(t, row);
        EveryMetricIsChecked(m);
        assert FitsAt(budgets, log, row, t.kind, m);
      }
    }
  }

  lemma {:induction false} OverrunNonNegative(log: Log, t: Target, m: Metric)
    ensures Overrun(log, t, m) >= 0.0
  {
    if log != [] {
      OverrunNonNegative(log[..|log| - 1], t, m);
    }
  }

  /**
   Every cap holds on every reachable ledger, up to what settlements used beyond
   their own estimates: with no overrun the caps are hard limits.
   */
  lemma {:induction false} CapsHold(budgets: Budgets, log: Log, t: Target, m: Metric, limit: real)
    requires Reachable(budgets, log) && limit >= 0.0
    requires budgets(t.kind)(m) == Some(limit)
    ensures CapKept(log, t, m, limit)
    decreases |log|
  {
    if log != [] {
      var n := |log| - 1;
      ExtendsPrefix(budgets, [], log);
      CapsHold(budgets, log[..n], t, m, limit);
      ReservationsCloseOnce(budgets, [], log[..n]);
      CapKeptByOneRow(budgets, log[..n], log[n], t, m, limit);
      assert log[..n] + [log[n]] == log;
    }
  }

  /** However settlements come out, a scope never has more open reservations than its concurrency cap. */
  lemma OpenReservationsNeverPassTheCap(budgets: Budgets, log: Log, t: Target, limit: real)
    requires Reachable(budgets, log) && limit >= 0.0
    requires budgets(t.kind)(Concurrency) == Some(limit)
    ensures |OpenPositions(log, ClosedIds(log), t)| as real <= limit
  {
    CapsHold(budgets, log, t, Concurrency, limit);
    ReservationsCloseOnce(budgets, [], log);
    NoConcurrencyOverrun(log, t);
    ConcurrencyCountsOpenRows(log, ClosedIds(log), t);
  }

  // ----- when is a refusal permanent? -----

  /** No admitted continuation of the log ever makes room for `requested`. */
  ghost predicate RefusedForever(budgets: Budgets, log: Log, t: Target, m: Metric, limit: real, requested: real) {
    forall later :: Extends(budgets, log, later) ==> Committed(later, t, m) + requested > limit
  }

  lemma {:induction false} ClosedTotalGrows(budgets: Budgets, log: Log, later: Log, t: Target, m: Metric)
    requires WellFormed(log) && Extends(budgets, log, later)
    ensures ClosedTotal(log, t, m) <= ClosedTotal(later, t, m)
    decreases |later|
  {
    if |log| == |later| {
      assert later[..|log|] == later;
    } else {
      var n := |later| - 1;
      ExtendsPrefix(budgets, log, later);
      ClosedTotalGrows(budgets, log, later[..n], t, m);
      ReservationsCloseOnce(budgets, log, later);
      assert HonestRow(later[n]);
    }
  }

  function LongestId(log: Log): (n: nat)
    ensures forall e :: e in log ==> |e.id| <= n
  {
    if log == [] then 0
    else
      var rest := LongestId(log[..|log| - 1]);
      assert forall e :: e in log ==> e in log[..|log| - 1] || e == log[|log| - 1];
      if |log[|log| - 1].id| > rest then |log[|log| - 1].id| else rest
  }

  function FreshId(log: Log): (id: string)
    ensures forall e :: e in log ==> e.id != id
  {
    seq(LongestId(log) + 1, i => 'x')
  }

  function OpenIds(log: Log): set<string> {
    set e | e in log && e.kind.Reservation? && e.reservationId !in ClosedIds(log) :: e.reservationId
  }

  const NO_USAGE := Usage(Some(0), Some(0), 0, Some(0.0), Known)

  function ReleaseRow(id: string, open: Entry, sessionId: string): Entry {
    Entry(id, open.scope, open.channel, Release, open.reservationId, sessionId, NO_USAGE, 0, open.labelText)
  }

  lemma NothingOpen(log: Log, t: Target, m: Metric)
    requires OpenIds(log) == {}
    ensures Committed(log, t, m) == ClosedTotal(log, t, m)
  {
    forall i | 0 <= i < |log| && log[i].kind.Reservation? ensures log[i].reservationId in ClosedIds(log) {
      assert log[i].reservationId !in OpenIds(log);
    }
    CommittedWhenNothingIsOpen(log, ClosedIds(log), t, m);
  }

  lemma ReleaseOne(budgets: Budgets, log: Log, open: Entry) returns (row: Entry)
    requires WellFormed(log) && IsOpen(log, open)
    ensures row.kind.Release? && Closes(log, open, row)
    ensures Extends(budgets, log, log + [row])
    ensures forall t, m :: ClosedTotal(log + [row], t, m) == ClosedTotal(log, t, m)
  {
    row := ReleaseRow(FreshId(log), open, "");
    assert Closes(log, open, row);
    assert Extends(budgets, log, log);
    ExtendsOne(budgets, log, log, row);
    assert (log + [row])[..|log|] == log;
  }

  /** Releasing every open reservation is an admitted continuation, and leaves only the closed total. */
  lemma {:induction false} ReleaseEverything(budgets: Budgets, log: Log, t: Target, m: Metric) returns (later: Log)
    requires WellFormed(log)
    ensures Extends(budgets, log, later)
    ensures Committed(later, t, m) == ClosedTotal(log, t, m)
    decreases |OpenIds(log)|
  {
    if OpenIds(log) == {} {
      later := log;
      NothingOpen(log, t, m);
    } else {
      var open :| open in log && open.kind.Reservation? && open.reservationId !in ClosedIds(log);
      var row := ReleaseOne(budgets, log, open);
      ReleasingShrinksOpenIds(log, open, row);
      later := ReleaseEverything(budgets, log + [row], t, m);
      ExtendsTransitive(budgets, log, log + [row], later);
    }
  }

  lemma ReleasingShrinksOpenIds(log: Log, open: Entry, row: Entry)
    requires WellFormed(log) && Closes(log, open, row)
    ensures WellFormed(log + [row])
    ensures |OpenIds(log + [row])| < |OpenIds(log)|
  {
    ClosingKeepsWellFormed(log, open, row);
    var rid := row.reservationId;
    assert rid in OpenIds(log);
    forall id | id in OpenIds(log + [row]) ensures id in OpenIds(log) - {rid} {
      var e :| e in log + [row] && IsOpen(log + [row], e) && e.reservationId == id;
      assert e in log;
    }
    SubsetIsSmaller(OpenIds(log + [row]), OpenIds(log) - {rid});
  }

  lemma {:induction false} SubsetIsSmaller<T>(a: set<T>, b: set<T>)
    requires a <= b
    ensures |a| <= |b|
  {
    if a != {} {
      var x :| x in a;
      SubsetIsSmaller(a - {x}, b - {x});
    }
  }

  /**
   A refused request stays refused whatever happens next exactly when the closed rows
   alone leave no room for it: open estimates may still be released.
   */
  lemma RefusalIsPermanentIffClosedRowsRefuse(
    budgets: Budgets, log: Log, t: Target, m: Metric, limit: real, requested: real)
    requires WellFormed(log)
    ensures RefusedForever(budgets, log, t, m, limit, requested)
       <==> ClosedTotal(log, t, m) + requested > limit
  {
    if ClosedTotal(log, t, m) + requested > limit {
      forall later | Extends(budgets, log, later) ensures Committed(later, t, m) + requested > limit {
        ClosedTotalGrows(budgets, log, later, t, m);
        ReservationsCloseOnce(budgets, log, later);
        CommittedAtLeastClosed(later, ClosedIds(later), t, m);
      }
    } else {
      var later := ReleaseEverything(budgets, log, t, m);
    }
  }

  /** Elapsed time is never charged by an open reservation, so a breach of that cap never clears. */
  lemma {:induction false} ElapsedIsNeverGivenBack(log: Log, closed: set<string>, t: Target)
    requires ReservationsOwnTheirId(log)
    ensures SumCounted(log, closed, t, Elapsed) == ClosedTotal(log, t, Elapsed)
  {
    if log != [] {
      ElapsedIsNeverGivenBack(log[..|log| - 1], closed, t);
    }
  }
}
