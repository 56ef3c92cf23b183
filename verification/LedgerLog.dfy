/**
 The append-only usage ledger as a value: its rows, the totals that budget
 enforcement derives from them, and the effect of appending one row.

 Amounts are exact reals; the five caps of a scope are treated uniformly as five
 metrics, `Concurrency` being the number of reservations still open.
 */
module LedgerLog {
  import opened Prelude

  datatype CostBasis = Known | Estimated | Unknown

  datatype Usage = Usage(
    inputTokens: Option<int>,
    outputTokens: Option<int>,
    requests: int,
    spendUsd: Option<real>,
    costBasis: CostBasis)

  datatype Channel = Model | Jev

  datatype Scope = Scope(workflowId: string, phaseId: Option<string>, taskId: Option<string>)

  datatype EntryKind = Reservation | Settlement | Release | Abandonment

  datatype Entry = Entry(
    id: string,
    scope: Scope,
    channel: Channel,
    kind: EntryKind,
    reservationId: string,
    sessionId: string,
    usage: Usage,
    elapsedMs: int,
    labelText: Option<string>)

  type Log = seq<Entry>

  datatype ScopeKind = JevScope | WorkflowScope | PhaseScope | TaskScope

  datatype Target = Target(kind: ScopeKind, id: string)

  datatype Metric = Spend | Tokens | Requests | Concurrency | Elapsed

  /** The caps of one scope kind; `None` is "no cap of this kind". */
  type Budget = Metric -> Option<real>

  type Budgets = ScopeKind -> Budget

  // ----- totals -----

  function TokensOf(usage: Usage): int {
    (if usage.inputTokens.Some? then usage.inputTokens.value else 0)
    + (if usage.outputTokens.Some? then usage.outputTokens.value else 0)
  }

  /** What one row carries of a metric. A reservation occupies one concurrency slot. */
  function Amount(m: Metric, e: Entry): real {
    match m
    case Spend => if e.usage.spendUsd.Some? then e.usage.spendUsd.value else 0.0
    case Tokens => TokensOf(e.usage) as real
    case Requests => e.usage.requests as real
    case Concurrency => if e.kind.Reservation? then 1.0 else 0.0
    case Elapsed => e.elapsedMs as real
  }

  predicate Matches(t: Target, e: Entry) {
    match t.kind
    case JevScope => e.scope.workflowId == t.id && e.channel == Jev
    case WorkflowScope => e.scope.workflowId == t.id
    case PhaseScope => e.scope.phaseId == Some(t.id)
    case TaskScope => e.scope.taskId == Some(t.id)
  }

  /** Reservations that have a terminal row. */
  function ClosedIds(log: Log): set<string> {
    set e | e in log && !e.kind.Reservation? :: e.reservationId
  }

  predicate IsOpen(log: Log, e: Entry) {
    e in log && e.kind.Reservation? && e.reservationId !in ClosedIds(log)
  }

  predicate Counts(e: Entry, closed: set<string>) {
    e.kind.Settlement? || e.kind.Abandonment? || (e.kind.Reservation? && e.reservationId !in closed)
  }

  function SumCounted(rows: Log, closed: set<string>, t: Target, m: Metric): real {
    if rows == [] then 0.0
    else
      var last := rows[|rows| - 1];
      SumCounted(rows[..|rows| - 1], closed, t, m)
      + if Matches(t, last) && Counts(last, closed) then Amount(m, last) else 0.0
  }

  /** Settled and abandoned amounts plus the estimates of reservations still open. */
  function Committed(log: Log, t: Target, m: Metric): real {
    SumCounted(log, ClosedIds(log), t, m)
  }

  /** The part of `Committed` that can never be given back: settled and abandoned rows. */
  function ClosedTotal(log: Log, t: Target, m: Metric): real {
    if log == [] then 0.0
    else
      var last := log[|log| - 1];
      ClosedTotal(log[..|log| - 1], t, m)
      + if Matches(t, last) && (last.kind.Settlement? || last.kind.Abandonment?) then Amount(m, last) else 0.0
  }

  /** The estimate reserved under `rid`, as far as it is charged to `t`. */
  function EstimateFor(rows: Log, rid: string, t: Target, m: Metric): real {
    if rows == [] then 0.0
    else
      var last := rows[|rows| - 1];
      EstimateFor(rows[..|rows| - 1], rid, t, m)
      + if Matches(t, last) && last.kind.Reservation? && last.reservationId == rid then Amount(m, last) else 0.0
  }

  /** By how much settlements charged to `t` exceeded their own estimates, in total. */
  function Overrun(log: Log, t: Target, m: Metric): real {
    if log == [] then 0.0
    else
      var last := log[|log| - 1];
      var before := log[..|log| - 1];
      Overrun(before, t, m)
      + if Matches(t, last) && last.kind.Settlement?
        then PositivePart(Amount(m, last) - EstimateFor(before, last.reservationId, t, m))
        else 0.0
  }

  function PositivePart(x: real): real {
    if x > 0.0 then x else 0.0
  }

  /** A running counter: what an incremental implementation would keep instead of summing the log. */
  function Running(log: Log, t: Target, m: Metric): real {
    if log == [] then 0.0
    else
      var last := log[|log| - 1];
      var before := log[..|log| - 1];
      var estimate := EstimateFor(before, last.reservationId, t, m);
      Running(before, t, m)
      + match last.kind
        case Reservation => if Matches(t, last) then Amount(m, last) else 0.0
        case Release => -estimate
        case _ => (if Matches(t, last) then Amount(m, last) else 0.0) - estimate
  }

  // ----- well-formed logs -----

  ghost predicate HonestRow(e: Entry) {
    && (e.usage.inputTokens.Some? ==> e.usage.inputTokens.value >= 0)
    && (e.usage.outputTokens.Some? ==> e.usage.outputTokens.value >= 0)
    && e.usage.requests >= 0
    && (e.usage.spendUsd.Some? ==> e.usage.spendUsd.value >= 0.0)
    && (e.usage.costBasis.Unknown? <==> e.usage.spendUsd.None?)
    && e.elapsedMs >= 0
  }

  /** A terminal row charges the scope, channel and label of its reservation; an abandonment keeps the estimate too. */
  predicate Corresponds(reservation: Entry, terminal: Entry) {
    && reservation.reservationId == terminal.reservationId
    && reservation.scope == terminal.scope
    && reservation.channel == terminal.channel
    && reservation.labelText == terminal.labelText
    && (terminal.kind.Abandonment? ==>
          terminal.usage == reservation.usage && terminal.elapsedMs == reservation.elapsedMs)
  }

  ghost predicate DistinctIds(log: Log) {
    forall i, j :: 0 <= i < j < |log| ==> log[i].id != log[j].id
  }

  /** A reservation row is filed under its own id and carries no elapsed time. */
  ghost predicate ReservationsOwnTheirId(log: Log) {
    forall i :: 0 <= i < |log| && log[i].kind.Reservation? ==>
                  log[i].reservationId == log[i].id && log[i].elapsedMs == 0
  }

  ghost predicate OneTerminalEach(log: Log) {
    forall i, j :: 0 <= i < j < |log| && !log[i].kind.Reservation? && !log[j].kind.Reservation? ==>
                     log[i].reservationId != log[j].reservationId
  }

  /** A terminal row comes after the reservation it closes and charges the same scope and channel. */
  ghost predicate TerminalsFollow(log: Log) {
    forall j: nat {:trigger FollowsAt(log, j)} :: j < |log| ==> FollowsAt(log, j)
  }

  ghost predicate FollowsAt(log: Log, j: nat)
    requires j < |log|
  {
    log[j].kind.Reservation? || HasReservation(log[..j], log[j])
  }

  ghost predicate RowsHonest(log: Log) {
    forall i :: 0 <= i < |log| ==> HonestRow(log[i]) && (log[i].kind.Release? ==> IsZero(log[i]))
  }

  /** Exactly-once: every reservation has one reservation row and at most one, later, terminal row. */
  ghost predicate WellFormed(log: Log) {
    && RowsHonest(log)
    && DistinctIds(log)
    && ReservationsOwnTheirId(log)
    && OneTerminalEach(log)
    && TerminalsFollow(log)
  }

  ghost predicate HasReservation(before: Log, terminal: Entry) {
    exists i :: 0 <= i < |before| && before[i].kind.Reservation? && Corresponds(before[i], terminal)
  }

  /** A release row charges nothing. */
  predicate IsZero(e: Entry) {
    e.usage.requests == 0 && e.usage.spendUsd == Some(0.0) && TokensOf(e.usage) == 0 && e.elapsedMs == 0
  }

  /** The row can close reservation `open` of a well-formed log. */
  ghost predicate Closes(log: Log, open: Entry, row: Entry) {
    && IsOpen(log, open)
    && !row.kind.Reservation?
    && Corresponds(open, row)
    && HonestRow(row)
    && (row.kind.Release? ==> IsZero(row))
    && (forall e :: e in log ==> e.id != row.id)
  }

  ghost predicate Opens(log: Log, row: Entry) {
    && row.kind.Reservation?
    && row.reservationId == row.id
    && row.elapsedMs == 0
    && HonestRow(row)
    && (forall e :: e in log ==> e.id != row.id)
  }

  lemma WellFormedPrefix(log: Log, n: nat)
    requires WellFormed(log) && n <= |log|
    ensures WellFormed(log[..n])
  {
    var p := log[..n];
    forall j: nat | j < |p| ensures FollowsAt(p, j) {
      assert p[..j] == log[..j];
      assert FollowsAt(log, j);
    }
  }

  lemma TerminalsFollowAfter(log: Log, row: Entry)
    requires TerminalsFollow(log) && (row.kind.Reservation? || HasReservation(log, row))
    ensures TerminalsFollow(log + [row])
  {
    var next := log + [row];
    forall j: nat | j < |next| ensures FollowsAt(next, j) {
      assert next[..j] == log[..j];
      assert log[..|log|] == log;
      assert j < |log| ==> FollowsAt(log, j);
    }
  }

  /** A fresh id names no closed reservation. */
  lemma FreshIdIsNotClosed(log: Log, id: string)
    requires TerminalsFollow(log) && ReservationsOwnTheirId(log)
    requires forall e :: e in log ==> e.id != id
    ensures id !in ClosedIds(log)
  {
    forall e | e in log && !e.kind.Reservation? ensures e.reservationId != id {
      var j: nat :| j < |log| && log[j] == e;
      assert FollowsAt(log, j);
      var i :| 0 <= i < j && log[..j][i].kind.Reservation? && log[..j][i].reservationId == e.reservationId;
      assert log[i] in log;
    }
  }

  lemma OpeningKeepsWellFormed(log: Log, row: Entry)
    requires WellFormed(log) && Opens(log, row)
    ensures WellFormed(log + [row])
    ensures row.id !in ClosedIds(log)
  {
    TerminalsFollowAfter(log, row);
    FreshIdIsNotClosed(log, row.id);
    assert DistinctIds(log + [row]);
  }

  lemma OneTerminalAfter(log: Log, row: Entry)
    requires OneTerminalEach(log) && row.reservationId !in ClosedIds(log)
    ensures OneTerminalEach(log + [row])
  {
  }

  lemma ClosingKeepsWellFormed(log: Log, open: Entry, row: Entry)
    requires WellFormed(log) && Closes(log, open, row)
    ensures WellFormed(log + [row])
    ensures ClosedIds(log + [row]) == ClosedIds(log) + {row.reservationId}
  {
    var i :| 0 <= i < |log| && log[i] == open;
    assert HasReservation(log, row);
    TerminalsFollowAfter(log, row);
    OneTerminalAfter(log, row);
    assert row in log + [row];
    assert DistinctIds(log + [row]);
  }

  /** Distinct row ids make reservation rows distinct too. */
  lemma OneReservationEach(log: Log, a: Entry, b: Entry)
    requires WellFormed(log) && a in log && b in log
    requires a.kind.Reservation? && b.kind.Reservation? && a.reservationId == b.reservationId
    ensures a == b
  {
  }

  // ----- effect of one appended row on the totals -----

  lemma {:induction false} SumAfterClosing(rows: Log, closed: set<string>, rid: string, t: Target, m: Metric)
    requires rid !in closed
    ensures SumCounted(rows, closed + {rid}, t, m)
         == SumCounted(rows, closed, t, m) - EstimateFor(rows, rid, t, m)
  {
    if rows != [] {
      SumAfterClosing(rows[..|rows| - 1], closed, rid, t, m);
    }
  }

  lemma CommittedAfterOpening(log: Log, row: Entry, t: Target, m: Metric)
    requires WellFormed(log) && Opens(log, row)
    ensures Committed(log + [row], t, m)
         == Committed(log, t, m) + if Matches(t, row) then Amount(m, row) else 0.0
  {
    OpeningKeepsWellFormed(log, row);
    var next := log + [row];
    assert next[..|next| - 1] == log;
    assert ClosedIds(next) == ClosedIds(log);
  }

  /** The five totals of a scope after a reservation charged to it: its estimate, one slot, and no time. */
  lemma OpeningAddsItsEstimate(log: Log, row: Entry, t: Target)
    requires WellFormed(log) && Opens(log, row) && Matches(t, row)
    ensures var u := row.usage; var next := log + [row];
            && Committed(next, t, Spend) == Committed(log, t, Spend) + (if u.spendUsd.Some? then u.spendUsd.value else 0.0)
            && Committed(next, t, Tokens) == Committed(log, t, Tokens)
                 + ((if u.inputTokens.Some? then u.inputTokens.value else 0) + (if u.outputTokens.Some? then u.outputTokens.value else 0)) as real
            && Committed(next, t, Requests) == Committed(log, t, Requests) + u.requests as real
            && Committed(next, t, Concurrency) == Committed(log, t, Concurrency) + 1.0
            && Committed(next, t, Elapsed) == Committed(log, t, Elapsed)
  {
    CommittedAfterOpening(log, row, t, Spend);
    CommittedAfterOpening(log, row, t, Tokens);
    CommittedAfterOpening(log, row, t, Requests);
    CommittedAfterOpening(log, row, t, Concurrency);
    CommittedAfterOpening(log, row, t, Elapsed);
  }

  lemma SumWithTerminal(rows: Log, closed: set<string>, row: Entry, t: Target, m: Metric)
    requires row.reservationId !in closed && !row.kind.Reservation?
    ensures SumCounted(rows + [row], closed + {row.reservationId}, t, m)
         == SumCounted(rows, closed, t, m) - EstimateFor(rows, row.reservationId, t, m)
            + if Matches(t, row) && !row.kind.Release? then Amount(m, row) else 0.0
  {
    var next := rows + [row];
    assert next[..|next| - 1] == rows;
    SumAfterClosing(rows, closed, row.reservationId, t, m);
  }

  /** Closing replaces the estimate by the terminal row's amount; a release gives it back. */
  lemma CommittedAfterClosing(log: Log, open: Entry, row: Entry, t: Target, m: Metric)
    requires WellFormed(log) && Closes(log, open, row)
    ensures Committed(log + [row], t, m)
         == Committed(log, t, m) - EstimateFor(log, row.reservationId, t, m)
            + if Matches(t, row) && !row.kind.Release? then Amount(m, row) else 0.0
  {
    ClosingKeepsWellFormed(log, open, row);
    SumWithTerminal(log, ClosedIds(log), row, t, m);
  }

  /** In a well-formed log the reserved estimate is the amount of the one reservation row. */
  lemma {:induction false} EstimateIsTheReservation(log: Log, open: Entry, t: Target, m: Metric)
    requires WellFormed(log) && open in log && open.kind.Reservation?
    ensures EstimateFor(log, open.reservationId, t, m) == if Matches(t, open) then Amount(m, open) else 0.0
  {
    var n := |log| - 1;
    var before, last := log[..n], log[n];
    WellFormedPrefix(log, n);
    if last == open {
      assert forall i :: 0 <= i < n && log[i].kind.Reservation? ==> log[i].id != log[n].id;
      NoEstimate(before, open.reservationId, t, m);
    } else {
      var i :| 0 <= i < |log| && log[i] == open;
      assert before[i] == open;
      EstimateIsTheReservation(before, open, t, m);
    }
  }

  /** The five totals of a scope after closing: what was used, estimated or given back instead of the estimate, and one slot less. */
  lemma ClosingReplacesTheEstimate(log: Log, open: Entry, row: Entry, t: Target)
    requires WellFormed(log) && Closes(log, open, row) && Matches(t, row)
    ensures var e := open.usage; var u := row.usage; var next := log + [row];
            && Committed(next, t, Spend) == Committed(log, t, Spend) - (if e.spendUsd.Some? then e.spendUsd.value else 0.0)
                                            + (if u.spendUsd.Some? then u.spendUsd.value else 0.0)
            && Committed(next, t, Tokens) == Committed(log, t, Tokens)
                 - ((if e.inputTokens.Some? then e.inputTokens.value else 0) + (if e.outputTokens.Some? then e.outputTokens.value else 0)) as real
                 + ((if u.inputTokens.Some? then u.inputTokens.value else 0) + (if u.outputTokens.Some? then u.outputTokens.value else 0)) as real
            && Committed(next, t, Requests) == Committed(log, t, Requests) - e.requests as real + u.requests as real
            && Committed(next, t, Concurrency) == Committed(log, t, Concurrency) - 1.0
            && Committed(next, t, Elapsed) == Committed(log, t, Elapsed) + row.elapsedMs as real
  {
    ClosingInOneMetric(log, open, row, t, Spend);
    ClosingInOneMetric(log, open, row, t, Tokens);
    ClosingInOneMetric(log, open, row, t, Requests);
    ClosingInOneMetric(log, open, row, t, Concurrency);
    ClosingInOneMetric(log, open, row, t, Elapsed);
    assert open.elapsedMs == 0;
  }

  lemma ClosingInOneMetric(log: Log, open: Entry, row: Entry, t: Target, m: Metric)
    requires WellFormed(log) && Closes(log, open, row) && Matches(t, row)
    ensures Committed(log + [row], t, m) == Committed(log, t, m) - Amount(m, open) + Amount(m, row)
  {
    CommittedAfterClosing(log, open, row, t, m);
    EstimateIsTheReservation(log, open, t, m);
  }

  lemma {:induction false} NoEstimate(rows: Log, rid: string, t: Target, m: Metric)
    requires forall i :: 0 <= i < |rows| && rows[i].kind.Reservation? ==> rows[i].reservationId != rid
    ensures EstimateFor(rows, rid, t, m) == 0.0
  {
    if rows != [] {
      NoEstimate(rows[..|rows| - 1], rid, t, m);
    }
  }

  lemma FreshLastId(log: Log)
    requires log != [] && DistinctIds(log)
    ensures forall e :: e in log[..|log| - 1] ==> e.id != log[|log| - 1].id
  {
  }

  lemma RunningStep(log: Log, row: Entry, t: Target, m: Metric)
    requires WellFormed(log) && (Opens(log, row) || exists open :: Closes(log, open, row))
    requires Committed(log, t, m) == Running(log, t, m)
    ensures Committed(log + [row], t, m) == Running(log + [row], t, m)
  {
    assert (log + [row])[..|log|] == log;
    if row.kind.Reservation? {
      CommittedAfterOpening(log, row, t, m);
    } else {
      var open :| Closes(log, open, row);
      CommittedAfterClosing(log, open, row, t, m);
    }
  }

  /** Summing the log and keeping a running counter agree on every well-formed log. */
  lemma {:induction false} RunningCounterAgrees(log: Log, t: Target, m: Metric)
    requires WellFormed(log)
    ensures Committed(log, t, m) == Running(log, t, m)
  {
    if log != [] {
      var n := |log| - 1;
      WellFormedPrefix(log, n);
      RunningCounterAgrees(log[..n], t, m);
      assert log[..n] + [log[n]] == log;
      if !log[n].kind.Reservation? {
        var open := LastRowCloses(log);
      }
      RunningStep(log[..n], log[n], t, m);
    }
  }

  lemma NotClosedBefore(log: Log)
    requires log != [] && OneTerminalEach(log) && !log[|log| - 1].kind.Reservation?
    ensures log[|log| - 1].reservationId !in ClosedIds(log[..|log| - 1])
  {
  }

  lemma LastRowCloses(log: Log) returns (open: Entry)
    requires WellFormed(log) && log != [] && !log[|log| - 1].kind.Reservation?
    ensures Closes(log[..|log| - 1], open, log[|log| - 1])
  {
    var n: nat := |log| - 1;
    var before, last := log[..n], log[n];
    assert FollowsAt(log, n);
    var i :| 0 <= i < |before| && before[i].kind.Reservation? && Corresponds(before[i], last);
    open := before[i];
    NotClosedBefore(log);
    FreshLastId(log);
  }

  lemma {:induction false} CommittedAtLeastClosed(rows: Log, closed: set<string>, t: Target, m: Metric)
    requires forall i :: 0 <= i < |rows| ==> HonestRow(rows[i])
    ensures SumCounted(rows, closed, t, m) >= ClosedTotal(rows, t, m)
  {
    if rows != [] {
      CommittedAtLeastClosed(rows[..|rows| - 1], closed, t, m);
    }
  }

  lemma {:induction false} CommittedWhenNothingIsOpen(rows: Log, closed: set<string>, t: Target, m: Metric)
    requires forall i :: 0 <= i < |rows| && rows[i].kind.Reservation? ==> rows[i].reservationId in closed
    ensures SumCounted(rows, closed, t, m) == ClosedTotal(rows, t, m)
  {
    if rows != [] {
      CommittedWhenNothingIsOpen(rows[..|rows| - 1], closed, t, m);
    }
  }

  /** The concurrency metric counts exactly the positions of the open reservations of the scope. */
  lemma {:induction false} ConcurrencyCountsOpenRows(rows: Log, closed: set<string>, t: Target)
    ensures SumCounted(rows, closed, t, Concurrency) == |OpenPositions(rows, closed, t)| as real
  {
    if rows != [] {
      var n := |rows| - 1;
      ConcurrencyCountsOpenRows(rows[..n], closed, t);
      var here := if n in OpenPositions(rows, closed, t) then {n} else {};
      assert OpenPositions(rows, closed, t) == OpenPositions(rows[..n], closed, t) + here;
    }
  }

  function OpenPositions(rows: Log, closed: set<string>, t: Target): set<nat> {
    set i: nat | i < |rows| && Matches(t, rows[i]) && rows[i].kind.Reservation? && rows[i].reservationId !in closed
  }

  lemma {:induction false} NoConcurrencyOverrun(log: Log, t: Target)
    requires WellFormed(log)
    ensures Overrun(log, t, Concurrency) == 0.0
  {
    if log != [] {
      var n := |log| - 1;
      WellFormedPrefix(log, n);
      NoConcurrencyOverrun(log[..n], t);
      EstimateNonNegative(log[..n], log[n].reservationId, t, Concurrency);
    }
  }

  lemma {:induction false} EstimateNonNegative(rows: Log, rid: string, t: Target, m: Metric)
    requires forall i :: 0 <= i < |rows| ==> HonestRow(rows[i])
    ensures EstimateFor(rows, rid, t, m) >= 0.0
  {
    if rows != [] {
      EstimateNonNegative(rows[..|rows| - 1], rid, t, m);
    }
  }
}
