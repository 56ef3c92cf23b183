/**
 The budget ledger: reserve before a call runs, then settle or release, and close at
 startup what a dead session left open. One object stands for the store shared by all
 sessions; each method is one write transaction, so a refused operation leaves the log
 exactly as it was.
 */
module Ledger {
  import opened Prelude
  import opened LedgerLog
  import opened LedgerRuns

  datatype Handle = Handle(id: string, scope: Scope, channel: Channel, estimate: Usage, labelText: Option<string>)

  datatype Breach = Breach(kind: ScopeKind, cap: Metric, limit: real, committed: real, requested: real)

  datatype LedgerError =
    | DishonestUsage
    | BudgetExceeded(breach: Breach)
    | NoSuchReservation
    | AlreadyClosed
    | ConstraintViolated

  /** What `assertHonestUsage` accepts: a dollar figure exactly when the cost is not unknown, nothing negative. */
  predicate Honest(usage: Usage) {
    && (usage.costBasis.Unknown? <==> usage.spendUsd.None?)
    && usage.requests >= 0
    && (usage.spendUsd.Some? ==> usage.spendUsd.value >= 0.0)
  }

  predicate TokensNonNegative(usage: Usage) {
    && (usage.inputTokens.Some? ==> usage.inputTokens.value >= 0)
    && (usage.outputTokens.Some? ==> usage.outputTokens.value >= 0)
  }

  predicate FreshIn(log: Log, id: string) {
    forall e :: e in log ==> e.id != id
  }

  /** The constraints of the ledger table itself. */
  predicate Insertable(log: Log, row: Entry) {
    && Honest(row.usage) && TokensNonNegative(row.usage) && row.elapsedMs >= 0
    && FreshIn(log, row.id)
    && (!row.kind.Reservation? ==> row.reservationId !in ClosedIds(log))
  }

  /** The table takes exactly the rows that are honest, new, and the first to close their reservation. */
  lemma InsertableExactly(log: Log, row: Entry)
    ensures Insertable(log, row)
       <==> HonestRow(row) && (forall e :: e in log ==> e.id != row.id)
            && (!row.kind.Reservation? ==> forall e :: e in log && !e.kind.Reservation? ==> e.reservationId != row.reservationId)
  {
  }

  function ReservationRow(id: string, scope: Scope, channel: Channel, estimate: Usage,
                          labelText: Option<string>, sessionId: string): Entry {
    Entry(id, scope, channel, Reservation, id, sessionId, estimate, 0, labelText)
  }

  function TerminalRow(kind: EntryKind, id: string, h: Handle, usage: Usage, elapsedMs: int, sessionId: string): Entry {
    Entry(id, h.scope, h.channel, kind, h.id, sessionId, usage, elapsedMs, h.labelText)
  }

  function AbandonmentRow(id: string, open: Entry): Entry {
    open.(id := id, kind := Abandonment)
  }

  /** The handle was handed out by `Reserve`: it describes the reservation it names. */
  ghost predicate Genuine(log: Log, h: Handle) {
    forall e :: e in log && e.kind.Reservation? && e.reservationId == h.id ==>
                  e.scope == h.scope && e.channel == h.channel && e.labelText == h.labelText && e.usage == h.estimate
  }

  predicate HasRows(log: Log, rid: string) {
    exists e :: e in log && e.reservationId == rid
  }

  predicate Kept(keepSession: Option<string>, e: Entry) {
    keepSession == Some(e.sessionId)
  }

  function OpenReservations(rows: Log, closed: set<string>): (open: Log)
    ensures forall e :: e in open <==> e in rows && e.kind.Reservation? && e.reservationId !in closed
  {
    if rows == [] then []
    else
      var last := rows[|rows| - 1];
      assert forall e :: e in rows <==> e in rows[..|rows| - 1] || e == last;
      OpenReservations(rows[..|rows| - 1], closed)
      + if last.kind.Reservation? && last.reservationId !in closed then [last] else []
  }

  /** The reservations among `open` that reconciliation closes. */
  function ToClose(open: Log, keepSession: Option<string>): seq<string> {
    if open == [] then []
    else
      var last := open[|open| - 1];
      ToClose(open[..|open| - 1], keepSession) + if Kept(keepSession, last) then [] else [last.reservationId]
  }

  /** The rows reconciliation writes for `open`; the k-th one gets the k-th generated id. */
  function AbandonmentRows(open: Log, keepSession: Option<string>, newId: nat -> string): (written: Log)
    ensures |written| == |ToClose(open, keepSession)|
    ensures forall k: nat :: k < |written| ==> written[k].id == newId(k)
    ensures forall e :: e in written ==> e.kind.Abandonment?
  {
    if open == [] then []
    else
      var last := open[|open| - 1];
      var earlier := AbandonmentRows(open[..|open| - 1], keepSession, newId);
      earlier + if Kept(keepSession, last) then [] else [AbandonmentRow(newId(|earlier|), last)]
  }

  lemma {:induction false} ToCloseIs(open: Log, keepSession: Option<string>)
    ensures forall rid :: rid in ToClose(open, keepSession) <==>
              exists e :: e in open && !Kept(keepSession, e) && e.reservationId == rid
  {
    if open != [] {
      var n := |open| - 1;
      ToCloseIs(open[..n], keepSession);
      assert open == open[..n] + [open[n]];
    }
  }

  /** Nothing about the charged amounts changed; only the number of open reservations may have. */
  ghost predicate SameCharges(a: Log, b: Log) {
    forall t, m :: m != Concurrency ==> Committed(a, t, m) == Committed(b, t, m)
  }

  predicate GoodIds(before: Log, newId: nat -> string, n: nat)
  {
    && (forall k: nat, l: nat :: k < l < n ==> newId(k) != newId(l))
    && (forall k: nat :: k < n ==> FreshIn(before, newId(k)))
  }

  ghost predicate DistinctReservations(open: Log) {
    forall i, j :: 0 <= i < j < |open| ==> open[i].reservationId != open[j].reservationId
  }

  lemma OpenReservationsDistinct(budgets: Budgets, rows: Log)
    requires Reachable(budgets, rows)
    ensures DistinctReservations(OpenReservations(rows, ClosedIds(rows)))
  {
    ReservationsCloseOnce(budgets, [], rows);
    ReservationRowsDistinct(rows, ClosedIds(rows));
  }

  lemma {:induction false} ReservationRowsDistinct(rows: Log, closed: set<string>)
    requires WellFormed(rows)
    ensures DistinctReservations(OpenReservations(rows, closed))
  {
    if rows != [] {
      var n := |rows| - 1;
      WellFormedPrefix(rows, n);
      ReservationRowsDistinct(rows[..n], closed);
      var earlier, open := OpenReservations(rows[..n], closed), OpenReservations(rows, closed);
      forall i, j | 0 <= i < j < |open| ensures open[i].reservationId != open[j].reservationId {
        assert open[i] == earlier[i] && open[i] in earlier;
        if j == |earlier| {
          var k :| 0 <= k < n && rows[..n][k] == open[i];
          assert rows[k].reservationId == rows[k].id;
        }
      }
    }
  }

  lemma KnownMeansReserved(log: Log, h: Handle) returns (open: Entry)
    requires WellFormed(log) && Genuine(log, h) && HasRows(log, h.id)
    ensures open in log && open.kind.Reservation? && open.reservationId == h.id
    ensures open.scope == h.scope && open.channel == h.channel && open.labelText == h.labelText
    ensures open.usage == h.estimate
  {
    var e :| e in log && e.reservationId == h.id;
    var j: nat :| j < |log| && log[j] == e;
    if e.kind.Reservation? {
      open := e;
    } else {
      assert FollowsAt(log, j);
      var i :| 0 <= i < j && log[..j][i].kind.Reservation? && Corresponds(log[..j][i], e);
      open := log[i];
    }
  }

  // ----- the outcome of a run under a reservation -----

  /** A thrown error can always be closed; reported usage must be honest and negative in nothing. */
  predicate Acceptable(run: Result<(Usage, int), string>) {
    run.Failure? || (Honest(run.value.0) && TokensNonNegative(run.value.0) && run.value.1 >= 0)
  }

  /** The terminal row says what the run did: a release when it threw, a settlement of just what it reported otherwise. */
  predicate Reports(run: Result<(Usage, int), string>, done: Entry) {
    if run.Failure? then done.kind.Release?
    else done.kind.Settlement? && done.usage == run.value.0 && done.elapsedMs == run.value.1
  }

  function AmountReported(run: Result<(Usage, int), string>, done: Entry, m: Metric): real {
    if run.Failure? then 0.0 else Amount(m, done)
  }

  lemma ClosedAsReported(log: Log, open: Entry, done: Entry, run: Result<(Usage, int), string>)
    requires WellFormed(log) && Closes(log, open, done) && Reports(run, done)
    ensures forall t, m :: Committed(log + [done], t, m) == Committed(log, t, m)
              + if Matches(t, open) then AmountReported(run, done, m) - Amount(m, open) else 0.0
  {
    forall t, m ensures Committed(log + [done], t, m) == Committed(log, t, m)
                  + if Matches(t, open) then AmountReported(run, done, m) - Amount(m, open) else 0.0 {
      CommittedAfterClosing(log, open, done, t, m);
      EstimateIsTheReservation(log, open, t, m);
    }
  }

  lemma StillGenuine(log: Log, row: Entry, h: Handle)
    requires WellFormed(log) && row in log && row.kind.Reservation?
    requires h == Handle(row.reservationId, row.scope, row.channel, row.usage, row.labelText)
    ensures Genuine(log, h) && HasRows(log, h.id)
  {
    forall e | e in log && e.kind.Reservation? && e.reservationId == h.id ensures e == row {
      OneReservationEach(log, e, row);
    }
  }

  class Ledger {
    var rows: Log
    const budgets: Budgets

    /** The object invariant: the log is one the admission rules can reach. */
    ghost predicate Valid() reads this {
      Reachable(budgets, rows)
    }

    constructor (budgets: Budgets)
      ensures Valid() && rows == [] && this.budgets == budgets
    {
      this.budgets := budgets;
      rows := [];
    }

    /**
     Check every cap of every scope the charge draws on, in order; report the first that
     would be breached. `i` and `j` locate it: everything checked before it fits.
     */
    method AssertWithinCaps(row: Entry) returns (breach: Option<Breach>, ghost i: nat, ghost j: nat)
      requires row.kind.Reservation?
      ensures breach.None? <==> WithinCaps(budgets, rows, row)
      ensures breach.Some? ==>
                var b := breach.value; var kinds := KindsFor(row.channel);
                && i < |kinds| && j < |METRICS| && b.kind == kinds[i] && b.cap == METRICS[j]
                && b.committed + b.requested > b.limit
                && budgets(b.kind)(b.cap) == Some(b.limit)
                && (exists t :: TargetOf(b.kind, row.scope) == Some(t) && b.committed == Committed(rows, t, b.cap))
                && (forall k, m :: 0 <= k < i && 0 <= m < |METRICS| ==> FitsAt(budgets, rows, row, kinds[k], METRICS[m]))
                && (forall m :: 0 <= m < j ==> FitsAt(budgets, rows, row, kinds[i], METRICS[m]))
    {
      breach, i, j := None, 0, 0;
      var kinds := KindsFor(row.channel);
      for k := 0 to |kinds|
        invariant forall k', m :: 0 <= k' < k && 0 <= m < |METRICS| ==> FitsAt(budgets, rows, row, kinds[k'], METRICS[m])
      {
        var target := TargetOf(kinds[k], row.scope);
        if target.Some? {
          for m := 0 to |METRICS|
            invariant forall m' :: 0 <= m' < m ==> FitsAt(budgets, rows, row, kinds[k], METRICS[m'])
          {
            var limit := budgets(kinds[k])(METRICS[m]);
            var committed := Committed(rows, target.value, METRICS[m]);
            var requested := Amount(METRICS[m], row);
            if limit.Some? && committed + requested > limit.value {
              breach := Some(Breach(kinds[k], METRICS[m], limit.value, committed, requested));
              i, j := k, m;
              assert !FitsAt(budgets, rows, row, kinds[k], METRICS[m]);
              return;
            }
          }
        }
      }
      AllPositionsFit(row);
    }

    lemma AllPositionsFit(row: Entry)
      requires var kinds := KindsFor(row.channel);
               forall k, m :: 0 <= k < |kinds| && 0 <= m < |METRICS| ==> FitsAt(budgets, rows, row, kinds[k], METRICS[m])
      ensures WithinCaps(budgets, rows, row)
    {
    }

    method Reserve(id: string, scope: Scope, channel: Channel, estimate: Usage, labelText: Option<string>, sessionId: string)
      returns (r: Result<Handle, LedgerError>)
      requires Valid()
      modifies this
      ensures Valid()
      ensures var row := ReservationRow(id, scope, channel, estimate, labelText, sessionId);
              && (r.Success? <==> old(WithinCaps(budgets, rows, row) && Insertable(rows, row)))
              && (r.Success? ==> rows == old(rows) + [row] && r.value == Handle(id, scope, channel, estimate, labelText))
              && (r.Failure? ==> rows == old(rows))
              && (r == Failure(DishonestUsage) <==> !Honest(estimate))
              && (r.Failure? && r.error.BudgetExceeded? <==> Honest(estimate) && !old(WithinCaps(budgets, rows, row)))
      ensures r.Success? ==> Genuine(rows, r.value)
    {
      if !Honest(estimate) {
        return Failure(DishonestUsage);
      }
      var row := ReservationRow(id, scope, channel, estimate, labelText, sessionId);
      var breach, _, _ := AssertWithinCaps(row);
      if breach.Some? {
        return Failure(BudgetExceeded(breach.value));
      }
      if !Insertable(rows, row) {
        return Failure(ConstraintViolated);
      }
      assert Opens(rows, row);
      ReservationsCloseOnce(budgets, [], rows);
      ExtendsOne(budgets, [], rows, row);
      rows := rows + [row];
      return Success(Handle(id, scope, channel, estimate, labelText));
    }

    /** Append the terminal row of `h`: what settling and releasing share. */
    method Close(row: Entry, h: Handle) returns (r: Result<Entry, LedgerError>)
      requires Valid() && Genuine(rows, h)
      requires row.kind.Settlement? || (row.kind.Release? && IsZero(row))
      requires row == TerminalRow(row.kind, row.id, h, row.usage, row.elapsedMs, row.sessionId)
      modifies this
      ensures Valid()
      ensures r.Success? <==> old(HasRows(rows, h.id) && h.id !in ClosedIds(rows) && Insertable(rows, row))
      ensures r.Success? ==> r.value == row && rows == old(rows) + [row] && h.id in ClosedIds(rows)
      ensures r.Failure? ==> rows == old(rows)
      ensures r == Failure(NoSuchReservation) <==> !old(HasRows(rows, h.id))
      ensures r == Failure(AlreadyClosed) <==> old(h.id in ClosedIds(rows))
      ensures r != Failure(DishonestUsage)
    {
      ReservationsCloseOnce(budgets, [], rows);
      if !HasRows(rows, h.id) {
        return Failure(NoSuchReservation);
      }
      if h.id in ClosedIds(rows) {
        return Failure(AlreadyClosed);
      }
      if !Insertable(rows, row) {
        return Failure(ConstraintViolated);
      }
      ghost var open := KnownMeansReserved(rows, h);
      assert Closes(rows, open, row);
      ExtendsOne(budgets, [], rows, row);
      ClosingKeepsWellFormed(rows, open, row);
      rows := rows + [row];
      return Success(row);
    }

    method Settle(h: Handle, id: string, actual: Usage, elapsedMs: int, sessionId: string)
      returns (r: Result<Entry, LedgerError>)
      requires Valid() && Genuine(rows, h)
      modifies this
      ensures Valid()
      ensures var row := TerminalRow(Settlement, id, h, actual, elapsedMs, sessionId);
              && (r.Success? <==> old(HasRows(rows, h.id) && h.id !in ClosedIds(rows) && Insertable(rows, row)))
              && (r.Success? ==> r.value == row && rows == old(rows) + [row] && h.id in ClosedIds(rows))
              && (r.Failure? ==> rows == old(rows))
              && (r == Failure(DishonestUsage) <==> !Honest(actual))
    {
      if !Honest(actual) {
        return Failure(DishonestUsage);
      }
      r := Close(TerminalRow(Settlement, id, h, actual, elapsedMs, sessionId), h);
    }

    method Release(h: Handle, id: string, sessionId: string) returns (r: Result<Entry, LedgerError>)
      requires Valid() && Genuine(rows, h)
      modifies this
      ensures Valid()
      ensures var row := TerminalRow(EntryKind.Release, id, h, NO_USAGE, 0, sessionId);
              && (r.Success? <==> old(HasRows(rows, h.id) && h.id !in ClosedIds(rows) && FreshIn(rows, id)))
              && (r.Success? ==> r.value == row && rows == old(rows) + [row] && h.id in ClosedIds(rows))
              && (r.Failure? ==> rows == old(rows))
    {
      r := Close(TerminalRow(EntryKind.Release, id, h, NO_USAGE, 0, sessionId), h);
    }

    /**
     Reserve, run, settle; release if the run throws. `run` is what the call reports: its
     usage and duration, or a thrown error; `meanwhile` is what the ledger's other users
     append while it runs, an abandonment of this very reservation included. The
     reservation is closed on return unless the reported usage is unacceptable or the
     closing id is taken, in which case it stays open for reconciliation.
     */
    method WithReservation(id: string, closeId: string, scope: Scope, channel: Channel, estimate: Usage,
                           labelText: Option<string>, sessionId: string, run: Result<(Usage, int), string>, meanwhile: Log)
      returns (reserved: bool, settled: bool)
      requires Valid()
      requires var row := ReservationRow(id, scope, channel, estimate, labelText, sessionId);
               WithinCaps(budgets, rows, row) && Insertable(rows, row) ==>
                 Extends(budgets, rows + [row], rows + [row] + meanwhile)
      modifies this
      ensures Valid()
      ensures var row := ReservationRow(id, scope, channel, estimate, labelText, sessionId);
              reserved <==> old(WithinCaps(budgets, rows, row) && Insertable(rows, row))
      ensures !reserved ==> rows == old(rows) && !settled
      ensures reserved ==>
                var row := ReservationRow(id, scope, channel, estimate, labelText, sessionId);
                var waiting := old(rows) + [row] + meanwhile;
                var closes := id !in ClosedIds(waiting) && FreshIn(waiting, closeId) && Acceptable(run);
                && (settled <==> closes && run.Success?)
                && (id in ClosedIds(rows) <==> closes || id in ClosedIds(waiting))
                && (!closes ==> rows == waiting)
                && (closes ==> exists done :: Closes(waiting, row, done) && Reports(run, done) && rows == waiting + [done])
                && (closes ==> forall t, m ::
                      Committed(rows, t, m) == Committed(waiting, t, m)
                        + if Matches(t, row) then AmountReported(run, rows[|rows| - 1], m) - Amount(m, row) else 0.0)
    {
      var r := Reserve(id, scope, channel, estimate, labelText, sessionId);
      if r.Failure? {
        return false, false;
      }
      ghost var row := ReservationRow(id, scope, channel, estimate, labelText, sessionId);
      ExtendsTransitive(budgets, [], rows, rows + meanwhile);
      assert row in rows;
      rows := rows + meanwhile;
      ghost var waiting := rows;
      ReservationsCloseOnce(budgets, [], waiting);
      StillGenuine(waiting, row, r.value);
      var closed: Result<Entry, LedgerError>;
      if run.Failure? {
        closed := Release(r.value, closeId, sessionId);
      } else {
        closed := Settle(r.value, closeId, run.value.0, run.value.1, sessionId);
      }
      if closed.Success? {
        assert Closes(waiting, row, closed.value) && Reports(run, closed.value);
        assert rows[|rows| - 1] == closed.value;
        ClosedAsReported(waiting, row, closed.value, run);
      }
      return true, run.Success? && closed.Success?;
    }

    /** The loop of reconciliation, over the reservations open at its start. */
    method AbandonAll(open: Log, keepSession: Option<string>, newId: nat -> string) returns (ok: bool, closed: seq<string>)
      requires Valid() && open == OpenReservations(rows, ClosedIds(rows))
      modifies this
      ensures ok <==> GoodIds(old(rows), newId, |ToClose(open, keepSession)|)
      ensures ok ==> Progress(budgets, old(rows), rows, open, |open|, keepSession, newId, closed)
      ensures !ok ==> rows == old(rows) && closed == []
    {
      OpenReservationsDistinct(budgets, rows);
      var saved := rows;
      closed := [];
      ProgressAtStart(budgets, saved, open, keepSession, newId);
      for k := 0 to |open|
        invariant Progress(budgets, saved, rows, open, k, keepSession, newId, closed)
      {
        if Kept(keepSession, open[k]) {
          SkipStep(budgets, saved, rows, open, k, keepSession, newId, closed);
        } else {
          var row := AbandonmentRow(newId(|closed|), open[k]);
          if !FreshIn(rows, row.id) {
            CollisionStep(budgets, saved, rows, open, k, keepSession, newId, closed);
            rows := saved;
            return false, [];
          }
          AbandonStep(budgets, saved, rows, open, k, keepSession, newId, closed);
          rows := rows + [row];
          closed := closed + [open[k].reservationId];
        }
      }
      assert closed == ToClose(open, keepSession) by {
        assert open[..|open|] == open;
      }
      return true, closed;
    }

    /**
     Close every open reservation of another session as abandoned, keeping its estimate
     charged. One transaction: if a generated id collides, nothing is written.
     */
    method Reconcile(keepSession: Option<string>, newId: nat -> string) returns (ok: bool, closed: seq<string>)
      requires Valid()
      modifies this
      ensures Valid()
      ensures var open := old(OpenReservations(rows, ClosedIds(rows)));
              && (ok <==> GoodIds(old(rows), newId, |ToClose(open, keepSession)|))
              && (ok ==> rows == old(rows) + AbandonmentRows(open, keepSession, newId)
                         && closed == ToClose(open, keepSession))
      ensures !ok ==> rows == old(rows) && closed == []
      ensures ok ==> forall e :: IsOpen(rows, e) <==> old(IsOpen(rows, e)) && keepSession == Some(e.sessionId)
      ensures ok ==> SameCharges(rows, old(rows))
    {
      var open := OpenReservations(rows, ClosedIds(rows));
      ok, closed := AbandonAll(open, keepSession, newId);
      if ok {
        assert open[..|open|] == open;
        OpenAfterAbandoning(budgets, old(rows), rows, open, keepSession, closed);
      }
    }
  }

  /** Where reconciliation stands after the first `k` open reservations. */
  ghost predicate Progress(budgets: Budgets, before: Log, rows: Log, open: Log, k: nat,
                           keepSession: Option<string>, newId: nat -> string, closed: seq<string>)
  {
    && k <= |open|
    && Reachable(budgets, rows)
    && rows == before + AbandonmentRows(open[..k], keepSession, newId)
    && closed == ToClose(open[..k], keepSession)
    && GoodIds(before, newId, |closed|)
    && ClosedIds(rows) == ClosedIds(before) + (set rid | rid in closed)
    && SameCharges(rows, before)
  }

  lemma ProgressAtStart(budgets: Budgets, before: Log, open: Log, keepSession: Option<string>, newId: nat -> string)
    requires Reachable(budgets, before)
    ensures Progress(budgets, before, before, open, 0, keepSession, newId, [])
  {
  }

  lemma CollisionStep(budgets: Budgets, before: Log, rows: Log, open: Log, k: nat,
                      keepSession: Option<string>, newId: nat -> string, closed: seq<string>)
    requires k < |open| && Progress(budgets, before, rows, open, k, keepSession, newId, closed)
    requires !Kept(keepSession, open[k]) && !FreshIn(rows, newId(|closed|))
    ensures !GoodIds(before, newId, |ToClose(open, keepSession)|)
  {
    CollisionMeansBadIds(before, rows, newId, |closed|);
    ToCloseGrows(open, k + 1, keepSession);
    assert open[..k + 1][..k] == open[..k];
  }

  lemma SkipStep(budgets: Budgets, before: Log, rows: Log, open: Log, k: nat,
                 keepSession: Option<string>, newId: nat -> string, closed: seq<string>)
    requires k < |open| && Progress(budgets, before, rows, open, k, keepSession, newId, closed)
    requires Kept(keepSession, open[k])
    ensures Progress(budgets, before, rows, open, k + 1, keepSession, newId, closed)
  {
    assert open[..k + 1][..k] == open[..k];
  }

  lemma AbandonStep(budgets: Budgets, before: Log, rows: Log, open: Log, k: nat,
                    keepSession: Option<string>, newId: nat -> string, closed: seq<string>)
    requires k < |open| && Progress(budgets, before, rows, open, k, keepSession, newId, closed)
    requires Reachable(budgets, before) && open == OpenReservations(before, ClosedIds(before))
    requires DistinctReservations(open)
    requires !Kept(keepSession, open[k]) && FreshIn(rows, newId(|closed|))
    ensures Progress(budgets, before, rows + [AbandonmentRow(newId(|closed|), open[k])], open, k + 1,
                     keepSession, newId, closed + [open[k].reservationId])
  {
    var row := AbandonmentRow(newId(|closed|), open[k]);
    StillOpen(budgets, before, rows, open, k, keepSession, newId, closed);
    FreshMeansGoodIds(before, rows, newId, |closed|);
    AbandonOne(budgets, rows, open[k], row);
    AbandonBookkeeping(budgets, before, rows, open, k, keepSession, newId, closed, row);
  }

  lemma AbandonBookkeeping(budgets: Budgets, before: Log, rows: Log, open: Log, k: nat,
                           keepSession: Option<string>, newId: nat -> string, closed: seq<string>, row: Entry)
    requires k < |open| && Progress(budgets, before, rows, open, k, keepSession, newId, closed)
    requires !Kept(keepSession, open[k]) && row == AbandonmentRow(newId(|closed|), open[k])
    requires Reachable(budgets, rows + [row])
    requires ClosedIds(rows + [row]) == ClosedIds(rows) + {open[k].reservationId}
    requires SameCharges(rows + [row], rows) && GoodIds(before, newId, |closed| + 1)
    ensures Progress(budgets, before, rows + [row], open, k + 1, keepSession, newId, closed + [open[k].reservationId])
  {
    assert open[..k + 1][..k] == open[..k];
    assert rows + [row] == before + AbandonmentRows(open[..k + 1], keepSession, newId);
  }

  /** The k-th open reservation has not been touched by the rows written so far, and its row can be inserted. */
  lemma StillOpen(budgets: Budgets, before: Log, rows: Log, open: Log, k: nat, keepSession: Option<string>, newId: nat -> string, closed: seq<string>)
    requires Reachable(budgets, before) && open == OpenReservations(before, ClosedIds(before)) && k < |open|
    requires DistinctReservations(open)
    requires before <= rows && closed == ToClose(open[..k], keepSession)
    requires ClosedIds(rows) == ClosedIds(before) + set rid | rid in closed
    ensures IsOpen(rows, open[k]) && HonestRow(open[k])
    ensures FreshIn(rows, newId(|closed|)) ==> Insertable(rows, AbandonmentRow(newId(|closed|), open[k]))
  {
    ReservationsCloseOnce(budgets, [], before);
    assert open[k] in open;
    var i :| 0 <= i < |before| && before[i] == open[k];
    assert rows[i] == open[k];
    ToCloseIs(open[..k], keepSession);
    assert forall e :: e in open[..k] ==> e.reservationId != open[k].reservationId;
  }

  lemma {:induction false} ToCloseGrows(open: Log, k: nat, keepSession: Option<string>)
    requires k <= |open|
    ensures |ToClose(open[..k], keepSession)| <= |ToClose(open, keepSession)|
    decreases |open|
  {
    if k < |open| {
      var n := |open| - 1;
      assert open[..n][..k] == open[..k];
      ToCloseGrows(open[..n], k, keepSession);
    } else {
      assert open[..k] == open;
    }
  }

  lemma CollisionMeansBadIds(before: Log, rows: Log, newId: nat -> string, n: nat)
    requires |rows| == |before| + n && rows[..|before|] == before
    requires forall k: nat :: k < n ==> rows[|before| + k].id == newId(k)
    requires !FreshIn(rows, newId(n))
    ensures forall total: nat :: total > n ==> !GoodIds(before, newId, total)
  {
    var e :| e in rows && e.id == newId(n);
    var i :| 0 <= i < |rows| && rows[i] == e;
    if i < |before| {
      assert before[i] == e;
      assert !FreshIn(before, newId(n));
    } else {
      assert rows[|before| + (i - |before|)].id == newId(i - |before|);
    }
  }

  lemma FreshMeansGoodIds(before: Log, rows: Log, newId: nat -> string, n: nat)
    requires |rows| == |before| + n && rows[..|before|] == before
    requires forall k: nat :: k < n ==> rows[|before| + k].id == newId(k)
    requires FreshIn(rows, newId(n)) && GoodIds(before, newId, n)
    ensures GoodIds(before, newId, n + 1)
  {
  }

  lemma AbandonOne(budgets: Budgets, log: Log, open: Entry, row: Entry)
    requires Reachable(budgets, log) && Closes(log, open, row) && row.kind.Abandonment?
    ensures Reachable(budgets, log + [row])
    ensures ClosedIds(log + [row]) == ClosedIds(log) + {row.reservationId}
    ensures SameCharges(log + [row], log)
  {
    ReservationsCloseOnce(budgets, [], log);
    ClosingKeepsWellFormed(log, open, row);
    assert Admitted(budgets, log, row);
    ExtendsOne(budgets, [], log, row);
    forall t, m | m != Concurrency ensures Committed(log + [row], t, m) == Committed(log, t, m) {
      AbandonmentKeepsCharge(log, open, row, t, m);
    }
  }

  lemma AbandonmentKeepsCharge(log: Log, open: Entry, row: Entry, t: Target, m: Metric)
    requires WellFormed(log) && Closes(log, open, row) && row.kind.Abandonment? && m != Concurrency
    ensures Committed(log + [row], t, m) == Committed(log, t, m)
  {
    CommittedAfterClosing(log, open, row, t, m);
    EstimateIsTheReservation(log, open, t, m);
  }

  lemma OpenExactlyIfNotClosed(before: Log, rows: Log, e: Entry)
    requires before <= rows && forall x :: x in rows[|before|..] ==> x.kind.Abandonment?
    ensures IsOpen(rows, e) <==> e in before && e.kind.Reservation? && e.reservationId !in ClosedIds(rows)
  {
  }

  lemma ClosedMeansNotKept(before: Log, open: Log, keepSession: Option<string>, e: Entry)
    requires WellFormed(before) && open == OpenReservations(before, ClosedIds(before)) && IsOpen(before, e)
    ensures e.reservationId in ToClose(open, keepSession) <==> !Kept(keepSession, e)
  {
    ToCloseIs(open, keepSession);
    assert e in open;
    forall other | other in open && other.reservationId == e.reservationId ensures other == e {
      OneReservationEach(before, other, e);
    }
  }

  lemma OpenAfterAbandoning(budgets: Budgets, before: Log, rows: Log, open: Log, keepSession: Option<string>, closed: seq<string>)
    requires Reachable(budgets, before) && open == OpenReservations(before, ClosedIds(before))
    requires before <= rows && forall e :: e in rows[|before|..] ==> e.kind.Abandonment?
    requires closed == ToClose(open, keepSession)
    requires ClosedIds(rows) == ClosedIds(before) + set rid | rid in closed
    ensures forall e :: IsOpen(rows, e) <==> IsOpen(before, e) && keepSession == Some(e.sessionId)
  {
    ReservationsCloseOnce(budgets, [], before);
    forall e ensures IsOpen(rows, e) <==> IsOpen(before, e) && Kept(keepSession, e) {
      OpenExactlyIfNotClosed(before, rows, e);
      if IsOpen(before, e) {
        ClosedMeansNotKept(before, open, keepSession, e);
      }
    }
  }

  /** A second reconciliation finds nothing to do: it closes nothing and writes nothing. */
  lemma ReconcilingTwiceChangesNothing(rows: Log, keepSession: Option<string>, newId: nat -> string)
    requires forall e :: IsOpen(rows, e) ==> keepSession == Some(e.sessionId)
    ensures ToClose(OpenReservations(rows, ClosedIds(rows)), keepSession) == []
    ensures AbandonmentRows(OpenReservations(rows, ClosedIds(rows)), keepSession, newId) == []
  {
    var open := OpenReservations(rows, ClosedIds(rows));
    var again := ToClose(open, keepSession);
    assert again != [] ==> again[0] in again;
    ToCloseIs(open, keepSession);
  }
}
