/** Startup reconciliation of attempts: every attempt left open is re-attached or closed, once. */
module Attempts {
  import opened Prelude

  datatype Attempt = Attempt(id: string, workerId: string, outcome: Option<string>)

  /** What a worker probe answers; a gone worker's outcome may be known. */
  datatype Liveness = Alive | Gone(outcome: Option<string>)

  type Probe = Attempt -> Liveness

  datatype Disposition = Reattached(id: string) | Abandoned(id: string, outcome: string)

  const ABANDONED := "abandoned"

  ghost predicate DistinctIds(rows: seq<Attempt>) {
    forall i, j :: 0 <= i < j < |rows| ==> rows[i].id != rows[j].id
  }

  function OpenOf(rows: seq<Attempt>): (open: seq<Attempt>)
    ensures forall a :: a in open <==> a in rows && a.outcome.None?
  {
    if rows == [] then []
    else
      var last := rows[|rows| - 1];
      assert forall a :: a in rows <==> a in rows[..|rows| - 1] || a == last;
      OpenOf(rows[..|rows| - 1]) + if last.outcome.None? then [last] else []
  }

  /** What reconciliation leaves of one attempt. */
  function Settled(a: Attempt, probe: Probe): Attempt {
    if a.outcome.Some? || probe(a).Alive? then a
    else a.(outcome := Some(if probe(a).outcome.Some? then probe(a).outcome.value else ABANDONED))
  }

  function SettledAll(rows: seq<Attempt>, probe: Probe): seq<Attempt> {
    seq(|rows|, i requires 0 <= i < |rows| => Settled(rows[i], probe))
  }

  function DispositionOf(a: Attempt, probe: Probe): Disposition {
    var s := Settled(a, probe);
    if s.outcome.None? then Reattached(a.id) else Abandoned(a.id, s.outcome.value)
  }

  function Dispositions(open: seq<Attempt>, probe: Probe): seq<Disposition> {
    seq(|open|, k requires 0 <= k < |open| => DispositionOf(open[k], probe))
  }

  /** The first `k` open attempts are settled, and nothing else is changed. */
  ghost predicate SettledSoFar(before: seq<Attempt>, rows: seq<Attempt>, probe: Probe, open: seq<Attempt>, k: nat) {
    && |rows| == |before| && k <= |open|
    && forall i :: 0 <= i < |rows| ==> rows[i] == if before[i] in open[..k] then Settled(before[i], probe) else before[i]
  }

  /** The attempt is a row, and the only one with its id. */
  ghost predicate OnlyRow(rows: seq<Attempt>, a: Attempt) {
    && (exists i :: 0 <= i < |rows| && rows[i].id == a.id)
    && forall i :: 0 <= i < |rows| && rows[i].id == a.id ==> rows[i] == a
  }

  ghost predicate RowSettled(rows: seq<Attempt>, after: seq<Attempt>, a: Attempt, probe: Probe) {
    |after| == |rows| && forall i :: 0 <= i < |rows| ==> after[i] == if rows[i].id == a.id then Settled(a, probe) else rows[i]
  }

  lemma OneMoreDisposition(open: seq<Attempt>, probe: Probe, k: nat)
    requires k < |open|
    ensures Dispositions(open[..k + 1], probe) == Dispositions(open[..k], probe) + [DispositionOf(open[k], probe)]
  {
  }

  class AttemptRepository {
    var rows: seq<Attempt>

    ghost predicate Valid() reads this {
      DistinctIds(rows)
    }

    constructor ()
      ensures Valid() && rows == []
    {
      rows := [];
    }

    /** An attempt with an outcome is frozen; any other takes the new one. */
    method Update(id: string, outcome: string) returns (ok: bool)
      requires Valid()
      modifies this
      ensures Valid() && |rows| == |old(rows)|
      ensures ok <==> exists i :: 0 <= i < |old(rows)| && old(rows)[i].id == id && old(rows)[i].outcome.None?
      ensures forall i :: 0 <= i < |rows| ==>
                rows[i] == if ok && old(rows)[i].id == id then old(rows)[i].(outcome := Some(outcome)) else old(rows)[i]
    {
      for i := 0 to |rows|
        invariant rows == old(rows) && forall j :: 0 <= j < i ==> rows[j].id != id
      {
        if rows[i].id == id {
          ok := rows[i].outcome.None?;
          if ok {
            rows := rows[i := rows[i].(outcome := Some(outcome))];
          }
          return;
        }
      }
      ok := false;
    }

    /** Re-attach or close one open attempt of the table. */
    method SettleOne(attempt: Attempt, probe: Probe) returns (d: Disposition)
      requires Valid() && attempt.outcome.None? && OnlyRow(rows, attempt)
      modifies this
      ensures Valid() && d == DispositionOf(attempt, probe)
      ensures RowSettled(old(rows), rows, attempt, probe)
    {
      match probe(attempt)
      case Alive =>
        d := Reattached(attempt.id);
      case Gone(known) =>
        var outcome := if known.Some? then known.value else ABANDONED;
        var ok := Update(attempt.id, outcome);
        d := Abandoned(attempt.id, outcome);
    }

    /** `reconcileAbandonedAttempts`, apart from the reservations. */
    method Reconcile(probe: Probe) returns (results: seq<Disposition>)
      requires Valid()
      modifies this
      ensures Valid() && rows == SettledAll(old(rows), probe)
      ensures results == Dispositions(OpenOf(old(rows)), probe)
    {
      var open := OpenOf(rows);
      ghost var saved := rows;
      OpenIsDistinct(rows);
      results := [];
      for k := 0 to |open|
        invariant Valid() && SettledSoFar(saved, rows, probe, open, k)
        invariant results == Dispositions(open[..k], probe)
      {
        var attempt := open[k];
        ghost var before := rows;
        StillOpen(saved, rows, probe, open, k);
        var disposition := SettleOne(attempt, probe);
        results := results + [disposition];
        OneMoreSettled(saved, before, rows, probe, open, k);
        OneMoreDisposition(open, probe, k);
      }
      AllSettled(saved, rows, probe, open);
      assert open[..|open|] == open;
    }
  }

  lemma OnlyOne(rows: seq<Attempt>, a: Attempt)
    requires DistinctIds(rows) && a in rows
    ensures OnlyRow(rows, a)
  {
  }

  lemma NotEarlier(open: seq<Attempt>, k: nat)
    requires DistinctIds(open) && k < |open|
    ensures open[k] !in open[..k]
  {
  }

  /** The next open attempt has not been touched yet, and only it has its id. */
  lemma StillOpen(before: seq<Attempt>, rows: seq<Attempt>, probe: Probe, open: seq<Attempt>, k: nat)
    requires DistinctIds(before) && open == OpenOf(before) && k < |open|
    requires SettledSoFar(before, rows, probe, open, k)
    requires DistinctIds(open)
    ensures open[k].outcome.None?
    ensures OnlyRow(rows, open[k]) && OnlyRow(before, open[k])
  {
    var a := open[k];
    assert a in open;
    OnlyOne(before, a);
    NotEarlier(open, k);
    forall i | 0 <= i < |rows| ensures rows[i].id == before[i].id && (before[i] == a ==> rows[i] == a) {
    }
    var i :| 0 <= i < |before| && before[i].id == a.id;
    assert rows[i].id == a.id;
  }

  lemma OneMoreSettled(before: seq<Attempt>, rows: seq<Attempt>, after: seq<Attempt>, probe: Probe, open: seq<Attempt>, k: nat)
    requires k < |open| && SettledSoFar(before, rows, probe, open, k)
    requires OnlyRow(before, open[k]) && RowSettled(rows, after, open[k], probe)
    ensures SettledSoFar(before, after, probe, open, k + 1)
  {
  }

  lemma AllSettled(before: seq<Attempt>, rows: seq<Attempt>, probe: Probe, open: seq<Attempt>)
    requires open == OpenOf(before) && SettledSoFar(before, rows, probe, open, |open|)
    ensures rows == SettledAll(before, probe)
  {
  }

  lemma {:induction false} OpenIsDistinct(rows: seq<Attempt>)
    requires DistinctIds(rows)
    ensures DistinctIds(OpenOf(rows))
  {
    if rows != [] {
      var n := |rows| - 1;
      var earlier := OpenOf(rows[..n]);
      OpenIsDistinct(rows[..n]);
      forall i | 0 <= i < |earlier| ensures earlier[i].id != rows[n].id {
        assert earlier[i] in earlier;
        var k :| 0 <= k < n && rows[..n][k] == earlier[i];
        assert rows[k] == earlier[i];
      }
    }
  }

  lemma {:induction false} OpenAfterwards(rows: seq<Attempt>, probe: Probe)
    ensures forall a :: a in OpenOf(SettledAll(rows, probe)) <==> a in OpenOf(rows) && probe(a).Alive?
  {
    var after := SettledAll(rows, probe);
    forall a ensures a in OpenOf(after) <==> a in OpenOf(rows) && probe(a).Alive? {
      if a in OpenOf(after) {
        var i :| 0 <= i < |after| && after[i] == a;
        assert rows[i] in rows;
      }
      if a in OpenOf(rows) && probe(a).Alive? {
        var i :| 0 <= i < |rows| && rows[i] == a;
        assert after[i] in after;
      }
    }
  }

  /**
   What is recorded: a gone worker's known outcome, "abandoned" if none is known, and
   nothing for a worker that is alive or an attempt that had an outcome already. What is
   reported of an open attempt is what was recorded for it.
   */
  lemma OutcomesAreTheProbes(rows: seq<Attempt>, probe: Probe, i: nat)
    requires i < |rows|
    ensures var was, now := rows[i], SettledAll(rows, probe)[i];
            && now.id == was.id && now.workerId == was.workerId
            && (was.outcome.Some? || probe(was).Alive? ==> now == was)
            && (was.outcome.None? && probe(was).Gone? ==>
                  now.outcome == if probe(was).outcome.None? then Some("abandoned") else probe(was).outcome)
            && (was.outcome.None? ==>
                  DispositionOf(was, probe) == if now.outcome.None? then Reattached(was.id) else Abandoned(was.id, now.outcome.value))
  {
  }

  /** Afterwards exactly the attempts with a live worker are open, and a second pass changes nothing. */
  lemma ReconcilingAttemptsIsIdempotent(rows: seq<Attempt>, probe: Probe)
    ensures forall a :: a in OpenOf(SettledAll(rows, probe)) <==> a in OpenOf(rows) && probe(a).Alive?
    ensures SettledAll(SettledAll(rows, probe), probe) == SettledAll(rows, probe)
  {
    OpenAfterwards(rows, probe);
  }
}
