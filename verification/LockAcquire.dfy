/** The loop of one `acquireLock` call, against whatever the file system shows it. */
module LockAcquire {
  import opened Prelude
  import opened Lock

  /** What one turn of the loop meets: the create succeeds, or a file with this holder, as read and probed. */
  datatype Look = Free | Held(holder: Option<Identity>, alive: bool)

  predicate LooksStale(look: Look) {
    look.Held? && (look.holder.None? || !look.alive)
  }

  predicate LooksLive(look: Look) {
    look.Held? && look.holder.Some? && look.alive
  }

  datatype Acquisition =
    | Acquired(tookOver: bool, previousHolder: Option<Identity>)
    | Locked(pid: nat, waited: int)
    | StillTrying

  /** The holder of the last stale file met: what a takeover reports as the previous holder. */
  function LastEvicted(looks: seq<Look>): Option<Identity> {
    if looks == [] then None
    else if LooksStale(looks[|looks| - 1]) then looks[|looks| - 1].holder
    else LastEvicted(looks[..|looks| - 1])
  }

  /** Time slept after meeting these looks: at most the timeout, in poll-sized steps. */
  function Slept(looks: seq<Look>, timeoutMs: int, pollMs: int): int {
    if looks == [] then 0
    else
      var before := Slept(looks[..|looks| - 1], timeoutMs, pollMs);
      if LooksLive(looks[|looks| - 1]) then before + Min(pollMs, timeoutMs - before) else before
  }

  /** A live holder met at turn `j` was met before the timeout was spent. */
  predicate MetInTime(looks: seq<Look>, j: nat, timeoutMs: int, pollMs: int)
    requires j < |looks|
  {
    LooksLive(looks[j]) ==> Slept(looks[..j], timeoutMs, pollMs) < timeoutMs
  }

  predicate MetStale(looks: seq<Look>) {
    exists j :: 0 <= j < |looks| && LooksStale(looks[j])
  }

  lemma MetStaleStep(looks: seq<Look>, look: Look)
    ensures MetStale(looks + [look]) <==> MetStale(looks) || LooksStale(look)
  {
    assert forall j :: 0 <= j < |looks| ==> (looks + [look])[j] == looks[j];
    assert (looks + [look])[|looks|] == look;
  }

  function Min(a: int, b: int): int {
    if a < b then a else b
  }

  /**
   `acquireLock` against the sequence of looks the file system will give it. It never
   evicts a live holder, sleeps only on one, and gives up only when the timeout is spent.
   `turns` is how many looks came before the one that ended it.
   */
  method Acquire(looks: seq<Look>, timeoutMs: int, pollMs: int) returns (r: Acquisition, turns: nat)
    ensures turns <= |looks| && (r.StillTrying? <==> turns == |looks|)
    ensures forall j :: 0 <= j < turns ==> looks[j].Held?
    ensures forall j: nat :: j < turns ==> MetInTime(looks, j, timeoutMs, pollMs)
    ensures r.Acquired? <==> turns < |looks| && looks[turns].Free?
    ensures r.Acquired? ==> (r.tookOver <==> MetStale(looks[..turns]))
    ensures r.Acquired? ==> r.previousHolder == LastEvicted(looks[..turns])
    ensures r.Locked? ==>
              && turns < |looks| && LooksLive(looks[turns]) && r.pid == looks[turns].holder.value.pid
              && r.waited == Slept(looks[..turns], timeoutMs, pollMs) >= timeoutMs
  {
    var waited, tookOver, previousHolder := 0, false, None;
    turns := 0;
    for i := 0 to |looks|
      invariant turns == i
      invariant forall j :: 0 <= j < i ==> looks[j].Held?
      invariant forall j: nat :: j < i ==> MetInTime(looks, j, timeoutMs, pollMs)
      invariant tookOver <==> MetStale(looks[..i])
      invariant previousHolder == LastEvicted(looks[..i])
      invariant waited == Slept(looks[..i], timeoutMs, pollMs)
    {
      var look := looks[i];
      if look.Free? {
        return Acquired(tookOver, previousHolder), i;
      }
      assert looks[..i + 1] == looks[..i] + [look];
      MetStaleStep(looks[..i], look);
      if look.holder.None? || !look.alive {
        tookOver, previousHolder := true, look.holder;
      } else {
        if waited >= timeoutMs {
          return Locked(look.holder.value.pid, waited), i;
        }
        waited := waited + Min(pollMs, timeoutMs - waited);
      }
      turns := turns + 1;
    }
    return StillTrying, turns;
  }

  lemma {:induction false} SleepIsBounded(looks: seq<Look>, timeoutMs: int, pollMs: int)
    ensures Slept(looks, timeoutMs, pollMs) <= if timeoutMs > 0 then timeoutMs else 0
  {
    if looks != [] {
      SleepIsBounded(looks[..|looks| - 1], timeoutMs, pollMs);
    }
  }

  /** How many of the looks met a live holder. */
  function LiveLooks(looks: seq<Look>): nat {
    if looks == [] then 0
    else LiveLooks(looks[..|looks| - 1]) + if LooksLive(looks[|looks| - 1]) then 1 else 0
  }

  lemma OneMoreStep(n: nat, step: int)
    ensures (n + 1) * step == n * step + step
  {
  }

  /** Each live holder met costs one poll interval, until the timeout is spent. */
  lemma {:induction false} SleepsOnePollEach(looks: seq<Look>, timeoutMs: int, pollMs: int)
    requires timeoutMs >= 0 && pollMs >= 0
    ensures Slept(looks, timeoutMs, pollMs) == Min(LiveLooks(looks) * pollMs, timeoutMs)
  {
    if looks != [] {
      SleepsOnePollEach(looks[..|looks| - 1], timeoutMs, pollMs);
      OneMoreStep(LiveLooks(looks[..|looks| - 1]), pollMs);
    }
  }

  /** The previous holder reported is the one named by the last stale file met, if that could be read. */
  lemma {:induction false} LastEvictedIsTheLastStale(looks: seq<Look>) returns (j: nat)
    requires MetStale(looks)
    ensures j < |looks| && looks[j].Held? && (looks[j].holder.None? || !looks[j].alive)
    ensures LastEvicted(looks) == looks[j].holder
    ensures forall i :: j < i < |looks| && looks[i].Held? ==> looks[i].holder.Some? && looks[i].alive
  {
    var n := |looks| - 1;
    if LooksStale(looks[n]) {
      j := n;
    } else {
      var i :| 0 <= i < |looks| && LooksStale(looks[i]);
      assert LooksStale(looks[..n][i]);
      j := LastEvictedIsTheLastStale(looks[..n]);
    }
  }
}
