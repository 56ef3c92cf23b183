/**
 The coordinator lockfile as a protocol: any number of processes call `acquireLock`,
 release, heartbeat and crash, one step at a time, in any order.

 The file-system calls of the code are separate steps. Three groups of them may be merged:
 creating the file and writing its contents; reading the holder, probing its pid and
 deleting the file; and reading, truncating and rewriting the file for a heartbeat. The
 protocol is safe exactly when all three are merged.
 */
module Lock {
  import opened Prelude

  /** What tells one lock call's file from another's. */
  datatype Identity = Identity(pid: nat, startedAt: nat)

  datatype Contents = Contents(owner: Identity, heartbeatAt: nat)

  /** The lockfile; `None` contents is a file that cannot be parsed, as left by a crash between open and write. */
  datatype File = Absent | Present(inode: nat, contents: Option<Contents>)

  /** Where one `acquireLock` call, or the handle it returned, stands. */
  datatype Pc =
    | Trying
    | Opened(inode: nat)   // exclusive create succeeded, nothing written yet
    | Blocked              // the file exists; about to read it
    | Evicting             // judged the holder stale; about to delete
    | Waiting              // the holder is alive; about to sleep or give up
    | Holding
    | Stamping             // holding; read the file as its own, about to truncate it
    | Rewriting(inode: nat) // holding; truncated the file, heartbeat not yet written
    | Releasing            // the handle is marked released; about to read the file
    | Removing             // the file still named us; about to delete it
    | Finished

  datatype Call = Call(id: Identity, pc: Pc)

  /** Calls of crashed processes are gone; `alive` is what a pid probe answers. */
  datatype State = State(file: File, calls: map<nat, Call>, alive: set<nat>, nextInode: nat)

  datatype Granularity = Granularity(createIsOneStep: bool, takeoverIsOneStep: bool, heartbeatIsOneStep: bool)

  datatype Event =
    | Spawn(pid: nat)
    | Crash(pid: nat)
    | Begin(k: nat, id: Identity)
    | Create(k: nat)
    | Open(k: nat)
    | Write(k: nat)
    | Collide(k: nat)
    | TakeOver(k: nat)
    | Judge(k: nat)
    | Evict(k: nat)
    | Defer(k: nat)
    | Retry(k: nat)
    | GiveUp(k: nat)
    | Release(k: nat)
    | Check(k: nat)
    | Remove(k: nat)
    | Beat(k: nat, at: nat)
    | Reread(k: nat)
    | Truncate(k: nat)
    | Rewrite(k: nat, at: nat)

  const INIT := State(Absent, map[], {}, 0)

  predicate Names(file: File, id: Identity) {
    file.Present? && file.contents.Some? && file.contents.value.owner == id
  }

  /** Unreadable, missing by the time it is read, or naming a dead pid. */
  predicate Stale(s: State) {
    s.file.Absent? || s.file.contents.None? || s.file.contents.value.owner.pid !in s.alive
  }

  predicate At(s: State, k: nat, pc: Pc) {
    k in s.calls && s.calls[k].pc == pc
  }

  function Goto(s: State, k: nat, pc: Pc): State
    requires k in s.calls
  {
    s.(calls := s.calls[k := s.calls[k].(pc := pc)])
  }

  predicate Enabled(g: Granularity, s: State, e: Event) {
    match e
    case Spawn(pid) => pid !in s.alive
    case Crash(pid) => pid in s.alive
    case Begin(k, id) => k !in s.calls && id.pid in s.alive
    case Create(k) => g.createIsOneStep && At(s, k, Trying) && s.file.Absent?
    case Open(k) => !g.createIsOneStep && At(s, k, Trying) && s.file.Absent?
    case Write(k) => k in s.calls && s.calls[k].pc.Opened?
    case Collide(k) => At(s, k, Trying) && s.file.Present?
    case TakeOver(k) => g.takeoverIsOneStep && At(s, k, Blocked) && Stale(s)
    case Judge(k) => !g.takeoverIsOneStep && At(s, k, Blocked) && Stale(s)
    case Evict(k) => At(s, k, Evicting)
    case Defer(k) => At(s, k, Blocked) && !Stale(s)
    case Retry(k) => At(s, k, Waiting)
    case GiveUp(k) => At(s, k, Waiting)
    case Release(k) => At(s, k, Holding)
    case Check(k) => At(s, k, Releasing)
    case Remove(k) => At(s, k, Removing)
    case Beat(k, at) => g.heartbeatIsOneStep && At(s, k, Holding)
    case Reread(k) => !g.heartbeatIsOneStep && At(s, k, Holding)
    case Truncate(k) => At(s, k, Stamping)
    case Rewrite(k, at) => k in s.calls && s.calls[k].pc.Rewriting?
  }

  function Apply(g: Granularity, s: State, e: Event): State
    requires Enabled(g, s, e)
  {
    match e
    case Spawn(pid) => s.(alive := s.alive + {pid})
    case Crash(pid) =>
      s.(alive := s.alive - {pid}, calls := map k | k in s.calls && s.calls[k].id.pid != pid :: s.calls[k])
    case Begin(k, id) => s.(calls := s.calls[k := Call(id, Trying)])
    case Create(k) =>
      Goto(s, k, Holding).(file := Present(s.nextInode, Some(Contents(s.calls[k].id, 0))), nextInode := s.nextInode + 1)
    case Open(k) =>
      Goto(s, k, Opened(s.nextInode)).(file := Present(s.nextInode, None), nextInode := s.nextInode + 1)
    case Write(k) =>
      // The descriptor writes to the file it opened, which may have been unlinked since.
      if s.file.Present? && s.file.inode == s.calls[k].pc.inode then
        Goto(s, k, Holding).(file := Present(s.file.inode, Some(Contents(s.calls[k].id, 0))))
      else
        Goto(s, k, Holding)
    case Collide(k) => Goto(s, k, Blocked)
    case TakeOver(k) => Goto(s, k, Trying).(file := Absent)
    case Judge(k) => Goto(s, k, Evicting)
    case Evict(k) => Goto(s, k, Trying).(file := Absent)
    case Defer(k) => Goto(s, k, Waiting)
    case Retry(k) => Goto(s, k, Trying)
    case GiveUp(k) => Goto(s, k, Finished)
    case Release(k) => Goto(s, k, Releasing)
    case Check(k) => Goto(s, k, if Names(s.file, s.calls[k].id) then Removing else Finished)
    case Remove(k) => Goto(s, k, Finished).(file := Absent)
    case Beat(k, at) =>
      if Names(s.file, s.calls[k].id) then
        s.(file := Present(s.file.inode, Some(s.file.contents.value.(heartbeatAt := at))))
      else
        s
    case Reread(k) => if Names(s.file, s.calls[k].id) then Goto(s, k, Stamping) else s
    case Truncate(k) =>
      // Opened by path: whatever file is there now, or a new one if there is none.
      if s.file.Present? then Goto(s, k, Rewriting(s.file.inode)).(file := Present(s.file.inode, None))
      else Goto(s, k, Rewriting(s.nextInode)).(file := Present(s.nextInode, None), nextInode := s.nextInode + 1)
    case Rewrite(k, at) =>
      if s.file.Present? && s.file.inode == s.calls[k].pc.inode then
        Goto(s, k, Holding).(file := Present(s.file.inode, Some(Contents(s.calls[k].id, at))))
      else
        Goto(s, k, Holding)
  }

  /** `s` is what the events lead to from `INIT`, each enabled where it happens. */
  ghost predicate RunsTo(g: Granularity, events: seq<Event>, s: State) {
    if events == [] then s == INIT
    else
      var n := |events| - 1;
      exists before :: RunsTo(g, events[..n], before) && Enabled(g, before, events[n]) && s == Apply(g, before, events[n])
  }

  ghost predicate Reachable(g: Granularity, s: State) {
    exists events :: RunsTo(g, events, s)
  }

  /** The call has a handle it has not released. */
  predicate Holds(s: State, k: nat) {
    k in s.calls && (s.calls[k].pc.Holding? || s.calls[k].pc.Stamping? || s.calls[k].pc.Rewriting?)
  }

  /** At most one call holds an unreleased handle, and between heartbeats the file names it. */
  ghost predicate Safe(s: State) {
    && (forall k, l :: Holds(s, k) && Holds(s, l) ==> k == l)
    && (forall k :: At(s, k, Holding) ==> Names(s.file, s.calls[k].id))
  }

  ghost predicate AlwaysSafe(g: Granularity) {
    forall s :: Reachable(g, s) ==> Safe(s)
  }

  const COARSE := Granularity(true, true, true)

  predicate Owns(s: State, k: nat) {
    k in s.calls && (s.calls[k].pc.Holding? || s.calls[k].pc.Releasing? || s.calls[k].pc.Removing?)
  }

  /** What every coarse step keeps. */
  ghost predicate Inv(s: State) {
    && (forall k :: k in s.calls ==> s.calls[k].id.pid in s.alive)
    && (forall k :: k in s.calls ==> !s.calls[k].pc.Opened? && !s.calls[k].pc.Evicting?)
    && (forall k :: k in s.calls ==> !s.calls[k].pc.Stamping? && !s.calls[k].pc.Rewriting?)
    && (forall k :: Owns(s, k) ==> Names(s.file, s.calls[k].id))
    && (forall k, l :: Owns(s, k) && Owns(s, l) ==> k == l)
  }

  lemma RemoveKeepsInv(s: State, k: nat)
    requires Inv(s) && Enabled(COARSE, s, Remove(k))
    ensures Inv(Apply(COARSE, s, Remove(k)))
  {
    assert Owns(s, k);
    var next := Apply(COARSE, s, Remove(k));
    forall l ensures !Owns(next, l) {
      assert Owns(next, l) ==> l != k && Owns(s, l);
    }
  }

  /** Steps that leave the file's owner alone and make no new owner. */
  lemma OtherStepKeepsInv(s: State, e: Event)
    requires Inv(s) && Enabled(COARSE, s, e)
    requires !e.Create? && !e.TakeOver? && !e.Remove?
    ensures Inv(Apply(COARSE, s, e))
  {
    assert forall k :: Owns(Apply(COARSE, s, e), k) ==> Owns(s, k);
  }

  lemma StepKeepsInv(s: State, e: Event)
    requires Inv(s) && Enabled(COARSE, s, e)
    ensures Inv(Apply(COARSE, s, e))
  {
    if e.Create? {
    } else if e.TakeOver? {
    } else if e.Remove? {
      RemoveKeepsInv(s, e.k);
    } else {
      OtherStepKeepsInv(s, e);
    }
  }

  lemma {:induction false} RunKeepsInv(events: seq<Event>, s: State)
    requires RunsTo(COARSE, events, s)
    ensures Inv(s)
  {
    if events != [] {
      var n := |events| - 1;
      var before :| RunsTo(COARSE, events[..n], before) && Enabled(COARSE, before, events[n])
                    && s == Apply(COARSE, before, events[n]);
      RunKeepsInv(events[..n], before);
      StepKeepsInv(before, events[n]);
    }
  }

  /** Safety at the coarse granularity, for every interleaving of any number of processes and any reuse of pids. */
  lemma CoarseIsSafe(s: State)
    requires Reachable(COARSE, s)
    ensures Safe(s)
    ensures forall k :: Owns(s, k) ==> Names(s.file, s.calls[k].id)
    ensures forall k, l :: Owns(s, k) && Owns(s, l) ==> k == l
  {
    var events :| RunsTo(COARSE, events, s);
    RunKeepsInv(events, s);
    assert forall k :: Holds(s, k) ==> Owns(s, k);
    assert forall k :: At(s, k, Holding) ==> Owns(s, k);
  }

  lemma Start(g: Granularity)
    ensures Reachable(g, INIT)
  {
    assert RunsTo(g, [], INIT);
  }

  lemma Step(g: Granularity, s: State, e: Event) returns (next: State)
    requires Reachable(g, s) && Enabled(g, s, e)
    ensures next == Apply(g, s, e) && Reachable(g, next)
  {
    next := Apply(g, s, e);
    var events :| RunsTo(g, events, s);
    assert (events + [e])[..|events|] == events;
    assert RunsTo(g, events + [e], next);
  }

  /** Two processes, calls 0 and 1, both about to create the file. */
  lemma TwoContenders(g: Granularity, s: State) returns (both: State)
    requires Reachable(g, s) && 1 !in s.alive && 2 !in s.alive && 0 !in s.calls && 1 !in s.calls
    ensures Reachable(g, both)
    ensures both == s.(alive := s.alive + {1, 2},
                       calls := s.calls[0 := Call(Identity(1, 0), Trying)][1 := Call(Identity(2, 0), Trying)])
  {
    both := Step(g, s, Spawn(1));
    both := Step(g, both, Spawn(2));
    both := Step(g, both, Begin(0, Identity(1, 0)));
    both := Step(g, both, Begin(1, Identity(2, 0)));
    assert s.alive + {1} + {2} == s.alive + {1, 2};
  }

  /** If the file can be seen between its creation and its first byte, a second process takes it for a crash's leftover. */
  lemma SplitCreateBreaks(g: Granularity) returns (s: State)
    requires !g.createIsOneStep
    ensures Reachable(g, s) && At(s, 0, Holding) && At(s, 1, Holding)
  {
    Start(g);
    s := TwoContenders(g, INIT);
    s := Step(g, s, Open(0));
    s := Step(g, s, Collide(1));
    if g.takeoverIsOneStep {
      s := Step(g, s, TakeOver(1));
    } else {
      s := Step(g, s, Judge(1));
      s := Step(g, s, Evict(1));
    }
    s := Step(g, s, Open(1));
    s := Step(g, s, Write(1));
    s := Step(g, s, Write(0));
  }

  /** Process 3 crashed while holding the lock; processes 1 and 2 are about to create the file. */
  lemma ContendersAfterACrash(g: Granularity) returns (s: State)
    requires g.createIsOneStep
    ensures Reachable(g, s)
    ensures s.alive == {1, 2} && s.nextInode == 1 && s.file == Present(0, Some(Contents(Identity(3, 0), 0)))
    ensures s.calls == map[0 := Call(Identity(1, 0), Trying), 1 := Call(Identity(2, 0), Trying)]
  {
    Start(g);
    s := Step(g, INIT, Spawn(3));
    s := Step(g, s, Begin(2, Identity(3, 0)));
    s := Step(g, s, Create(2));
    s := Step(g, s, Crash(3));
    assert s.calls == map[];
    s := TwoContenders(g, s);
  }

  /** If another process may act between the liveness probe and the delete, the delete can hit the new owner's file. */
  lemma SplitTakeoverBreaks(g: Granularity) returns (s: State)
    requires g.createIsOneStep && !g.takeoverIsOneStep
    ensures Reachable(g, s) && At(s, 0, Holding) && At(s, 1, Holding)
  {
    s := ContendersAfterACrash(g);
    s := Step(g, s, Collide(0));
    s := Step(g, s, Collide(1));
    s := Step(g, s, Judge(0));
    s := Step(g, s, Judge(1));
    s := Step(g, s, Evict(0));
    s := Step(g, s, Create(0));
    s := Step(g, s, Evict(1));
    s := Step(g, s, Create(1));
  }

  /** If the file can be read while its live holder's heartbeat has it truncated, it passes for a crash's leftover. */
  lemma SplitHeartbeatBreaks(g: Granularity) returns (s: State)
    requires g.createIsOneStep && g.takeoverIsOneStep && !g.heartbeatIsOneStep
    ensures Reachable(g, s) && At(s, 0, Holding) && At(s, 1, Holding)
  {
    Start(g);
    s := TwoContenders(g, INIT);
    s := Step(g, s, Create(0));
    s := Step(g, s, Collide(1));
    s := Step(g, s, Reread(0));
    s := Step(g, s, Truncate(0));
    s := Step(g, s, TakeOver(1));
    s := Step(g, s, Create(1));
    s := Step(g, s, Rewrite(0, 1));
  }

  lemma TwoHoldersAreUnsafe(g: Granularity, s: State)
    requires Reachable(g, s) && At(s, 0, Holding) && At(s, 1, Holding)
    ensures !AlwaysSafe(g)
  {
    assert Holds(s, 0) && Holds(s, 1);
  }

  /** Every one of the three atomicity assumptions is needed, and together they are enough. */
  lemma SafeExactlyWhenAllThreeAreOneStep(g: Granularity)
    ensures AlwaysSafe(g) <==> g.createIsOneStep && g.takeoverIsOneStep && g.heartbeatIsOneStep
  {
    if !g.createIsOneStep {
      var s := SplitCreateBreaks(g);
      TwoHoldersAreUnsafe(g, s);
    } else if !g.takeoverIsOneStep {
      var s := SplitTakeoverBreaks(g);
      TwoHoldersAreUnsafe(g, s);
    } else if !g.heartbeatIsOneStep {
      var s := SplitHeartbeatBreaks(g);
      TwoHoldersAreUnsafe(g, s);
    } else {
      forall s | Reachable(g, s) ensures Safe(s) {
        CoarseIsSafe(s);
      }
    }
  }

  // ----- who can get the lock? -----

  predicate IsOwnStep(e: Event, k: nat) {
    !e.Spawn? && !e.Crash? && !e.Begin? && e.k == k
  }

  /** Call `k`, scheduled alone from `s`, gets to `t`. */
  ghost predicate Alone(k: nat, s: State, events: seq<Event>, t: State)
    decreases |events|
  {
    if events == [] then t == s
    else
      && IsOwnStep(events[0], k) && Enabled(COARSE, s, events[0])
      && Alone(k, Apply(COARSE, s, events[0]), events[1..], t)
  }

  ghost predicate AcquiredAlone(k: nat, s: State, events: seq<Event>, t: State) {
    Alone(k, s, events, t) && At(t, k, Holding)
  }

  ghost predicate CanAcquireAlone(k: nat, s: State) {
    exists events, t :: AcquiredAlone(k, s, events, t)
  }

  /** While a live pid is named in the file, no schedule of `k` alone gets it the lock. */
  lemma {:induction false} LiveHolderBlocks(k: nat, s: State, events: seq<Event>, t: State)
    requires Alone(k, s, events, t) && !Stale(s)
    requires k in s.calls && s.calls[k].pc in {Trying, Blocked, Waiting, Finished}
    ensures !At(t, k, Holding)
    decreases |events|
  {
    if events != [] {
      LiveHolderBlocks(k, Apply(COARSE, s, events[0]), events[1..], t);
    }
  }

  lemma OneMoreStep(k: nat, s: State, e: Event, events: seq<Event>, t: State)
    requires IsOwnStep(e, k) && Enabled(COARSE, s, e) && Alone(k, Apply(COARSE, s, e), events, t)
    ensures Alone(k, s, [e] + events, t)
  {
    assert ([e] + events)[1..] == events;
  }

  lemma StaleCanBeAcquired(k: nat, s: State) returns (events: seq<Event>, t: State)
    requires At(s, k, Trying) && Stale(s)
    ensures Alone(k, s, events, t) && At(t, k, Holding)
    decreases s.file.Present?
  {
    if s.file.Absent? {
      t := Apply(COARSE, s, Create(k));
      events := [Create(k)];
      OneMoreStep(k, s, Create(k), [], t);
      assert [Create(k)] + [] == events;
    } else {
      var blocked := Apply(COARSE, s, Collide(k));
      var cleared := Apply(COARSE, blocked, TakeOver(k));
      events, t := StaleCanBeAcquired(k, cleared);
      OneMoreStep(k, blocked, TakeOver(k), events, t);
      OneMoreStep(k, s, Collide(k), [TakeOver(k)] + events, t);
      events := [Collide(k)] + ([TakeOver(k)] + events);
    }
  }

  /**
   A call that is trying gets the lock by its own steps exactly when the file is stale. A
   heartbeat plays no part; a pid reused after a crash keeps the file from being stale.
   */
  lemma AcquirableExactlyWhenStale(k: nat, s: State)
    requires At(s, k, Trying)
    ensures CanAcquireAlone(k, s) <==>
              s.file.Absent? || s.file.contents.None? || s.file.contents.value.owner.pid !in s.alive
  {
    if Stale(s) {
      var events, t := StaleCanBeAcquired(k, s);
      assert AcquiredAlone(k, s, events, t);
    } else {
      forall events, t | Alone(k, s, events, t) ensures !AcquiredAlone(k, s, events, t) {
        LiveHolderBlocks(k, s, events, t);
      }
    }
  }

  // ----- giving it back, and heartbeats -----

  /** A holder that releases leaves no file behind, by its own three steps and whatever happened before. */
  lemma ReleaseFreesTheLock(s: State, k: nat) returns (t: State)
    requires Reachable(COARSE, s) && At(s, k, Holding)
    ensures Alone(k, s, [Release(k), Check(k), Remove(k)], t)
    ensures t.file.Absent? && At(t, k, Finished) && forall l :: l != k && l in s.calls ==> l in t.calls && t.calls[l] == s.calls[l]
  {
    CoarseIsSafe(s);
    var releasing := Apply(COARSE, s, Release(k));
    var removing := Apply(COARSE, releasing, Check(k));
    t := Apply(COARSE, removing, Remove(k));
    OneMoreStep(k, removing, Remove(k), [], t);
    OneMoreStep(k, releasing, Check(k), [Remove(k)], t);
    OneMoreStep(k, s, Release(k), [Check(k)] + [Remove(k)], t);
    assert [Release(k)] + ([Check(k)] + [Remove(k)]) == [Release(k), Check(k), Remove(k)];
    assert [Remove(k)] + [] == [Remove(k)];
  }

  /** A holder's heartbeat is always written, and tells its time; the owner named stays. */
  lemma HeartbeatIsWritten(s: State, k: nat, at: nat)
    requires Reachable(COARSE, s) && At(s, k, Holding)
    ensures var t := Apply(COARSE, s, Beat(k, at));
            t.file.Present? && t.file.contents == Some(Contents(s.calls[k].id, at)) && t.calls == s.calls
  {
    CoarseIsSafe(s);
  }

  /** A call whose lock was taken over stamps nothing and deletes nothing, at any granularity. */
  lemma OthersFileIsLeftAlone(g: Granularity, s: State, k: nat, at: nat)
    requires k in s.calls && s.file.Present? && !Names(s.file, s.calls[k].id)
    ensures Enabled(g, s, Beat(k, at)) ==> Apply(g, s, Beat(k, at)).file == s.file
    ensures Enabled(g, s, Reread(k)) ==> !At(Apply(g, s, Reread(k)), k, Stamping)
    ensures Enabled(g, s, Check(k)) ==> At(Apply(g, s, Check(k)), k, Finished) && Apply(g, s, Check(k)).file == s.file
  {
  }

  /** A call that gave up is over: it has no further step. */
  lemma GivingUpIsFinal(g: Granularity, s: State, k: nat, e: Event)
    requires Enabled(g, s, GiveUp(k)) && IsOwnStep(e, k)
    ensures var t := Apply(g, s, GiveUp(k)); t.file == s.file && !Enabled(g, t, e)
  {
  }
}
