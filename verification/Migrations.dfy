/**
 Schema migrations: files numbered without gaps, each applied in a transaction of its own.
 However often migrating is interrupted, finishing it later gives the same database.
 */
module Migrations {
  import opened Prelude

  /** A migration; `run` is what its SQL makes of the content, or `None` where it fails. */
  datatype Migration<!C> = Migration(version: int, run: C -> Option<C>)

  /** A directory entry: a numbered migration, another `.sql` file, or any other file. */
  datatype File<!C> = Numbered(m: Migration<C>) | OtherSql | Other

  datatype LoadError = Misnamed | Repeated(version: int) | Gap(version: int)

  // ----- loading -----

  function Shipped<C>(files: seq<File<C>>): seq<Migration<C>> {
    if files == [] then []
    else
      var before, last := Shipped(files[..|files| - 1]), files[|files| - 1];
      if last.Numbered? then before + [last.m] else before
  }

  function Versions<C>(all: seq<Migration<C>>): multiset<int> {
    if all == [] then multiset{} else Versions(all[..|all| - 1]) + multiset{all[|all| - 1].version}
  }

  /** 1, 2, …, n, each once. */
  function OneTo(n: nat): multiset<int> {
    if n == 0 then multiset{} else OneTo(n - 1) + multiset{n}
  }

  ghost predicate Sorted<C>(all: seq<Migration<C>>) {
    forall i, j :: 0 <= i < j < |all| ==> all[i].version <= all[j].version
  }

  ghost predicate NoneTwice<C>(all: seq<Migration<C>>) {
    forall i, j :: 0 <= i < j < |all| ==> all[i].version != all[j].version
  }

  ghost predicate Consecutive<C>(all: seq<Migration<C>>) {
    forall i :: 0 <= i < |all| ==> all[i].version == i + 1
  }

  lemma {:induction false} VersionsAppend<C>(a: seq<Migration<C>>, b: seq<Migration<C>>)
    ensures Versions(a + b) == Versions(a) + Versions(b)
  {
    if b == [] {
      assert a + b == a;
    } else {
      assert (a + b)[..|a + b| - 1] == a + b[..|b| - 1];
      VersionsAppend(a, b[..|b| - 1]);
    }
  }

  lemma {:induction false} VersionIn<C>(all: seq<Migration<C>>, v: int)
    ensures v in Versions(all) <==> exists i :: 0 <= i < |all| && all[i].version == v
  {
    if all != [] {
      VersionIn(all[..|all| - 1], v);
      assert forall i :: 0 <= i < |all| - 1 ==> all[..|all| - 1][i] == all[i];
    }
  }

  /** `sort` on the version: the new migration goes after every smaller or equal one. */
  method Insert<C>(sorted: seq<Migration<C>>, m: Migration<C>) returns (r: seq<Migration<C>>)
    requires Sorted(sorted)
    ensures Sorted(r) && multiset(r) == multiset(sorted) + multiset{m}
    ensures NoneTwice(sorted) && (forall i :: 0 <= i < |sorted| ==> sorted[i].version != m.version) ==> NoneTwice(r)
  {
    var k := |sorted|;
    while k > 0 && sorted[k - 1].version > m.version
      invariant 0 <= k <= |sorted|
      invariant k < |sorted| ==> sorted[k].version > m.version
    {
      k := k - 1;
    }
    InsertedAt(sorted, k, m);
    r := sorted[..k] + [m] + sorted[k..];
  }

  lemma InsertedAt<C>(s: seq<Migration<C>>, k: nat, m: Migration<C>)
    requires k <= |s|
    ensures multiset(s[..k] + [m] + s[k..]) == multiset(s) + multiset{m}
  {
    assert s == s[..k] + s[k..];
  }

  lemma RemoveOne<C>(all: seq<Migration<C>>, j: nat)
    requires j < |all|
    ensures var rest := all[..j] + all[j + 1..];
            multiset(all) == multiset(rest) + multiset{all[j]} && Versions(all) == Versions(rest) + multiset{all[j].version}
  {
    var x := [all[j]];
    assert all == all[..j] + x + all[j + 1..];
    VersionsAppend(all[..j] + x, all[j + 1..]);
    VersionsAppend(all[..j], x);
    VersionsAppend(all[..j], all[j + 1..]);
    assert Versions(x) == multiset{all[j].version} by { assert x[..0] == []; }
  }

  lemma RemoveFromBoth<T>(a: multiset<T>, b: multiset<T>, x: T)
    requires a + multiset{x} == b + multiset{x}
    ensures a == b
  {
    assert a == (a + multiset{x}) - multiset{x};
    assert b == (b + multiset{x}) - multiset{x};
  }

  /** The versions do not depend on the order. */
  lemma {:induction false} SameVersions<C>(a: seq<Migration<C>>, b: seq<Migration<C>>)
    requires multiset(a) == multiset(b)
    ensures |a| == |b| && Versions(a) == Versions(b)
  {
    assert |a| == |multiset(a)| && |b| == |multiset(b)|;
    if a != [] {
      var n := |a| - 1;
      assert a[n] in multiset(b);
      var j :| 0 <= j < |b| && b[j] == a[n];
      var rest := b[..j] + b[j + 1..];
      RemoveOne(b, j);
      assert a == a[..n] + [a[n]];
      RemoveFromBoth(multiset(a[..n]), multiset(rest), a[n]);
      SameVersions(a[..n], rest);
    }
  }

  lemma {:induction false} ConsecutiveVersions<C>(all: seq<Migration<C>>)
    requires Consecutive(all)
    ensures Versions(all) == OneTo(|all|)
  {
    if all != [] {
      ConsecutiveVersions(all[..|all| - 1]);
    }
  }

  lemma {:induction false} OneToHolds(n: nat, v: int)
    ensures OneTo(n)[v] == if 1 <= v <= n then 1 else 0
  {
    if n > 0 {
      OneToHolds(n - 1, v);
    }
  }

  lemma LastIsGreatest<C>(all: seq<Migration<C>>)
    requires all != [] && Sorted(all) && Versions(all) == OneTo(|all|)
    ensures all[|all| - 1].version == |all|
  {
    var n := |all|;
    var last := all[n - 1].version;
    OneToHolds(n, last);
    OneToHolds(n, n);
    VersionIn(all, last);
    VersionIn(all, n);
  }

  lemma InitIsOneTo<C>(all: seq<Migration<C>>)
    requires all != [] && Versions(all) == OneTo(|all|) && all[|all| - 1].version == |all|
    ensures Versions(all[..|all| - 1]) == OneTo(|all| - 1)
  {
    RemoveFromBoth(Versions(all[..|all| - 1]), OneTo(|all| - 1), |all|);
  }

  lemma ConsecutiveWithLast<C>(all: seq<Migration<C>>)
    requires all != [] && Consecutive(all[..|all| - 1]) && all[|all| - 1].version == |all|
    ensures Consecutive(all)
  {
    assert forall i :: 0 <= i < |all| - 1 ==> all[i] == all[..|all| - 1][i];
  }

  lemma {:induction false} SortedOneToIsConsecutive<C>(all: seq<Migration<C>>)
    requires Sorted(all) && Versions(all) == OneTo(|all|)
    ensures Consecutive(all)
  {
    if all != [] {
      var n := |all| - 1;
      LastIsGreatest(all);
      InitIsOneTo(all);
      SortedOneToIsConsecutive(all[..n]);
      ConsecutiveWithLast(all);
    }
  }

  /** What numbering the versions 1 to n without gap or repetition means. */
  ghost predicate WellNumbered<C>(all: seq<Migration<C>>) {
    Versions(all) == OneTo(|all|)
  }

  method Collect<C>(files: seq<File<C>>) returns (r: Result<seq<Migration<C>>, LoadError>)
    ensures r.Success? ==> OtherSql !in files && Sorted(r.value) && multiset(r.value) == multiset(Shipped(files))
    ensures r.Success? ==> NoneTwice(r.value)
    ensures r.Failure? ==> if r.error.Misnamed? then OtherSql in files
                           else r.error.Repeated? && Versions(Shipped(files))[r.error.version] >= 2
    ensures r.Failure? ==> OtherSql in files || !WellNumbered(Shipped(files))
  {
    var all: seq<Migration<C>> := [];
    for i := 0 to |files|
      invariant Sorted(all) && NoneTwice(all) && OtherSql !in files[..i]
      invariant multiset(all) == multiset(Shipped(files[..i]))
    {
      assert files[..i + 1][..i] == files[..i];
      match files[i]
      case Other =>
      case OtherSql =>
        assert files[i] in files;
        return Failure(Misnamed);
      case Numbered(m) =>
        if exists j :: 0 <= j < |all| && all[j].version == m.version {
          SameVersions(all, Shipped(files[..i]));
          VersionIn(all, m.version);
          RepeatedIsNotOneTo(files, i);
          return Failure(Repeated(m.version));
        }
        all := Insert(all, m);
    }
    assert files[..|files|] == files;
    r := Success(all);
  }

  /**
   `loadMigrations`: succeeds exactly when every `.sql` file is named as a migration and the
   versions are 1 to n, each once; the result is then all of them in order.
   */
  method Load<C>(files: seq<File<C>>) returns (r: Result<seq<Migration<C>>, LoadError>)
    ensures r.Success? <==> OtherSql !in files && WellNumbered(Shipped(files))
    ensures r.Success? ==> Consecutive(r.value) && multiset(r.value) == multiset(Shipped(files))
    ensures r == Failure(Misnamed) ==> OtherSql in files
    ensures r.Failure? && r.error.Repeated? ==> Versions(Shipped(files))[r.error.version] >= 2
    ensures r.Failure? && r.error.Gap? ==>
              var v, versions := r.error.version, Versions(Shipped(files));
              v != 1 && v in versions && v - 1 !in versions
  {
    r := Collect(files);
    if r.Failure? {
      return;
    }
    var all := r.value;
    SameVersions(all, Shipped(files));
    for i := 0 to |all|
      invariant forall j :: 0 <= j < i ==> all[j].version == j + 1
    {
      if all[i].version != i + 1 {
        NotConsecutive(all, i);
        NothingBefore(all, i);
        return Failure(Gap(all[i].version));
      }
    }
    ConsecutiveVersions(all);
  }

  /** In order and none twice, the first one out of place follows a missing one. */
  lemma NothingBefore<C>(all: seq<Migration<C>>, i: nat)
    requires Sorted(all) && NoneTwice(all) && i < |all| && all[i].version != i + 1
    requires forall j :: 0 <= j < i ==> all[j].version == j + 1
    ensures var v := all[i].version; v != 1 && v in Versions(all) && v - 1 !in Versions(all)
  {
    var v := all[i].version;
    VersionIn(all, v);
    VersionIn(all, v - 1);
    assert i > 0 ==> all[i - 1].version == i && all[i - 1].version <= v;
    forall j | 0 <= j < |all| ensures all[j].version != v - 1 {
      if j > i {
        assert all[i].version <= all[j].version;
      }
    }
  }

  lemma NotConsecutive<C>(all: seq<Migration<C>>, i: nat)
    requires Sorted(all) && i < |all| && all[i].version != i + 1
    ensures Versions(all) != OneTo(|all|)
  {
    if Versions(all) == OneTo(|all|) {
      SortedOneToIsConsecutive(all);
    }
  }

  lemma {:induction false} MoreFilesMoreVersions<C>(files: seq<File<C>>, i: nat, v: int)
    requires i <= |files|
    ensures Versions(Shipped(files[..i]))[v] <= Versions(Shipped(files))[v]
    decreases |files|
  {
    if i < |files| {
      var front, last := files[..|files| - 1], files[|files| - 1];
      assert front[..i] == files[..i];
      MoreFilesMoreVersions(front, i, v);
      if last.Numbered? {
        VersionsAppend(Shipped(front), [last.m]);
      }
    } else {
      assert files[..i] == files;
    }
  }

  lemma RepeatedIsNotOneTo<C>(files: seq<File<C>>, i: nat)
    requires i < |files| && files[i].Numbered? && files[i].m.version in Versions(Shipped(files[..i]))
    ensures Versions(Shipped(files))[files[i].m.version] >= 2
    ensures Versions(Shipped(files)) != OneTo(|Shipped(files)|)
  {
    var v := files[i].m.version;
    assert files[..i + 1][..i] == files[..i];
    VersionsAppend(Shipped(files[..i]), [files[i].m]);
    assert Versions([files[i].m]) == multiset{v} by { assert [files[i].m][..0] == []; }
    MoreFilesMoreVersions(files, i + 1, v);
    OneToHolds(|Shipped(files)|, v);
  }

  // ----- migrating -----

  /** What is committed: the content, and the version recorded last. */
  datatype Snapshot<C> = Snapshot(content: C, version: nat)

  function Upto<C>(all: seq<Migration<C>>, target: int): nat {
    if target < 0 then 0 else if target < |all| then target else |all|
  }

  /** Where an attempt gets: `budget` migrations are committed before it is interrupted, if it gets that far. */
  function Advance<C>(all: seq<Migration<C>>, s: Snapshot<C>, target: int, budget: nat): Snapshot<C>
    decreases budget
  {
    if budget == 0 || s.version >= Upto(all, target) then s
    else
      var next := all[s.version].run(s.content);
      if next.None? then s else Advance(all, Snapshot(next.value, s.version + 1), target, budget - 1)
  }

  datatype MigrateError = TooNew | MigrationFailed(version: int)

  /** An open database: the working content and ledger, and what a rollback would restore. */
  class Database<C> {
    var content: C
    var ledger: seq<int>
    var saved: Option<(C, seq<int>)>

    constructor (content: C)
      ensures this.content == content && ledger == [] && saved.None?
    {
      this.content := content;
      ledger := [];
      saved := None;
    }

    /** Nothing open, and the ledger lists 1 to the current version. */
    ghost predicate AtRest()
      reads this
    {
      saved.None? && forall i :: 0 <= i < |ledger| ==> ledger[i] == i + 1
    }

    ghost function Committed(): Snapshot<C>
      reads this
    {
      Snapshot(content, |ledger|)
    }

    method Begin()
      requires saved.None?
      modifies this
      ensures saved == Some((content, ledger)) && content == old(content) && ledger == old(ledger)
    {
      saved := Some((content, ledger));
    }

    method Commit()
      modifies this
      ensures saved.None? && content == old(content) && ledger == old(ledger)
    {
      saved := None;
    }

    method Rollback()
      requires saved.Some?
      modifies this
      ensures saved.None? && content == old(saved.value.0) && ledger == old(saved.value.1)
    {
      content, ledger := saved.value.0, saved.value.1;
      saved := None;
    }

    /**
     One migration in its transaction. It may be interrupted before the commit, with any
     `partial` content left behind by then; the rollback restores what was committed.
     */
    method ApplyOne(m: Migration<C>, interrupted: bool, partial: C) returns (ok: bool)
      requires AtRest() && m.version == |ledger| + 1
      modifies this
      ensures AtRest()
      ensures ok <==> !interrupted && m.run(old(content)).Some?
      ensures ok ==> content == m.run(old(content)).value && ledger == old(ledger) + [m.version]
      ensures !ok ==> content == old(content) && ledger == old(ledger)
    {
      Begin();
      var next := m.run(content);
      if interrupted || next.None? {
        content := partial;
        Rollback();
        return false;
      }
      content := next.value;
      ledger := ledger + [m.version];
      Commit();
      ok := true;
    }

    /** `migrate`, interrupted once `budget` migrations are committed. */
    method Migrate(all: seq<Migration<C>>, target: int, budget: nat, partial: C) returns (r: Result<seq<int>, MigrateError>)
      requires AtRest() && Consecutive(all)
      modifies this
      ensures AtRest()
      ensures old(|ledger|) > |all| <==> r == Failure(TooNew)
      ensures old(|ledger|) > |all| ==> content == old(content) && ledger == old(ledger)
      ensures old(|ledger|) <= |all| ==> Committed() == Advance(all, old(Committed()), target, budget)
      ensures r.Success? <==> old(|ledger|) <= |all| && (|ledger| >= target || |ledger| == |all|)
      ensures r.Success? ==> old(ledger) + r.value == ledger
      ensures r.Failure? && r.error.MigrationFailed? ==> r.error.version == |ledger| + 1
    {
      var from := |ledger|;
      if from > |all| {
        return Failure(TooNew);
      }
      var applied: seq<int> := [];
      var left := budget;
      for i := 0 to |all|
        invariant AtRest() && |ledger| == (if i <= from then from else if i <= Upto(all, target) then i else if from >= Upto(all, target) then from else Upto(all, target))
        invariant old(ledger) + applied == ledger
        invariant Advance(all, old(Committed()), target, budget) == Advance(all, Committed(), target, left)
      {
        var m := all[i];
        if m.version <= from || m.version > target {
          continue;
        }
        var ok := ApplyOne(m, left == 0, partial);
        if !ok {
          return Failure(MigrationFailed(m.version));
        }
        left := left - 1;
        applied := applied + [m.version];
      }
      r := Success(applied);
    }
  }

  /** Stopping after `a` migrations and going on for `b` more is going on for `a + b`. */
  lemma {:induction false} AdvanceTwice<C>(all: seq<Migration<C>>, s: Snapshot<C>, target: int, a: nat, b: nat)
    ensures Advance(all, Advance(all, s, target, a), target, b) == Advance(all, s, target, a + b)
    decreases a
  {
    if a > 0 && s.version < Upto(all, target) {
      var next := all[s.version].run(s.content);
      if next.Some? {
        AdvanceTwice(all, Snapshot(next.value, s.version + 1), target, a - 1, b);
      } else {
      }
    }
  }

  /** A budget for every migration is as good as no interruption. */
  lemma {:induction false} EnoughIsEnough<C>(all: seq<Migration<C>>, s: Snapshot<C>, target: int, a: nat, b: nat)
    requires a + s.version >= |all| && b + s.version >= |all|
    ensures Advance(all, s, target, a) == Advance(all, s, target, b)
    decreases a
  {
    if a > 0 && b > 0 && s.version < Upto(all, target) {
      var next := all[s.version].run(s.content);
      if next.Some? {
        EnoughIsEnough(all, Snapshot(next.value, s.version + 1), target, a - 1, b - 1);
      }
    }
  }

  /** Any number of interrupted attempts, one after the other. */
  function Attempts<C>(all: seq<Migration<C>>, s: Snapshot<C>, target: int, budgets: seq<nat>): Snapshot<C>
    decreases |budgets|
  {
    if budgets == [] then s else Attempts(all, Advance(all, s, target, budgets[0]), target, budgets[1..])
  }

  /** However migrating was interrupted before, finishing it gives what one uninterrupted run gives. */
  lemma {:induction false} InterruptionsDoNotMatter<C>(all: seq<Migration<C>>, s: Snapshot<C>, target: int, budgets: seq<nat>)
    ensures Advance(all, Attempts(all, s, target, budgets), target, |all|) == Advance(all, s, target, |all|)
    decreases |budgets|
  {
    if budgets != [] {
      var after := Advance(all, s, target, budgets[0]);
      InterruptionsDoNotMatter(all, after, target, budgets[1..]);
      AdvanceTwice(all, s, target, budgets[0], |all|);
      EnoughIsEnough(all, s, target, budgets[0] + |all|, |all|);
    }
  }

  /** The contents passed through by running migrations `from` + 1 on, one after the other. */
  ghost predicate Chain<C(!new)>(all: seq<Migration<C>>, from: nat, contents: seq<C>) {
    && contents != [] && from + |contents| <= |all| + 1
    && forall i :: 0 <= i < |contents| - 1 ==> all[from + i].run(contents[i]) == Some(contents[i + 1])
  }

  /**
   An attempt runs the migrations after the current version, in order and each on what the
   one before left, and stops only for the budget, at the target or the last one, or where one fails.
   */
  lemma {:induction false} AdvanceRunsInOrder<C(!new)>(all: seq<Migration<C>>, s: Snapshot<C>, target: int, budget: nat) returns (contents: seq<C>)
    requires s.version <= |all|
    ensures Chain(all, s.version, contents) && contents[0] == s.content
    ensures Advance(all, s, target, budget) == Snapshot(contents[|contents| - 1], s.version + |contents| - 1)
    ensures |contents| - 1 <= budget && (|contents| > 1 ==> s.version + |contents| - 1 <= target)
    ensures var last := s.version + |contents| - 1;
            |contents| - 1 == budget || last >= target || last == |all| || all[last].run(contents[|contents| - 1]).None?
    decreases budget
  {
    contents := [s.content];
    if budget > 0 && s.version < Upto(all, target) {
      var next := all[s.version].run(s.content);
      if next.Some? {
        var rest := AdvanceRunsInOrder(all, Snapshot(next.value, s.version + 1), target, budget - 1);
        contents := [s.content] + rest;
      }
    }
  }
}
