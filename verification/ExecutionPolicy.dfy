/**
 Where a worker may touch files: every path of a tool call must land under the worktree or
 the attempt's own artifact directory, and must not be on the deny list.
 */
module ExecutionPolicy {
  import opened CanonicalPath
  import opened DenyList
  import opened PathText
  import opened Paths
  import opened Prelude

  const STORE_ENTRY := "**/.korwf/**"

  /** Worktree as given, and the artifact directory when the attempt has one. */
  datatype Context = Context(worktree: string, artifacts: Option<string>)

  function Roots(ctx: Context): seq<string> {
    [Normalise(ctx.worktree)] + if ctx.artifacts.Some? then [Normalise(ctx.artifacts.value)] else []
  }

  predicate InOwnArtifacts(ctx: Context, resolved: string) {
    ctx.artifacts.Some? && UnderRoot(resolved, Normalise(ctx.artifacts.value))
  }

  function EntryHit(m: Matcher, test: Test, path: string): Option<string> {
    var candidates := Candidates(path);
    var shipped := FirstHit(test, m.shipped, candidates);
    if shipped.Some? then shipped
    else if FirstHit(test, m.allow, candidates).None? then FirstHit(test, m.extra, candidates)
    else None
  }

  /** Not on the deny list, or excused from the store's own entry inside the attempt's artifacts. */
  predicate Clean(ctx: Context, m: Matcher, test: Test, resolved: string) {
    var form := Normalised(resolved);
    && form != "" && ".." !in Split(form)
    && (EntryHit(m, test, form).None? || (InOwnArtifacts(ctx, resolved) && EntryHit(m, test, form) == Some(STORE_ENTRY)))
  }

  predicate Permitted(ctx: Context, m: Matcher, test: Test, path: string) {
    var resolved := Resolve(path, ctx.worktree);
    WithinRoots(resolved, ctx.worktree, Roots(ctx)) && Clean(ctx, m, test, resolved)
  }

  datatype Refusal = Outside(path: string, resolved: string) | Listed(path: string, entry: Option<string>)

  /** A refusal says whether containment failed, and where the path led if so. */
  ghost predicate Explains(ctx: Context, refusal: Refusal) {
    var resolved := Resolve(refusal.path, ctx.worktree);
    && (refusal.Outside? <==> !WithinRoots(resolved, ctx.worktree, Roots(ctx)))
    && (refusal.Outside? ==> refusal.resolved == resolved)
  }

  method DecidePath(path: string, ctx: Context, m: Matcher, test: Test) returns (refusal: Option<Refusal>)
    requires !m.denyAbsolute
    ensures refusal.None? <==> Permitted(ctx, m, test, path)
    ensures refusal.Some? ==> refusal.value.path == path && Explains(ctx, refusal.value)
  {
    var resolved := Resolve(path, ctx.worktree);
    if !WithinRoots(resolved, ctx.worktree, Roots(ctx)) {
      return Some(Outside(path, resolved));
    }
    var verdict := Decide(m, test, resolved);
    if verdict.denied && verdict.rule != Some(Absolute) {
      if !(InOwnArtifacts(ctx, resolved) && verdict.glob == Some(STORE_ENTRY)) {
        return Some(Listed(path, verdict.glob));
      }
    }
    refusal := None;
  }

  ghost predicate AllPermitted(ctx: Context, m: Matcher, test: Test, paths: seq<string>) {
    forall path :: path in paths ==> Permitted(ctx, m, test, path)
  }

  ghost predicate FirstRefused(ctx: Context, m: Matcher, test: Test, paths: seq<string>, i: nat) {
    i < |paths| && AllPermitted(ctx, m, test, paths[..i]) && !Permitted(ctx, m, test, paths[i])
  }

  lemma OneMorePermitted(ctx: Context, m: Matcher, test: Test, paths: seq<string>, path: string)
    requires AllPermitted(ctx, m, test, paths) && Permitted(ctx, m, test, path)
    ensures AllPermitted(ctx, m, test, paths + [path])
  {
  }

  /** `decidePaths`: the first path that is not permitted, and why; `None` when all are. */
  method DecidePaths(paths: seq<string>, ctx: Context, m: Matcher, test: Test)
      returns (refusal: Option<Refusal>, ghost at: nat)
    requires !m.denyAbsolute
    ensures refusal.None? ==> AllPermitted(ctx, m, test, paths)
    ensures refusal.Some? ==> FirstRefused(ctx, m, test, paths, at) && refusal.value.path == paths[at] && Explains(ctx, refusal.value)
  {
    for i := 0 to |paths|
      invariant AllPermitted(ctx, m, test, paths[..i])
    {
      at := i;
      refusal := DecidePath(paths[i], ctx, m, test);
      if refusal.Some? {
        return;
      }
      OneMorePermitted(ctx, m, test, paths[..i], paths[i]);
      TakeOneMore(paths, i);
    }
    assert paths[..|paths|] == paths;
    refusal := None;
    at := 0;
  }

  // ----- what permission means -----

  /**
   Once resolved from an absolute worktree, a path is never refused for traversal or
   emptiness: it is canonical already, and the deny list sees just the names walked to.
   */
  lemma ResolvedIsNeverTraversal(path: string, worktree: string)
    requires IsAbsolute(worktree)
    ensures var resolved := Resolve(path, worktree);
            && Normalised(resolved) == resolved == Render(true, Reached(path, worktree))
            && resolved != "" && ".." !in Split(resolved)
  {
    var resolved, parts := Resolve(path, worktree), Reached(path, worktree);
    ResolveIsReached(path, worktree);
    RenderKeepsKind(true, parts);
    UnixFixed(resolved);
    SplitRender(true, parts);
    NamesOnlyIsCanonical(resolved);
  }

  /** The place reached lies in a directory, segment by segment. */
  ghost predicate LandsIn(path: string, worktree: string, dir: string) {
    Place(dir) <= Reached(path, worktree)
  }

  ghost predicate LandsInArtifacts(ctx: Context, path: string) {
    ctx.artifacts.Some? && LandsIn(path, ctx.worktree, ctx.artifacts.value)
  }

  lemma ResolvedAgain(path: string, worktree: string)
    requires IsAbsolute(worktree)
    ensures Resolve(Resolve(path, worktree), worktree) == Resolve(path, worktree)
  {
    ResolveIsReached(path, worktree);
    var whole := if IsAbsolute(path) then path else worktree + "/" + path;
    assert IsAbsolute(whole);
    var parts := NormaliseIsNormal(whole);
    NormaliseIsIdempotent(whole);
  }

  lemma RootHolds(path: string, worktree: string, dir: string)
    requires IsAbsolute(worktree) && IsAbsolute(dir) && Place(dir) != []
    ensures UnderRoot(Resolve(path, worktree), Normalise(dir)) <==> LandsIn(path, worktree, dir)
  {
    var parts := NormaliseIsNormal(dir);
    NormaliseIsIdempotent(dir);
    NormalisePreservesMeaning(dir, []);
    ContainmentIsSegmentPrefix(path, worktree, Normalise(dir));
  }

  lemma WithinMeans(ctx: Context, path: string)
    requires IsAbsolute(ctx.worktree) && Place(ctx.worktree) != []
    requires ctx.artifacts.Some? ==> IsAbsolute(ctx.artifacts.value) && Place(ctx.artifacts.value) != []
    ensures var resolved := Resolve(path, ctx.worktree);
            && (WithinRoots(resolved, ctx.worktree, Roots(ctx)) <==> LandsIn(path, ctx.worktree, ctx.worktree) || LandsInArtifacts(ctx, path))
            && (InOwnArtifacts(ctx, resolved) <==> LandsInArtifacts(ctx, path))
  {
    ResolvedAgain(path, ctx.worktree);
    RootHolds(path, ctx.worktree, ctx.worktree);
    assert Roots(ctx)[0] == Normalise(ctx.worktree);
    if ctx.artifacts.Some? {
      RootHolds(path, ctx.worktree, ctx.artifacts.value);
      assert Roots(ctx)[1] == Normalise(ctx.artifacts.value);
    }
  }

  // ----- which entries are excused in the artifacts -----

  predicate AnyHits(test: Test, entries: seq<string>, candidates: seq<string>) {
    exists e :: e in entries && Hits(test, e, candidates)
  }

  /** Some entry other than the store's own matches. */
  predicate OtherHits(test: Test, entries: seq<string>, candidates: seq<string>) {
    exists e :: e in entries && e != STORE_ENTRY && Hits(test, e, candidates)
  }

  /** Some entry other than the store's own matches, and the store's is not listed before it or does not match. */
  predicate OtherHitsFirst(test: Test, entries: seq<string>, candidates: seq<string>) {
    exists i :: 0 <= i < |entries| && HitsBeforeStore(test, entries, candidates, i)
  }

  predicate HitsBeforeStore(test: Test, entries: seq<string>, candidates: seq<string>, i: nat)
    requires i < |entries|
  {
    && entries[i] != STORE_ENTRY && Hits(test, entries[i], candidates)
    && (STORE_ENTRY in entries[..i] ==> !Hits(test, STORE_ENTRY, candidates))
  }

  lemma OtherHitsFirstStep(test: Test, entries: seq<string>, candidates: seq<string>)
    requires entries != []
    ensures OtherHitsFirst(test, entries, candidates) <==>
            || (entries[0] != STORE_ENTRY && Hits(test, entries[0], candidates))
            || ((entries[0] == STORE_ENTRY ==> !Hits(test, STORE_ENTRY, candidates)) && OtherHitsFirst(test, entries[1..], candidates))
  {
    var rest := entries[1..];
    forall i | 0 <= i < |rest| ensures entries[..i + 1] == [entries[0]] + rest[..i] {
    }
    if OtherHitsFirst(test, entries, candidates) {
      var i :| 0 <= i < |entries| && HitsBeforeStore(test, entries, candidates, i);
      if i > 0 {
        assert entries[..i] == [entries[0]] + rest[..i - 1];
        assert HitsBeforeStore(test, rest, candidates, i - 1);
      }
    }
    if entries[0] != STORE_ENTRY && Hits(test, entries[0], candidates) {
      assert HitsBeforeStore(test, entries, candidates, 0);
    }
    if i :| 0 <= i < |rest| && HitsBeforeStore(test, rest, candidates, i) {
      if entries[0] == STORE_ENTRY ==> !Hits(test, STORE_ENTRY, candidates) {
        assert HitsBeforeStore(test, entries, candidates, i + 1);
      }
    }
  }

  /** The entry reported is the first that matches; when it is another than the store's. */
  lemma {:induction false} ReportedIsAnother(test: Test, entries: seq<string>, candidates: seq<string>)
    ensures FirstHit(test, entries, candidates).Some? <==> AnyHits(test, entries, candidates)
    ensures FirstHit(test, entries, candidates).Some? && FirstHit(test, entries, candidates) != Some(STORE_ENTRY)
       <==> OtherHitsFirst(test, entries, candidates)
  {
    if entries != [] {
      ReportedIsAnother(test, entries[1..], candidates);
      OtherHitsFirstStep(test, entries, candidates);
      assert forall e :: e in entries <==> e == entries[0] || e in entries[1..];
    }
  }

  ghost predicate GoodRoots(ctx: Context) {
    && IsAbsolute(ctx.worktree) && Place(ctx.worktree) != []
    && (ctx.artifacts.Some? ==> IsAbsolute(ctx.artifacts.value) && Place(ctx.artifacts.value) != [])
  }

  /** Denied by the shipped entries, or by the configured ones when no carve-out matches. */
  predicate Denied(m: Matcher, test: Test, candidates: seq<string>) {
    AnyHits(test, m.shipped, candidates) || (AnyHits(test, m.extra, candidates) && !AnyHits(test, m.allow, candidates))
  }

  /**
   Denied in the artifacts: an entry other than the store's matches and the store's does not
   match before it in the shipped list; or nothing shipped matches, no carve-out does, and
   the configured entries deny in the same way.
   */
  predicate DeniedInArtifacts(m: Matcher, test: Test, candidates: seq<string>) {
    || OtherHitsFirst(test, m.shipped, candidates)
    || (!AnyHits(test, m.shipped, candidates) && !AnyHits(test, m.allow, candidates)
        && OtherHitsFirst(test, m.extra, candidates))
  }

  /**
   With directories other than the root, a path is permitted exactly when it lands, segment
   by segment, in the worktree or the attempt's artifacts and is not denied there.
   */
  lemma PermittedMeans(ctx: Context, m: Matcher, test: Test, path: string)
    requires GoodRoots(ctx)
    ensures var candidates := Candidates(Resolve(path, ctx.worktree));
            Permitted(ctx, m, test, path) <==>
            if LandsInArtifacts(ctx, path) then !DeniedInArtifacts(m, test, candidates)
            else LandsIn(path, ctx.worktree, ctx.worktree) && !Denied(m, test, candidates)
  {
    var resolved := Resolve(path, ctx.worktree);
    WithinMeans(ctx, path);
    ResolvedIsNeverTraversal(path, ctx.worktree);
    ReportedIsAnother(test, m.shipped, Candidates(resolved));
    ReportedIsAnother(test, m.extra, Candidates(resolved));
    ReportedIsAnother(test, m.allow, Candidates(resolved));
  }

  /** Some entry other than the store's own denies the path. */
  predicate DeniedByAnother(m: Matcher, test: Test, candidates: seq<string>) {
    OtherHits(test, m.shipped, candidates) || (OtherHits(test, m.extra, candidates) && !AnyHits(test, m.allow, candidates))
  }

  /**
   In the artifacts only the store's own entry is excused, exactly when it is not the first
   shipped entry to match a path that another entry denies: the first one hides the rest.
   A matcher has the store's entry among the shipped ones and so not among the configured.
   */
  lemma OnlyTheStoreEntryIsExcused(ctx: Context, m: Matcher, test: Test, path: string)
    requires GoodRoots(ctx) && LandsInArtifacts(ctx, path)
    requires STORE_ENTRY in m.shipped && STORE_ENTRY !in m.extra
    ensures var candidates := Candidates(Resolve(path, ctx.worktree));
            (Permitted(ctx, m, test, path) <==> !DeniedByAnother(m, test, candidates)) <==>
            !(FirstHit(test, m.shipped, candidates) == Some(STORE_ENTRY) && DeniedByAnother(m, test, candidates))
  {
    var candidates := Candidates(Resolve(path, ctx.worktree));
    PermittedMeans(ctx, m, test, path);
    ReportedIsAnother(test, m.shipped, candidates);
    OtherHitsFirstIsOther(test, m.shipped, candidates);
    OtherHitsFirstIsOther(test, m.extra, candidates);
    WithoutStoreEntry(test, m.extra, candidates);
  }

  lemma WithoutStoreEntry(test: Test, entries: seq<string>, candidates: seq<string>)
    requires STORE_ENTRY !in entries
    ensures OtherHits(test, entries, candidates) ==> OtherHitsFirst(test, entries, candidates)
  {
    if OtherHits(test, entries, candidates) {
      var i :| 0 <= i < |entries| && entries[i] != STORE_ENTRY && Hits(test, entries[i], candidates);
      assert HitsBeforeStore(test, entries, candidates, i);
    }
  }

  lemma OtherHitsFirstIsOther(test: Test, entries: seq<string>, candidates: seq<string>)
    ensures OtherHitsFirst(test, entries, candidates) ==> OtherHits(test, entries, candidates)
  {
  }
}
