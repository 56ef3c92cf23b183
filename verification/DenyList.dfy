/**
 The deny list: what its entries match through the compiled globs, and what the verdict
 on a path is.
 */
module DenyList {
  import opened CanonicalPath
  import opened Glob
  import opened GlobCorrect
  import opened PathText
  import opened Prelude
  import opened Regex

  // ----- entries that start with any directories -----

  /** An entry for any depth, as all shipped entries are, with no character class. */
  ghost predicate AnyDepth(glob: string) {
    "**/" <= glob && ClassFree(glob)
  }

  predicate NewlineFree(s: string) {
    forall i :: 0 <= i < |s| ==> !IsNewline(s[i])
  }

  predicate Directories(prefix: string) {
    prefix == [] || prefix[|prefix| - 1] == '/'
  }

  lemma MatchReachesTheWhole(glob: string, prefix: string, suffix: string)
    requires AnyDepth(glob) && Directories(prefix) && NewlineFree(prefix)
    requires suffix in Meaning(true, glob, 0)
    ensures prefix + suffix in Meaning(true, glob, 0)
  {
    var x, y := CatParts(DirPrefixes(), Meaning(true, glob[3..], 0), suffix);
    assert DirPrefix(prefix + x);
    InCat(DirPrefixes(), Meaning(true, glob[3..], 0), prefix + x, y);
    assert (prefix + x) + y == prefix + suffix;
  }

  /** The glob that matches exactly the strings with this one's slashes and length. */
  function Shape(s: string): (r: string)
    ensures |r| == |s|
    ensures forall i :: 0 <= i < |r| ==> r[i] == '/' || r[i] == '?'
  {
    if s == [] then [] else [if s[0] == '/' then '/' else '?'] + Shape(s[1..])
  }

  lemma {:induction false} ShapeSymbol(s: string)
    requires s != []
    ensures Meaning(true, Shape(s), 0) == Cat(SymbolMeaning(true, Shape(s)), Meaning(true, Shape(s[1..]), 0))
    ensures [s[0]] in SymbolMeaning(true, Shape(s))
    ensures forall x :: x in SymbolMeaning(true, Shape(s)) ==> |x| == 1
  {
  }

  lemma {:induction false} ShapeMatches(s: string)
    ensures s in Meaning(true, Shape(s), 0)
  {
    if s != [] {
      ShapeSymbol(s);
      ShapeMatches(s[1..]);
      InCat(SymbolMeaning(true, Shape(s)), Meaning(true, Shape(s[1..]), 0), [s[0]], s[1..]);
      assert [s[0]] + s[1..] == s;
    }
  }

  lemma {:induction false} ShapeKeepsLength(s: string, t: string)
    requires t in Meaning(true, Shape(s), 0)
    ensures |t| == |s|
  {
    if s != [] {
      ShapeSymbol(s);
      var x, y := CatParts(SymbolMeaning(true, Shape(s)), Meaning(true, Shape(s[1..]), 0), t);
      ShapeKeepsLength(s[1..], y);
    }
  }

  function ShapeAnywhere(s: string): (glob: string)
    ensures "**/" <= glob
  {
    "**/" + Shape(s)
  }

  lemma SameFront(x: string, y: string, prefix: string, suffix: string)
    requires x + y == prefix + suffix && |y| == |suffix|
    ensures x == prefix
  {
    assert x == (x + y)[..|x|];
    assert prefix == (prefix + suffix)[..|prefix|];
  }

  lemma ShapeMissesNewlines(prefix: string, suffix: string)
    requires Directories(prefix) && !NewlineFree(prefix)
    ensures suffix in Meaning(true, ShapeAnywhere(suffix), 0)
    ensures prefix + suffix !in Meaning(true, ShapeAnywhere(suffix), 0)
  {
    var glob := ShapeAnywhere(suffix);
    ShapeMatches(suffix);
    InCat(DirPrefixes(), Meaning(true, Shape(suffix), 0), "", suffix);
    assert "" + suffix == suffix;
    if prefix + suffix in Meaning(true, glob, 0) {
      var x, y := CatParts(DirPrefixes(), Meaning(true, Shape(suffix), 0), prefix + suffix);
      ShapeKeepsLength(suffix, y);
      SameFront(x, y, prefix, suffix);
      assert false;
    }
  }

  /**
   A match of any entry for any depth on a trailing sub-path is a match on the whole path
   exactly when the directories in front contain no line terminator, which `.` never matches.
   */
  lemma SubPathMatchIsWholeMatch(prefix: string, suffix: string)
    requires Directories(prefix)
    ensures (forall glob :: AnyDepth(glob) && suffix in Meaning(true, glob, 0) ==> prefix + suffix in Meaning(true, glob, 0))
       <==> NewlineFree(prefix)
  {
    if NewlineFree(prefix) {
      forall glob | AnyDepth(glob) && suffix in Meaning(true, glob, 0) ensures prefix + suffix in Meaning(true, glob, 0) {
        MatchReachesTheWhole(glob, prefix, suffix);
      }
    } else {
      ShapeMissesNewlines(prefix, suffix);
    }
  }

  // ----- the matcher -----

  type Test = (string, string) -> bool

  /** The compiled expressions decide class-free globs by their meaning, ignoring letter case. */
  ghost predicate Faithful(test: Test) {
    forall glob, path :: ClassFree(glob) ==> (test(glob, path) <==> path in Meaning(true, glob, 0))
  }

  predicate Hits(test: Test, glob: string, candidates: seq<string>) {
    exists c :: c in candidates && test(glob, c)
  }

  function FirstHit(test: Test, entries: seq<string>, candidates: seq<string>): Option<string> {
    if entries == [] then None
    else if Hits(test, entries[0], candidates) then Some(entries[0])
    else FirstHit(test, entries[1..], candidates)
  }

  /** The first entry that matches any candidate, in the order of the entries. */
  method Matches(test: Test, entries: seq<string>, candidates: seq<string>) returns (hit: Option<string>)
    ensures hit == FirstHit(test, entries, candidates)
    ensures hit.Some? <==> exists e :: e in entries && Hits(test, e, candidates)
  {
    for i := 0 to |entries|
      invariant FirstHit(test, entries, candidates) == FirstHit(test, entries[i..], candidates)
      invariant forall e :: e in entries[..i] ==> !Hits(test, e, candidates)
    {
      assert entries[i..][1..] == entries[i + 1..];
      for j := 0 to |candidates|
        invariant forall c :: c in candidates[..j] ==> !test(entries[i], c)
      {
        if test(entries[i], candidates[j]) {
          assert candidates[j] in candidates;
          return Some(entries[i]);
        }
      }
      assert candidates[..|candidates|] == candidates;
    }
    assert entries[..|entries|] == entries;
    hit := None;
  }

  datatype Rule = Shipped | Config | Absolute | Traversal

  datatype Verdict = Verdict(denied: bool, glob: Option<string>, rule: Option<Rule>, normalised: string)

  /** A configured matcher; `extra` holds the configured entries that are not shipped. */
  datatype Matcher = Matcher(shipped: seq<string>, extra: seq<string>, allow: seq<string>, denyAbsolute: bool)

  predicate LooksAbsolute(path: string) {
    "/" <= path || (|path| >= 3 && IsLetter(path[0]) && path[1] == ':' && path[2] == '/') || "~" <= path
  }

  function Candidates(normalised: string): seq<string> {
    [normalised] + Suffixes(normalised)
  }

  predicate Refused(m: Matcher, normalised: string) {
    normalised == "" || ".." in Split(normalised) || (m.denyAbsolute && LooksAbsolute(normalised))
  }

  /** With absolute paths denied, refused are those from the root, from a drive and from a home directory. */
  lemma AbsoluteFormsAreRefused(m: Matcher, rest: string, drive: char)
    requires m.denyAbsolute
    ensures Refused(m, "/" + rest) && Refused(m, "~" + rest)
    ensures 'a' <= drive <= 'z' || 'A' <= drive <= 'Z' ==> Refused(m, [drive] + ":/" + rest)
  {
    assert "/" <= "/" + rest && "~" <= "~" + rest;
  }

  method Decide(m: Matcher, test: Test, path: string) returns (v: Verdict)
    ensures v.normalised == Normalised(path)
    ensures v.denied <==>
              || Refused(m, v.normalised)
              || FirstHit(test, m.shipped, Candidates(v.normalised)).Some?
              || (FirstHit(test, m.extra, Candidates(v.normalised)).Some? && FirstHit(test, m.allow, Candidates(v.normalised)).None?)
    ensures v.glob == if !v.denied || Refused(m, v.normalised) then None
                      else if FirstHit(test, m.shipped, Candidates(v.normalised)).Some? then FirstHit(test, m.shipped, Candidates(v.normalised))
                      else FirstHit(test, m.extra, Candidates(v.normalised))
    ensures v.rule == Some(Shipped) <==> !Refused(m, v.normalised) && FirstHit(test, m.shipped, Candidates(v.normalised)).Some?
    ensures v.rule.None? <==> !v.denied
    ensures v.rule == Some(Absolute) <==>
              v.normalised != "" && ".." !in Split(v.normalised) && m.denyAbsolute && LooksAbsolute(v.normalised)
    ensures v.rule == Some(Traversal) <==> v.normalised == "" || ".." in Split(v.normalised)
  {
    var normalised := NormalisePath(path);
    if |normalised| == 0 {
      return Verdict(true, None, Some(Traversal), normalised);
    }
    if ".." in Split(normalised) {
      return Verdict(true, None, Some(Traversal), normalised);
    }
    if m.denyAbsolute && LooksAbsolute(normalised) {
      return Verdict(true, None, Some(Absolute), normalised);
    }
    var tails := SuffixList(normalised);
    var candidates := [normalised] + tails;
    var shipped := Matches(test, m.shipped, candidates);
    if shipped.Some? {
      return Verdict(true, shipped, Some(Shipped), normalised);
    }
    var extra := Matches(test, m.extra, candidates);
    if extra.None? {
      return Verdict(false, None, None, normalised);
    }
    var allowed := Matches(test, m.allow, candidates);
    if allowed.Some? {
      return Verdict(false, None, None, normalised);
    }
    v := Verdict(true, extra, Some(Config), normalised);
  }

  /** Everything up to and including the last slash. */
  function DirectoryOf(path: string): (r: string)
    ensures r <= path && Directories(r) && (|r| < |path| ==> path[|r|] != '/')
    ensures forall k: nat :: k <= |path| && Directories(path[..k]) ==> k <= |r|
  {
    if path == [] || path[|path| - 1] == '/' then path
    else
      var r := DirectoryOf(path[..|path| - 1]);
      assert forall k: nat :: k <= |path| && Directories(path[..k]) ==> k < |path| && path[..|path| - 1][..k] == path[..k];
      r
  }

  lemma WhatIsInFront(path: string, t: string) returns (prefix: string)
    requires Tidy(path) && NewlineFree(DirectoryOf(path)) && t in Suffixes(path)
    ensures prefix + t == path && Directories(prefix) && NewlineFree(prefix)
  {
    SuffixesAreTheTails(path, t);
    var k: nat :| SegmentStart(path, k) && t == path[k..];
    prefix := path[..k];
    assert Directories(prefix) && k <= |DirectoryOf(path)|;
    assert prefix == DirectoryOf(path)[..k];
  }

  lemma TailMatchIsWholeMatch(glob: string, path: string, t: string)
    requires AnyDepth(glob) && Tidy(path) && NewlineFree(DirectoryOf(path))
    requires t in Suffixes(path) && t in Meaning(true, glob, 0)
    ensures path in Meaning(true, glob, 0)
  {
    var prefix := WhatIsInFront(path, t);
    MatchReachesTheWhole(glob, prefix, t);
  }

  /** With newline-free directories, the sub-paths add nothing to the path itself. */
  lemma SubPathsAddNothing(test: Test, glob: string, path: string)
    requires Faithful(test) && AnyDepth(glob) && Tidy(path) && NewlineFree(DirectoryOf(path))
    ensures Hits(test, glob, Candidates(path)) <==> test(glob, path)
  {
    if c :| c in Suffixes(path) && test(glob, c) {
      TailMatchIsWholeMatch(glob, path, c);
    }
    assert path in Candidates(path);
  }

  lemma DirectoryOfTidy(path: string)
    requires Tidy(path) && !NewlineFree(DirectoryOf(path))
    ensures SegmentStart(path, |DirectoryOf(path)|)
  {
  }

  lemma LastPartIsCandidate(path: string) returns (last: string)
    requires Tidy(path) && !NewlineFree(DirectoryOf(path))
    ensures last in Candidates(path) && DirectoryOf(path) + last == path
  {
    last := path[|DirectoryOf(path)|..];
    DirectoryOfTidy(path);
    SuffixesAreTheTails(path, last);
  }

  lemma ShapeTellsApart(test: Test, prefix: string, suffix: string)
    requires Faithful(test) && Directories(prefix) && !NewlineFree(prefix)
    ensures AnyDepth(ShapeAnywhere(suffix)) && test(ShapeAnywhere(suffix), suffix) && !test(ShapeAnywhere(suffix), prefix + suffix)
  {
    ShapeMissesNewlines(prefix, suffix);
  }

  /** A line terminator in the directories makes some entry match a sub-path only. */
  lemma NewlineNeedsTheSubPaths(test: Test, path: string) returns (glob: string)
    requires Faithful(test) && Tidy(path) && !NewlineFree(DirectoryOf(path))
    ensures AnyDepth(glob) && Hits(test, glob, Candidates(path)) && !test(glob, path)
  {
    var last := LastPartIsCandidate(path);
    ShapeTellsApart(test, DirectoryOf(path), last);
    glob := ShapeAnywhere(last);
  }

  /** What the compiled text of a glob decides about a path, ignoring letter case. */
  ghost predicate Compiled(glob: string, path: string) {
    var expression := Parse(Emit(glob, 0));
    expression.Some? && path in DenotesItems(true, expression.value)
  }

  lemma CompiledIsFaithful()
    ensures Faithful(Compiled)
  {
    forall glob, path | ClassFree(glob) ensures Compiled(glob, path) <==> path in Meaning(true, glob, 0) {
      CompiledGlobMeansTheGlob(true, glob);
    }
  }

  /**
   For a canonical path, looking at every trailing sub-path finds the same entries for any
   depth as looking at the path alone, exactly when its directories are free of line terminators.
   */
  lemma SubPathsMatterExactlyForNewlines(path: string)
    requires Tidy(path)
    ensures (forall glob :: AnyDepth(glob) ==> (Hits(Compiled, glob, Candidates(path)) <==> Compiled(glob, path)))
       <==> NewlineFree(DirectoryOf(path))
  {
    CompiledIsFaithful();
    if NewlineFree(DirectoryOf(path)) {
      forall glob | AnyDepth(glob) ensures Hits(Compiled, glob, Candidates(path)) <==> Compiled(glob, path) {
        SubPathsAddNothing(Compiled, glob, path);
      }
    } else {
      var glob := NewlineNeedsTheSubPaths(Compiled, path);
    }
  }

  lemma {:induction false} SameFirstHit(test: Test, entries: seq<string>, path: string)
    requires Faithful(test) && Tidy(path) && NewlineFree(DirectoryOf(path))
    requires forall e :: e in entries ==> AnyDepth(e)
    ensures FirstHit(test, entries, Candidates(path)) == FirstHit(test, entries, [path])
  {
    if entries != [] {
      SubPathsAddNothing(test, entries[0], path);
      assert Hits(test, entries[0], [path]) <==> test(entries[0], path);
      SameFirstHit(test, entries[1..], path);
    }
  }

  ghost predicate AllAnyDepth(m: Matcher) {
    forall e :: e in m.shipped + m.extra + m.allow ==> AnyDepth(e)
  }

  /** The first shipped, configured and carve-out entries found are those of the path alone. */
  ghost predicate SameAsPathAlone(m: Matcher, path: string) {
    && FirstHit(Compiled, m.shipped, Candidates(path)) == FirstHit(Compiled, m.shipped, [path])
    && FirstHit(Compiled, m.extra, Candidates(path)) == FirstHit(Compiled, m.extra, [path])
    && FirstHit(Compiled, m.allow, Candidates(path)) == FirstHit(Compiled, m.allow, [path])
  }

  /**
   So for every matcher of entries for any depth the whole verdict, down to the entry it
   names, is that on the canonical path alone, exactly when no directory holds a line terminator.
   */
  lemma VerdictIsOnThePathAlone(path: string)
    ensures (forall m :: AllAnyDepth(m) ==> SameAsPathAlone(m, Normalised(path)))
       <==> NewlineFree(DirectoryOf(Normalised(path)))
  {
    CompiledIsFaithful();
    NormalisedIsTidy(path);
    var form := Normalised(path);
    if NewlineFree(DirectoryOf(form)) {
      forall m | AllAnyDepth(m) ensures SameAsPathAlone(m, form) {
        SameFirstHit(Compiled, m.shipped, form);
        SameFirstHit(Compiled, m.extra, form);
        SameFirstHit(Compiled, m.allow, form);
      }
    } else {
      var glob := NewlineNeedsTheSubPaths(Compiled, form);
      OneEntryTellsApart(glob, form);
    }
  }

  lemma FirstHitOfOne(test: Test, glob: string, candidates: seq<string>)
    ensures FirstHit(test, [glob], candidates) == if Hits(test, glob, candidates) then Some(glob) else None
  {
    assert FirstHit(test, [glob][1..], candidates) == None;
  }

  lemma OneEntryTellsApart(glob: string, path: string)
    requires AnyDepth(glob) && Hits(Compiled, glob, Candidates(path)) && !Compiled(glob, path)
    ensures exists m :: AllAnyDepth(m) && !SameAsPathAlone(m, path)
  {
    var m := Matcher([glob], [], [], false);
    FirstHitOfOne(Compiled, glob, Candidates(path));
    FirstHitOfOne(Compiled, glob, [path]);
    assert AllAnyDepth(m) && !SameAsPathAlone(m, path);
  }
}
