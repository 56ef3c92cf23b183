/**
 Path normalisation and containment as the execution policy uses them: strings in,
 strings out, no file system. A path means a walk over directory segments.
 */
module Paths {
  import opened PathText

  // ----- what a path means -----

  /** One segment of a walk from `dir`; the root is its own parent. */
  function Go(dir: seq<string>, segment: string): seq<string> {
    if segment == "" || segment == "." then dir
    else if segment == ".." then (if dir == [] then [] else dir[..|dir| - 1])
    else dir + [segment]
  }

  function Walk(dir: seq<string>, segments: seq<string>): seq<string> {
    if segments == [] then dir
    else Go(Walk(dir, segments[..|segments| - 1]), segments[|segments| - 1])
  }

  predicate IsAbsolute(path: string) {
    path != [] && path[0] == '/'
  }

  /** Where walking `path` from directory `dir` leads. */
  function Meaning(path: string, dir: seq<string>): seq<string> {
    Walk(if IsAbsolute(path) then [] else dir, Split(Unix(path)))
  }

  // ----- normalise -----

  /** What the loop does to its stack for one segment. */
  function Push(absolute: bool, parts: seq<string>, segment: string): seq<string> {
    if segment == "" || segment == "." then parts
    else if segment == ".." then
      if parts != [] && parts[|parts| - 1] != ".." then parts[..|parts| - 1]
      else if !absolute then parts + [".."]
      else parts
    else parts + [segment]
  }

  function Reduce(absolute: bool, segments: seq<string>): seq<string> {
    if segments == [] then []
    else Push(absolute, Reduce(absolute, segments[..|segments| - 1]), segments[|segments| - 1])
  }

  function Render(absolute: bool, parts: seq<string>): string {
    (if absolute then "/" else "") + Join(parts)
  }

  function Normalise(path: string): string {
    Render(IsAbsolute(path), Reduce(IsAbsolute(path), Split(Unix(path))))
  }

  method NormalisePath(path: string) returns (r: string)
    ensures r == Normalise(path)
  {
    var absolute := IsAbsolute(path);
    var segments := Split(Unix(path));
    var parts: seq<string> := [];
    for i := 0 to |segments|
      invariant parts == Reduce(absolute, segments[..i])
    {
      assert segments[..i + 1][..i] == segments[..i];
      var part := segments[i];
      if part == "" || part == "." {
        continue;
      }
      if part == ".." {
        if |parts| > 0 && parts[|parts| - 1] != ".." {
          parts := parts[..|parts| - 1];
        } else if !absolute {
          parts := parts + [".."];
        }
        continue;
      }
      parts := parts + [part];
    }
    assert segments[..|segments|] == segments;
    r := (if absolute then "/" else "") + Join(parts);
  }

  predicate IsName(s: string) {
    s != "" && s != "." && s != ".." && SlashFree(s)
  }

  /** Upward steps, none if absolute, and then names. */
  ghost predicate NormalParts(absolute: bool, parts: seq<string>) {
    && (forall i :: 0 <= i < |parts| ==> parts[i] == ".." || IsName(parts[i]))
    && (forall i, j :: 0 <= i < j < |parts| && parts[j] == ".." ==> parts[i] == "..")
    && (absolute ==> forall i :: 0 <= i < |parts| ==> parts[i] != "..")
  }

  lemma {:induction false} ReduceIsNormal(absolute: bool, segments: seq<string>)
    requires AllSlashFree(segments)
    ensures NormalParts(absolute, Reduce(absolute, segments))
  {
    if segments != [] {
      ReduceIsNormal(absolute, segments[..|segments| - 1]);
    }
  }

  lemma NormalPartsOf(path: string)
    ensures NormalParts(IsAbsolute(path), Reduce(IsAbsolute(path), Split(Unix(path))))
  {
    SplitPieces(Unix(path));
    ReduceIsNormal(IsAbsolute(path), Split(Unix(path)));
  }

  /** The result has no empty or `.` segment, no `..` if absolute, and otherwise `..` only at the front. */
  lemma NormaliseIsNormal(path: string) returns (parts: seq<string>)
    ensures Normalise(path) == Render(IsAbsolute(path), parts) && NormalParts(IsAbsolute(path), parts)
    ensures IsAbsolute(Normalise(path)) == IsAbsolute(path)
  {
    parts := Reduce(IsAbsolute(path), Split(Unix(path)));
    NormalPartsOf(path);
    RenderKeepsKind(IsAbsolute(path), parts);
  }

  lemma RenderKeepsKind(absolute: bool, parts: seq<string>)
    requires NormalParts(absolute, parts)
    ensures IsAbsolute(Render(absolute, parts)) == absolute
    ensures '\\' !in Render(absolute, parts)
  {
    NoBackslashes(parts);
    if parts != [] {
      assert parts[0] != "" && SlashFree(parts[0]);
      assert Join(parts)[0] == parts[0][0];
      assert parts[0][0] in parts[0];
    }
  }

  lemma {:induction false} NoBackslashes(parts: seq<string>)
    requires forall i :: 0 <= i < |parts| ==> parts[i] == ".." || IsName(parts[i])
    ensures '\\' !in Join(parts)
  {
    if |parts| > 1 {
      NoBackslashes(parts[1..]);
    }
  }

  /** Splitting a rendered path gives its parts back, up to segments a walk ignores. */
  lemma SplitRender(absolute: bool, parts: seq<string>)
    requires NormalParts(absolute, parts)
    ensures var segments := Split(Unix(Render(absolute, parts)));
            if absolute then segments == [""] + (if parts == [] then [""] else parts)
            else segments == if parts == [] then [""] else parts
  {
    RenderKeepsKind(absolute, parts);
    UnixFixed(Render(absolute, parts));
    assert AllSlashFree(parts);
    if parts != [] {
      SplitJoin(parts);
    }
    if absolute {
      SplitAcrossSlash("", Join(parts));
      assert "" + "/" + Join(parts) == Render(true, parts);
    } else {
      assert Render(false, parts) == Join(parts);
    }
  }

  lemma {:induction false} WalkAppend(dir: seq<string>, a: seq<string>, b: seq<string>)
    ensures Walk(dir, a + b) == Walk(Walk(dir, a), b)
  {
    if b == [] {
      assert a + b == a;
    } else {
      assert (a + b)[..|a + b| - 1] == a + b[..|b| - 1];
      WalkAppend(dir, a, b[..|b| - 1]);
    }
  }

  /** One stack step is one walk step. */
  lemma PushIsGo(absolute: bool, dir: seq<string>, parts: seq<string>, segment: string)
    requires NormalParts(absolute, parts) && (absolute ==> dir == [])
    ensures Walk(dir, Push(absolute, parts, segment)) == Go(Walk(dir, parts), segment)
  {
  }

  lemma {:induction false} ReduceIsWalk(absolute: bool, dir: seq<string>, segments: seq<string>)
    requires AllSlashFree(segments) && (absolute ==> dir == [])
    ensures Walk(dir, Reduce(absolute, segments)) == Walk(dir, segments)
  {
    if segments != [] {
      var before := segments[..|segments| - 1];
      ReduceIsWalk(absolute, dir, before);
      ReduceIsNormal(absolute, before);
      PushIsGo(absolute, dir, Reduce(absolute, before), segments[|segments| - 1]);
    }
  }

  lemma IgnoredSegments(dir: seq<string>, parts: seq<string>)
    ensures Walk(dir, [""]) == dir
    ensures Walk(dir, [""] + parts) == Walk(dir, parts)
  {
    assert Walk(dir, [""]) == Go(Walk(dir, [""][..0]), "");
    WalkAppend(dir, [""], parts);
  }

  lemma MeaningOfRender(absolute: bool, parts: seq<string>, dir: seq<string>)
    requires NormalParts(absolute, parts)
    ensures Meaning(Render(absolute, parts), dir) == Walk(if absolute then [] else dir, parts)
  {
    RenderKeepsKind(absolute, parts);
    SplitRender(absolute, parts);
    var start := if absolute then [] else dir;
    IgnoredSegments(start, parts);
    IgnoredSegments(start, [""]);
  }

  /** Normalising does not change where a path leads, from any directory. */
  lemma NormalisePreservesMeaning(path: string, dir: seq<string>)
    ensures Meaning(Normalise(path), dir) == Meaning(path, dir)
  {
    var absolute, segments := IsAbsolute(path), Split(Unix(path));
    NormalPartsOf(path);
    MeaningOfRender(absolute, Reduce(absolute, segments), dir);
    SplitPieces(Unix(path));
    ReduceIsWalk(absolute, if absolute then [] else dir, segments);
  }

  // ----- canonical form -----

  function Ups(parts: seq<string>): (k: nat)
    ensures k <= |parts|
    ensures forall i :: 0 <= i < k ==> parts[i] == ".."
    ensures k < |parts| ==> parts[k] != ".."
  {
    if parts == [] || parts[0] != ".." then 0 else 1 + Ups(parts[1..])
  }

  /** From a deep enough directory, normal parts climb and then descend. */
  lemma {:induction false} WalkOfNormal(dir: seq<string>, parts: seq<string>)
    requires NormalParts(false, parts) && Ups(parts) <= |dir|
    ensures Walk(dir, parts) == dir[..|dir| - Ups(parts)] + parts[Ups(parts)..]
  {
    if parts != [] {
      var n := |parts| - 1;
      var before := parts[..n];
      UpsOfPrefix(parts);
      WalkOfNormal(dir, before);
      if parts[n] == ".." {
        assert dir[..|dir| - n] + before[n..] == dir[..|dir| - n];
      } else {
        DropThenLast(parts, Ups(parts));
      }
    }
  }

  lemma DropThenLast(parts: seq<string>, k: nat)
    requires k < |parts|
    ensures parts[k..] == parts[..|parts| - 1][k..] + [parts[|parts| - 1]]
  {
  }

  lemma {:induction false} UpsOfPrefix(parts: seq<string>)
    requires NormalParts(false, parts) && parts != []
    ensures var n := |parts| - 1;
            Ups(parts[..n]) == if parts[n] == ".." then n else Ups(parts)
    ensures parts[|parts| - 1] == ".." ==> Ups(parts) == |parts|
  {
    var n := |parts| - 1;
    var k, k' := Ups(parts), Ups(parts[..n]);
    if k' < n {
      assert parts[..n][k'] == parts[k'];
    }
    if k < n {
      assert parts[..n][k] == parts[k];
    }
  }

  /** Parts that climb further can be told apart: start where no name of `a` can be mistaken for. */
  lemma MoreUpsLeadElsewhere(a: seq<string>, b: seq<string>) returns (dir: seq<string>)
    requires NormalParts(false, a) && NormalParts(false, b) && Ups(a) > Ups(b)
    ensures Walk(dir, a) != Walk(dir, b)
  {
    var k, l := Ups(a), Ups(b);
    var mark := if k < |a| then a[k] + "x" else "x";
    dir := seq(k, i => mark);
    WalkOfNormal(dir, a);
    WalkOfNormal(dir, b);
    DifferentStart(dir[..0] + a[k..], dir[..k - l] + b[l..], mark);
  }

  lemma DifferentStart(x: seq<string>, y: seq<string>, mark: string)
    requires y != [] && y[0] == mark && (x == [] || x[0] != mark)
    ensures x != y
  {
  }

  lemma SameUpsSameNames(a: seq<string>, b: seq<string>, dir: seq<string>)
    requires NormalParts(false, a) && NormalParts(false, b) && Ups(a) == Ups(b) == |dir|
    requires Walk(dir, a) == Walk(dir, b)
    ensures a == b
  {
    var k := |dir|;
    WalkOfNormal(dir, a);
    WalkOfNormal(dir, b);
    JoinedHalves(dir[..0], a, b, k);
  }

  lemma JoinedHalves(nothing: seq<string>, a: seq<string>, b: seq<string>, k: nat)
    requires nothing == [] && k <= |a| && k <= |b|
    requires nothing + a[k..] == nothing + b[k..]
    requires forall i :: 0 <= i < k ==> a[i] == b[i]
    ensures a == b
  {
    assert nothing + a[k..] == a[k..] && nothing + b[k..] == b[k..];
    forall i | k <= i < |a| ensures i < |b| && a[i] == b[i] {
      assert a[i] == a[k..][i - k] == b[k..][i - k];
    }
    assert |a[k..]| == |b[k..]|;
  }

  /** Relative normal parts that lead to the same place from everywhere are the same parts. */
  lemma SameWalksSameParts(a: seq<string>, b: seq<string>)
    requires NormalParts(false, a) && NormalParts(false, b)
    requires forall dir :: Walk(dir, a) == Walk(dir, b)
    ensures a == b
  {
    if Ups(a) > Ups(b) {
      var dir := MoreUpsLeadElsewhere(a, b);
    } else if Ups(b) > Ups(a) {
      var dir := MoreUpsLeadElsewhere(b, a);
    } else {
      SameUpsSameNames(a, b, seq(Ups(a), i => "x"));
    }
  }

  lemma SamePlaceSameParts(a: seq<string>, b: seq<string>)
    requires NormalParts(true, a) && NormalParts(true, b)
    requires Meaning(Render(true, a), []) == Meaning(Render(true, b), [])
    ensures a == b
  {
    WalkOfNames(a);
    WalkOfNames(b);
    MeaningOfRender(true, a, []);
    MeaningOfRender(true, b, []);
  }

  lemma SameMeaningSameParts(a: seq<string>, b: seq<string>)
    requires NormalParts(false, a) && NormalParts(false, b)
    requires forall dir :: Meaning(Render(false, a), dir) == Meaning(Render(false, b), dir)
    ensures a == b
  {
    forall dir ensures Walk(dir, a) == Walk(dir, b) {
      MeaningOfRender(false, a, dir);
      MeaningOfRender(false, b, dir);
      assert Meaning(Render(false, a), dir) == Meaning(Render(false, b), dir);
    }
    SameWalksSameParts(a, b);
  }

  /** Two paths have the same normal form exactly when they are of one kind and lead to the same place from everywhere. */
  lemma NormaliseIsCanonical(p: string, q: string)
    ensures Normalise(p) == Normalise(q)
       <==> IsAbsolute(p) == IsAbsolute(q) && forall dir :: Meaning(p, dir) == Meaning(q, dir)
  {
    var a := NormaliseIsNormal(p);
    var b := NormaliseIsNormal(q);
    forall dir ensures Meaning(p, dir) == Meaning(Normalise(p), dir) && Meaning(q, dir) == Meaning(Normalise(q), dir) {
      NormalisePreservesMeaning(p, dir);
      NormalisePreservesMeaning(q, dir);
    }
    if IsAbsolute(p) == IsAbsolute(q) && forall dir :: Meaning(p, dir) == Meaning(q, dir) {
      if IsAbsolute(p) {
        assert Meaning(p, []) == Meaning(q, []);
        SamePlaceSameParts(a, b);
      } else {
        SameMeaningSameParts(a, b);
      }
    }
  }

  lemma WalkOfNames(parts: seq<string>)
    requires NormalParts(true, parts)
    ensures Walk([], parts) == parts
  {
  }

  lemma NormaliseIsIdempotent(path: string)
    ensures Normalise(Normalise(path)) == Normalise(path)
  {
    var parts := NormaliseIsNormal(path);
    forall dir ensures Meaning(Normalise(path), dir) == Meaning(path, dir) {
      NormalisePreservesMeaning(path, dir);
    }
    NormaliseIsCanonical(Normalise(path), path);
  }

  // ----- containment -----

  function Resolve(candidate: string, base: string): string {
    if IsAbsolute(candidate) then Normalise(candidate) else Normalise(base + "/" + candidate)
  }

  predicate UnderRoot(resolved: string, root: string) {
    resolved == root || root + "/" <= resolved
  }

  predicate WithinRoots(candidate: string, base: string, roots: seq<string>) {
    exists i :: 0 <= i < |roots| && UnderRoot(Resolve(candidate, base), roots[i])
  }

  /** Segments of the directory an absolute path names. */
  function Place(path: string): seq<string> {
    Meaning(path, [])
  }

  /** Where the candidate leads when walked from the base. */
  function Reached(candidate: string, base: string): seq<string> {
    Meaning(candidate, Place(base))
  }

  lemma AbsoluteNormalForm(path: string)
    requires IsAbsolute(path)
    ensures Normalise(path) == Render(true, Place(path)) && NormalParts(true, Place(path))
  {
    var parts := NormaliseIsNormal(path);
    NormalisePreservesMeaning(path, []);
    MeaningOfRender(true, parts, []);
    WalkOfNames(parts);
  }

  /** Resolving against an absolute base renders the place reached. */
  lemma ResolveIsReached(candidate: string, base: string)
    requires IsAbsolute(base)
    ensures Resolve(candidate, base) == Render(true, Reached(candidate, base)) && NormalParts(true, Reached(candidate, base))
  {
    if IsAbsolute(candidate) {
      AbsoluteNormalForm(candidate);
    } else {
      var whole := base + "/" + candidate;
      UnixAppend(base + "/", candidate);
      UnixAppend(base, "/");
      assert Unix("/") == "/";
      SplitAcrossSlash(Unix(base), Unix(candidate));
      WalkAppend([], Split(Unix(base)), Split(Unix(candidate)));
      assert whole[0] == base[0];
      AbsoluteNormalForm(whole);
    }
  }

  lemma RenderedEqual(a: seq<string>, b: seq<string>)
    requires NormalParts(true, a) && NormalParts(true, b)
    ensures Render(true, a) == Render(true, b) <==> a == b
  {
    SplitRender(true, a);
    SplitRender(true, b);
    var x, y := Split(Unix(Render(true, a))), Split(Unix(Render(true, b)));
    if Render(true, a) == Render(true, b) {
      assert x[1..] == y[1..];
      assert x[1..] == if a == [] then [""] else a;
      assert y[1..] == if b == [] then [""] else b;
      assert a != [] ==> a[0] != "";
      assert b != [] ==> b[0] != "";
    }
  }

  /** The string test is segment containment: with the separator, one rendering is a prefix of another exactly for proper prefixes. */
  lemma RenderedPrefix(a: seq<string>, b: seq<string>)
    requires NormalParts(true, a) && NormalParts(true, b)
    ensures Render(true, a) + "/" <= Render(true, b) <==> a != [] && a < b
  {
    if a == [] {
      if b != [] {
        assert Render(true, b)[1] == b[0][0] && b[0][0] in b[0];
      }
    } else {
      if a < b {
        var c := b[|a|..];
        assert b == a + c;
        JoinAppend(a, c);
        assert Render(true, b) == Render(true, a) + "/" + Join(c);
      }
      if Render(true, a) + "/" <= Render(true, b) {
        RenderedPrefixMeansPrefix(a, b);
      }
    }
  }

  lemma RenderedPrefixMeansPrefix(a: seq<string>, b: seq<string>)
    requires NormalParts(true, a) && NormalParts(true, b) && a != []
    requires Render(true, a) + "/" <= Render(true, b)
    ensures a < b
  {
    var rest := Render(true, b)[|Render(true, a)| + 1..];
    assert Join(b) == Join(a) + "/" + rest by {
      assert Render(true, b) == Render(true, a) + "/" + rest;
      assert Render(true, b)[1..] == Join(b);
      assert (Render(true, a) + "/" + rest)[1..] == Join(a) + "/" + rest;
    }
    assert AllSlashFree(a) && AllSlashFree(b);
    SplitJoin(a);
    SplitAcrossSlash(Join(a), rest);
    if b == [] {
      assert false;
    }
    SplitJoin(b);
    assert b == a + Split(rest);
  }

  /**
   For any normalised absolute root, the string test accepts a candidate exactly when the
   root's segments are a prefix of the segments reached, except that the root directory
   `/` itself, as a root, contains nothing but itself.
   */
  lemma ContainmentIsSegmentPrefix(candidate: string, base: string, root: string)
    requires IsAbsolute(base) && IsAbsolute(root) && Normalise(root) == root
    ensures UnderRoot(Resolve(candidate, base), root)
       <==> if Place(root) == [] then Reached(candidate, base) == [] else Place(root) <= Reached(candidate, base)
  {
    ResolveIsReached(candidate, base);
    AbsoluteNormalForm(root);
    RenderedPrefix(Place(root), Reached(candidate, base));
    RenderedEqual(Place(root), Reached(candidate, base));
  }

  lemma OneNameDown()
    ensures Reached("a", "/") == ["a"]
  {
    assert Unix("a") == "a";
    SplitSlashFree("a");
    assert ["a"][..0] == [];
  }

  /** So it is plain containment for every candidate exactly when the root is not `/`. */
  lemma OnlySlashIsTooNarrow(root: string)
    requires IsAbsolute(root) && Normalise(root) == root
    ensures (forall candidate :: UnderRoot(Resolve(candidate, root), root) <==> Place(root) <= Reached(candidate, root))
       <==> root != "/"
  {
    AbsoluteNormalForm(root);
    if root == "/" {
      OneNameDown();
      ContainmentIsSegmentPrefix("a", root, root);
      assert !UnderRoot(Resolve("a", root), root) && Place(root) <= Reached("a", root);
    } else {
      assert Place(root) != [];
      forall candidate ensures UnderRoot(Resolve(candidate, root), root) <==> Place(root) <= Reached(candidate, root) {
        ContainmentIsSegmentPrefix(candidate, root, root);
      }
    }
  }

  // ----- single steps -----

  /** A path followed by one more segment leads one step further. */
  lemma OneStepFurther(path: string, segment: string, dir: seq<string>)
    requires path != "" && SlashFree(segment)
    ensures Meaning(path + "/" + segment, dir) == Go(Meaning(path, dir), segment)
    ensures IsAbsolute(path + "/" + segment) == IsAbsolute(path)
  {
    UnixAppend(path + "/", segment);
    UnixAppend(path, "/");
    assert Unix("/") == "/" && Unix(segment) == segment;
    SplitAcrossSlash(Unix(path), segment);
    SplitSlashFree(segment);
    var start := if IsAbsolute(path) then [] else dir;
    assert Split(Unix(path + "/" + segment)) == Split(Unix(path)) + [segment];
    assert (Split(Unix(path)) + [segment])[..|Split(Unix(path))|] == Split(Unix(path));
  }

  /** A name goes down, a parent step takes it back, and a dot or an empty segment changes nothing. */
  lemma StepsCancel(path: string, name: string)
    requires path != "" && IsName(name)
    ensures Normalise(path + "/" + name + "/" + "..") == Normalise(path)
    ensures Normalise(path + "/" + ".") == Normalise(path)
    ensures Normalise(path + "/" + "") == Normalise(path)
    ensures IsAbsolute(path) ==> Place(path + "/" + name) == Place(path) + [name]
  {
    forall dir ensures Meaning(path + "/" + name + "/" + "..", dir) == Meaning(path, dir)
               ensures Meaning(path + "/" + ".", dir) == Meaning(path, dir) && Meaning(path + "/" + "", dir) == Meaning(path, dir) {
      OneStepFurther(path, name, dir);
      OneStepFurther(path + "/" + name, "..", dir);
      OneStepFurther(path, ".", dir);
      OneStepFurther(path, "", dir);
    }
    OneStepFurther(path, name, []);
    NormaliseIsCanonical(path + "/" + name + "/" + "..", path);
    NormaliseIsCanonical(path + "/" + ".", path);
    NormaliseIsCanonical(path + "/" + "", path);
  }

  /** The root is its own parent. */
  lemma NothingAboveTheRoot()
    ensures Normalise("/" + "/" + "..") == Normalise("/")
  {
    forall dir ensures Meaning("/" + "/" + "..", dir) == Meaning("/", dir) {
      OneStepFurther("/", "..", dir);
      RootIsEmpty(dir);
    }
    NormaliseIsCanonical("/" + "/" + "..", "/");
  }

  lemma RootIsEmpty(dir: seq<string>)
    ensures Meaning("/", dir) == []
  {
    assert Unix("/") == "/";
    assert Split("/") == ["", ""];
    assert ["", ""][..1] == [""];
    assert Walk([], [""]) == [];
  }
}
