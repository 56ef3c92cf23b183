/**
 A log file in an attempt's artifacts, through the compiled deny list: a shipped entry
 denies logs, but the store's own entry is listed before it and hides it.
 */
module ArtifactLogs {
  import opened CanonicalPath
  import opened DenyList
  import opened ExecutionPolicy
  import opened PathText
  import opened Paths
  import opened Prelude
  import opened Regex
  import Glob
  import GlobCorrect
  import GlobLaws

  const LOG_ENTRY := "**/*.log"

  predicate AllPlain(s: string) {
    forall i :: 0 <= i < |s| ==> GlobLaws.Plain(s[i])
  }

  /** Plain characters in front of a glob match themselves. */
  lemma {:induction false} LiteralThen(literal: string, glob: string, rest: string)
    requires AllPlain(literal) && rest in Glob.Meaning(true, glob, 0)
    ensures literal + rest in Glob.Meaning(true, literal + glob, 0)
  {
    if literal == [] {
      assert literal + rest == rest && literal + glob == glob;
    } else {
      LiteralThen(literal[1..], glob, rest);
      OneMoreLiteral(literal[0], literal[1..] + glob, literal[1..] + rest);
      FirstThenRest(literal, rest);
      FirstThenRest(literal, glob);
    }
  }

  lemma FirstThenRest(s: string, t: string)
    requires s != []
    ensures [s[0]] + (s[1..] + t) == s + t
  {
  }

  lemma OneMoreLiteral(c: char, glob: string, rest: string)
    requires GlobLaws.Plain(c) && rest in Glob.Meaning(true, glob, 0)
    ensures [c] + rest in Glob.Meaning(true, [c] + glob, 0)
  {
    GlobLaws.PlainLaw(true, c, glob, [c] + rest);
    assert ([c] + rest)[1..] == rest;
  }

  lemma AnyDirectoriesThen(front: string, glob: string, rest: string)
    requires Directories(front) && NewlineFree(front)
    requires rest in Glob.Meaning(true, glob, 0)
    ensures front + rest in Glob.Meaning(true, "**/" + glob, 0)
  {
    GlobLaws.DirectoriesLaw(true, glob, front + rest);
    assert (front + rest)[..|front|] == front && (front + rest)[|front|..] == rest;
  }

  lemma EverythingBelow(rest: string)
    requires NewlineFree(rest)
    ensures rest in Glob.Meaning(true, "**", 0)
  {
    var g := "**";
    assert g[2..] == "";
    InCat(Each(NotNewline), Epsilon(), rest, "");
    assert rest + "" == rest;
  }

  /** A glob without brackets, read as what it means. */
  lemma CompiledDecides(glob: string, path: string)
    requires '[' !in glob && path in Glob.Meaning(true, glob, 0)
    ensures Compiled(glob, path)
  {
    GlobCorrect.CompiledGlobMeansTheGlob(true, glob);
  }

  /** The directory called `name`, at any depth, and all below it. */
  lemma DirectoryEntryMatches(entry: string, name: string, front: string, rest: string)
    requires entry == "**/" + (name + "**") && AllPlain(name) && '[' !in name
    requires Directories(front) && NewlineFree(front) && NewlineFree(rest)
    ensures Compiled(entry, front + (name + rest))
  {
    EverythingBelow(rest);
    LiteralThen(name, "**", rest);
    AnyDirectoriesThen(front, name + "**", name + rest);
    CompiledDecides(entry, front + (name + rest));
  }

  lemma StarThen(extension: string, stem: string)
    requires extension != "" && AllPlain(extension) && SlashFree(stem)
    ensures stem + extension in Glob.Meaning(true, "*" + extension, 0)
  {
    var g := "*" + extension;
    assert g[1..] == extension && g[1] == extension[0];
    LiteralThen(extension, "", "");
    assert extension + "" == extension;
    InCat(Each(NoSlash), Glob.Meaning(true, extension, 0), stem, extension);
  }

  /** Every file with this extension, at any depth. */
  lemma ExtensionEntryMatches(entry: string, extension: string, front: string, stem: string)
    requires entry == "**/" + ("*" + extension) && extension != "" && AllPlain(extension) && '[' !in extension && SlashFree(stem)
    requires Directories(front) && NewlineFree(front)
    ensures Compiled(entry, front + (stem + extension))
  {
    StarThen(extension, stem);
    AnyDirectoriesThen(front, "*" + extension, stem + extension);
    CompiledDecides(entry, front + (stem + extension));
  }

  // ----- a path in the artifacts -----

  /** The directory of these segments, with the slash that follows it. */
  function Front(parts: seq<string>): string {
    if parts == [] then "/" else "/" + Join(parts) + "/"
  }

  ghost predicate OneLine(parts: seq<string>) {
    forall i :: 0 <= i < |parts| ==> NewlineFree(parts[i])
  }

  lemma RenderInTwo(a: seq<string>, b: seq<string>)
    requires b != []
    ensures Render(true, a + b) == Front(a) + Join(b)
  {
    if a == [] {
      assert a + b == b;
    } else {
      JoinAppend(a, b);
    }
  }

  lemma {:induction false} JoinOneLine(parts: seq<string>)
    requires OneLine(parts)
    ensures NewlineFree(Join(parts))
  {
    if |parts| > 1 {
      JoinOneLine(parts[1..]);
    }
  }

  lemma FrontOneLine(parts: seq<string>)
    requires OneLine(parts)
    ensures Directories(Front(parts)) && NewlineFree(Front(parts))
  {
    JoinOneLine(parts);
  }

  /** An artifact directory below a store directory of that name, in segments. */
  function ArtifactDir(above: seq<string>, below: seq<string>): seq<string> {
    above + [".korwf"] + below
  }

  lemma StoreEntryMatches(above: seq<string>, rest: seq<string>)
    requires OneLine(above) && OneLine(rest) && rest != []
    ensures Compiled(STORE_ENTRY, Render(true, ArtifactDir(above, rest)))
  {
    JoinOneLine(rest);
    FrontOneLine(above);
    RenderInTwo(above, [".korwf"] + rest);
    assert above + ([".korwf"] + rest) == ArtifactDir(above, rest);
    StoreNameThen(rest);
    DirectoryEntryMatches(STORE_ENTRY, ".korwf/", Front(above), Join(rest));
  }

  lemma StoreNameThen(rest: seq<string>)
    requires rest != []
    ensures Join([".korwf"] + rest) == ".korwf/" + Join(rest)
  {
    assert ([".korwf"] + rest)[1..] == rest;
  }

  lemma LogEntryMatches(dir: seq<string>, stem: string)
    requires OneLine(dir) && SlashFree(stem)
    ensures Compiled(LOG_ENTRY, Render(true, dir + [stem + ".log"]))
  {
    FrontOneLine(dir);
    RenderInTwo(dir, [stem + ".log"]);
    ExtensionEntryMatches(LOG_ENTRY, ".log", Front(dir), stem);
  }

  lemma BothEntriesMatch(above: seq<string>, below: seq<string>, stem: string)
    requires OneLine(above) && OneLine(below) && NewlineFree(stem) && SlashFree(stem)
    ensures var path := Render(true, ArtifactDir(above, below) + [stem + ".log"]);
            Compiled(STORE_ENTRY, path) && Compiled(LOG_ENTRY, path)
  {
    var name := stem + ".log";
    assert NewlineFree(name);
    assert OneLine(below + [name]) && OneLine(ArtifactDir(above, below));
    DeeperDir(above, below, name);
    StoreEntryMatches(above, below + [name]);
    LogEntryMatches(ArtifactDir(above, below), stem);
  }

  lemma DeeperDir(above: seq<string>, below: seq<string>, name: string)
    ensures ArtifactDir(above, below) + [name] == ArtifactDir(above, below + [name])
  {
  }

  lemma PlaceOfRendered(parts: seq<string>)
    requires NormalParts(true, parts)
    ensures IsAbsolute(Render(true, parts)) && Place(Render(true, parts)) == parts
  {
    RenderKeepsKind(true, parts);
    MeaningOfRender(true, parts, []);
    WalkOfNames(parts);
  }

  /**
   A log file written straight into an attempt's artifacts is permitted, although a shipped
   entry denies it: the store's entry matches first, unless something before it does.
   */
  lemma LogInArtifactsIsPermitted(ctx: Context, m: Matcher, above: seq<string>, below: seq<string>, stem: string, k: nat)
    requires NormalParts(true, ArtifactDir(above, below) + [stem + ".log"]) && SlashFree(stem)
    requires OneLine(above) && OneLine(below) && NewlineFree(stem)
    requires GoodRoots(ctx) && ctx.artifacts == Some(Render(true, ArtifactDir(above, below)))
    requires k < |m.shipped| && m.shipped[k] == STORE_ENTRY && LOG_ENTRY in m.shipped
    requires var path := Render(true, ArtifactDir(above, below) + [stem + ".log"]);
             forall i :: 0 <= i < k ==> !Hits(Compiled, m.shipped[i], Candidates(path))
    ensures var path := Render(true, ArtifactDir(above, below) + [stem + ".log"]);
            Compiled(LOG_ENTRY, path) && Permitted(ctx, m, Compiled, path)
  {
    var dir := ArtifactDir(above, below);
    var parts := dir + [stem + ".log"];
    var path := Render(true, parts);
    BothEntriesMatch(above, below, stem);
    assert NormalParts(true, dir) by {
      assert forall i :: 0 <= i < |dir| ==> dir[i] == parts[i];
    }
    PlaceOfRendered(dir);
    PlaceOfRendered(parts);
    ResolveIsReached(path, ctx.worktree);
    assert LandsInArtifacts(ctx, path);
    assert path in Candidates(path);
    StoreEntryHides(m, Compiled, Candidates(path), k);
    PermittedMeans(ctx, m, Compiled, path);
  }

  lemma StoreEntryHides(m: Matcher, test: Test, candidates: seq<string>, k: nat)
    requires k < |m.shipped| && m.shipped[k] == STORE_ENTRY && Hits(test, STORE_ENTRY, candidates)
    requires forall i :: 0 <= i < k ==> !Hits(test, m.shipped[i], candidates)
    ensures !DeniedInArtifacts(m, test, candidates)
  {
    forall i | 0 <= i < |m.shipped| ensures !HitsBeforeStore(test, m.shipped, candidates, i) {
      if i > k {
        assert m.shipped[..i][k] == STORE_ENTRY;
      }
    }
    assert m.shipped[k] in m.shipped;
  }

  lemma OneArtifactDir()
    ensures Render(true, ["w"]) == "/w" && Render(true, ArtifactDir(["w"], ["a"])) == "/w/.korwf/a"
  {
    assert ArtifactDir(["w"], ["a"]) == ["w", ".korwf", "a"];
  }

  lemma OneArtifactPath()
    ensures Render(true, ArtifactDir(["w"], ["a"]) + ["x" + ".log"]) == "/w/.korwf/a" + "/" + "x.log"
    ensures NormalParts(true, ["w"]) && NormalParts(true, ArtifactDir(["w"], ["a"]) + ["x" + ".log"])
  {
    OneArtifactDir();
    var name := "x" + ".log";
    RenderInTwo(ArtifactDir(["w"], ["a"]), [name]);
    assert SlashFree(name);
  }

  /** So the exemption reaches further than the store's own entry. */
  lemma ALogIsPermitted() returns (ctx: Context, m: Matcher, path: string)
    ensures ctx == Context("/w", Some("/w/.korwf/a")) && path == "/w/.korwf/a" + "/" + "x.log"
    ensures m == Matcher([STORE_ENTRY, LOG_ENTRY], [], [], false)
    ensures Compiled(LOG_ENTRY, path) && Permitted(ctx, m, Compiled, path)
  {
    OneArtifactDir();
    OneArtifactPath();
    var above, below, stem := ["w"], ["a"], "x";
    var dir := ArtifactDir(above, below);
    ctx := Context(Render(true, above), Some(Render(true, dir)));
    m := Matcher([STORE_ENTRY, LOG_ENTRY], [], [], false);
    path := Render(true, dir + [stem + ".log"]);
    PlaceOfRendered(above);
    var parts := dir + [stem + ".log"];
    assert forall i :: 0 <= i < |dir| ==> dir[i] == parts[i];
    PlaceOfRendered(dir);
    LogInArtifactsIsPermitted(ctx, m, above, below, stem, 0);
  }
}
