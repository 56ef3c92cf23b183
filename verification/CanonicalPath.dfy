/**
 The canonical form the deny list matches on, and the trailing sub-paths it tries: plain
 text rewriting, with no file system behind it.
 */
module CanonicalPath {
  import opened PathText

  predicate IsLetter(c: char) {
    'a' <= c <= 'z' || 'A' <= c <= 'Z'
  }

  function LowerDrive(s: string): string {
    if |s| >= 3 && IsLetter(s[0]) && s[1] == ':' && s[2] == '/' then [Lower(s[0])] + s[1..] else s
  }

  /** Runs of slashes become one. */
  function Collapse(s: string): string {
    if s == [] then []
    else if |s| >= 2 && s[0] == '/' && s[1] == '/' then Collapse(s[1..])
    else [s[0]] + Collapse(s[1..])
  }

  /** Every `/.` that a slash follows is removed. */
  function DropDots(s: string): string {
    if s == [] then []
    else if "/./" <= s then DropDots(s[2..])
    else [s[0]] + DropDots(s[1..])
  }

  function DropLead(s: string): string {
    if "./" <= s then DropLead(s[2..]) else s
  }

  function DropLastDot(s: string): string {
    if EndsWith(s, "/.") then s[..|s| - 2] else s
  }

  function DropLastSlash(s: string): string {
    if |s| > 1 && s[|s| - 1] == '/' then s[..|s| - 1] else s
  }

  predicate EndsWith(s: string, end: string) {
    |s| >= |end| && s[|s| - |end|..] == end
  }

  function Normalised(path: string): string {
    DropLastSlash(DropLastDot(Collapse(DropDots(DropLead(Collapse(LowerDrive(Unix(path))))))))
  }

  method NormalisePath(path: string) returns (out: string)
    ensures out == Normalised(path)
  {
    out := Collapse(LowerDrive(Unix(path)));
    ghost var start := out;
    while "./" <= out
      invariant DropLead(out) == DropLead(start)
      decreases |out|
    {
      out := out[2..];
    }
    out := Collapse(DropDots(out));
    if EndsWith(out, "/.") {
      out := out[..|out| - 2];
    }
    if |out| > 1 && out[|out| - 1] == '/' {
      out := out[..|out| - 1];
    }
  }

  ghost predicate NoDoubles(s: string) {
    forall i :: 0 <= i < |s| - 1 ==> s[i] == '/' ==> s[i + 1] != '/'
  }

  /** No two slashes in a row and none at the end, unless it is the root. */
  ghost predicate Tidy(s: string) {
    s == "/" || (NoDoubles(s) && (s == [] || s[|s| - 1] != '/'))
  }

  lemma {:induction false} CollapsedHasNoDoubles(s: string)
    ensures NoDoubles(Collapse(s))
    ensures s != [] ==> Collapse(s) != [] && Collapse(s)[0] == s[0]
  {
    if s != [] {
      CollapsedHasNoDoubles(s[1..]);
    }
  }

  lemma NormalisedIsTidy(path: string)
    ensures Tidy(Normalised(path))
  {
    CollapsedHasNoDoubles(DropDots(DropLead(Collapse(LowerDrive(Unix(path))))));
  }

  // ----- the canonical form keeps every name on the way -----

  predicate IsNamed(segment: string) {
    segment != "" && segment != "."
  }

  function Named(segments: seq<string>): (r: seq<string>) {
    if segments == [] then []
    else if IsNamed(segments[0]) then [segments[0]] + Named(segments[1..])
    else Named(segments[1..])
  }

  function Names(path: string): seq<string> {
    Named(Split(path))
  }

  /** Same first segment and, after it, the same names. */
  ghost predicate SameNames(a: string, b: string) {
    Split(a)[0] == Split(b)[0] && Named(Split(a)[1..]) == Named(Split(b)[1..])
  }

  lemma SameNamesCons(c: char, a: string, b: string)
    requires SameNames(a, b)
    ensures SameNames([c] + a, [c] + b)
  {
  }

  lemma SlashNames(s: string)
    ensures Split("/" + s) == [""] + Split(s)
  {
  }

  lemma {:induction false} CollapseKeepsNames(s: string)
    ensures SameNames(s, Collapse(s))
  {
    if s != [] {
      var t := s[1..];
      CollapseKeepsNames(t);
      assert s == [s[0]] + t;
      if |s| >= 2 && s[0] == '/' && s[1] == '/' {
        CollapsedHasNoDoubles(t);
        assert Split(t)[0] == "";
      } else {
      }
    }
  }

  lemma {:induction false} DropDotsKeepsNames(s: string)
    ensures SameNames(s, DropDots(s))
  {
    if s == [] {
    } else if "/./" <= s {
      var t := s[2..];
      DropDotsKeepsNames(t);
      assert s == "/" + ("." + t) && t[0] == '/';
      assert t == "/" + t[1..];
      SlashNames("." + t);
      SlashNames(t[1..]);
      assert "." + t == "." + "/" + t[1..];
      SplitAcrossSlash(".", t[1..]);
      SplitSlashFree(".");
      assert Split("." + t) == ["."] + Split(t[1..]);
      assert ([""] + (["."] + Split(t[1..])))[1..] == ["."] + Split(t[1..]);
      assert (["."] + Split(t[1..]))[1..] == Split(t[1..]);
    } else {
      DropDotsKeepsNames(s[1..]);
      assert s == [s[0]] + s[1..];
      SameNamesCons(s[0], s[1..], DropDots(s[1..]));
    }
  }

  lemma {:induction false} DropLeadKeepsNames(s: string)
    ensures Names(DropLead(s)) == Names(s)
  {
    if "./" <= s {
      DropLeadKeepsNames(s[2..]);
      assert s == "." + "/" + s[2..];
      SplitAcrossSlash(".", s[2..]);
      SplitSlashFree(".");
      assert (["."] + Split(s[2..]))[1..] == Split(s[2..]);
    }
  }

  lemma {:induction false} NamedAppend(a: seq<string>, b: seq<string>)
    ensures Named(a + b) == Named(a) + Named(b)
  {
    if a == [] {
      assert a + b == b;
    } else {
      assert (a + b)[1..] == a[1..] + b;
      NamedAppend(a[1..], b);
    }
  }

  lemma LastSegmentDropped(s: string, segment: string)
    requires SlashFree(segment) && !IsNamed(segment)
    ensures Names(s + "/" + segment) == Names(s)
  {
    SplitAcrossSlash(s, segment);
    SplitSlashFree(segment);
    NamedAppend(Split(s), [segment]);
    assert Named([segment]) == [];
  }

  lemma EndKeepsNames(s: string)
    ensures Names(DropLastSlash(DropLastDot(s))) == Names(s)
  {
    var d := DropLastDot(s);
    if EndsWith(s, "/.") {
      assert s == d + "/" + ".";
      LastSegmentDropped(d, ".");
    }
    if |d| > 1 && d[|d| - 1] == '/' {
      assert d == d[..|d| - 1] + "/" + "";
      LastSegmentDropped(d[..|d| - 1], "");
    }
  }

  lemma CollapseNames(s: string)
    ensures Names(Collapse(s)) == Names(s)
  {
    CollapseKeepsNames(s);
  }

  lemma DropDotsNames(s: string)
    ensures Names(DropDots(s)) == Names(s)
  {
    DropDotsKeepsNames(s);
  }

  /**
   The canonical form passes the same names in the same order, `..` among them, so no
   spelling of a path hides a directory or an upward step from the deny list.
   */
  lemma NormalisedKeepsNames(path: string)
    ensures Names(Normalised(path)) == Names(LowerDrive(Unix(path)))
  {
    var a := LowerDrive(Unix(path));
    CollapseNames(a);
    DropLeadKeepsNames(Collapse(a));
    DropDotsNames(DropLead(Collapse(a)));
    CollapseNames(DropDots(DropLead(Collapse(a))));
    EndKeepsNames(Collapse(DropDots(DropLead(Collapse(a)))));
  }

  /** A drive letter is written in lower case and separators alike, so spellings of one drive path agree. */
  lemma DrivesAlike(drive: char, rest: string)
    requires IsLetter(drive)
    ensures Normalised([drive] + ":\\" + rest) == Normalised([Lower(drive)] + ":/" + rest)
  {
    var a, b := Unix([drive] + ":\\" + rest), Unix([Lower(drive)] + ":/" + rest);
    assert a[1..] == b[1..];
    assert LowerDrive(a) == [Lower(drive)] + a[1..];
    assert LowerDrive(b) == [Lower(drive)] + b[1..];
  }

  // ----- what is canonical already -----

  lemma {:induction false} CollapseFixed(s: string)
    requires NoDoubles(s)
    ensures Collapse(s) == s
  {
    if s != [] {
      CollapseFixed(s[1..]);
    }
  }

  ghost predicate NoDots(s: string) {
    forall i :: 0 <= i <= |s| ==> !("/./" <= s[i..])
  }

  lemma {:induction false} DropDotsFixed(s: string)
    requires NoDots(s)
    ensures DropDots(s) == s
  {
    if s != [] {
      assert s[0..] == s == [s[0]] + s[1..];
      forall i | 0 <= i <= |s| - 1 ensures !("/./" <= s[1..][i..]) {
        assert s[1..][i..] == s[i + 1..];
      }
      DropDotsFixed(s[1..]);
    }
  }

  /** An absolute path of names only, written with forward slashes. */
  ghost predicate NamesOnly(s: string) {
    s != [] && s[0] == '/' && '\\' !in s && forall i :: 1 <= i < |Split(s)| ==> IsNamed(Split(s)[i])
  }

  lemma EverySegmentIsNamed(s: string, a: string, segment: string, rest: string)
    requires NamesOnly(s) && SlashFree(segment)
    requires s == a + "/" + segment + rest && (rest == "" || rest[0] == '/')
    ensures IsNamed(segment)
  {
    SplitSlashFree(segment);
    if rest == "" {
      SplitAcrossSlash(a, segment);
      assert s == a + "/" + segment;
    } else {
      SplitAcrossSlash(segment, rest[1..]);
      SplitAcrossSlash(a, segment + "/" + rest[1..]);
      assert rest == "/" + rest[1..];
      assert s == a + "/" + (segment + "/" + rest[1..]);
    }
    assert Split(s)[|Split(a)|] == segment;
  }

  lemma NamesOnlyIsTidy(s: string)
    requires NamesOnly(s)
    ensures NoDoubles(s) && NoDots(s) && s[|s| - 1] != '/' && !EndsWith(s, "/.")
  {
    forall i | 0 <= i < |s| - 1 && s[i] == '/' ensures s[i + 1] != '/' {
      if s[i + 1] == '/' {
        assert s == s[..i] + "/" + "" + s[i + 1..];
        EverySegmentIsNamed(s, s[..i], "", s[i + 1..]);
      }
    }
    forall i | 0 <= i <= |s| ensures !("/./" <= s[i..]) {
      if "/./" <= s[i..] {
        assert s[i..] == "/./" + s[i + 3..];
        assert s == s[..i] + "/" + "." + s[i + 2..];
        EverySegmentIsNamed(s, s[..i], ".", s[i + 2..]);
      }
    }
    if s[|s| - 1] == '/' {
      assert s == s[..|s| - 1] + "/" + "" + "";
      EverySegmentIsNamed(s, s[..|s| - 1], "", "");
    }
    if EndsWith(s, "/.") {
      assert s == s[..|s| - 2] + "/" + "." + "";
      EverySegmentIsNamed(s, s[..|s| - 2], ".", "");
    }
  }

  /** An absolute path of names only is its own canonical form, and so is the root. */
  lemma NamesOnlyIsCanonical(s: string)
    requires NamesOnly(s) || s == "/"
    ensures Normalised(s) == s
  {
    if s == "/" {
      RootIsCanonical();
    } else {
      NamesOnlyIsTidy(s);
      StagesKeep(s);
    }
  }

  lemma RootIsCanonical()
    ensures Normalised("/") == "/"
  {
  }

  lemma StagesKeep(s: string)
    requires s != [] && s[0] == '/' && '\\' !in s
    requires NoDoubles(s) && NoDots(s) && s[|s| - 1] != '/' && !EndsWith(s, "/.")
    ensures Normalised(s) == s
  {
    UnixFixed(s);
    assert LowerDrive(s) == s;
    CollapseFixed(s);
    assert DropLead(s) == s;
    DropDotsFixed(s);
    assert DropLastDot(s) == s && DropLastSlash(s) == s;
  }

  // ----- trailing sub-paths -----

  /** Every trailing sub-path, longest first. */
  function Suffixes(path: string): seq<string> {
    var parts := NonEmpty(Split(path));
    seq(|parts|, i requires 0 <= i < |parts| => Join(parts[i..]))
  }

  function NonEmpty(segments: seq<string>): seq<string> {
    if segments == [] then []
    else if segments[|segments| - 1] != "" then NonEmpty(segments[..|segments| - 1]) + [segments[|segments| - 1]]
    else NonEmpty(segments[..|segments| - 1])
  }

  method SuffixList(path: string) returns (out: seq<string>)
    ensures out == Suffixes(path)
  {
    var segments := Split(path);
    var parts: seq<string> := [];
    for i := 0 to |segments|
      invariant parts == NonEmpty(segments[..i])
    {
      assert segments[..i + 1][..i] == segments[..i];
      if |segments[i]| > 0 {
        parts := parts + [segments[i]];
      }
    }
    assert segments[..|segments|] == segments;
    out := [];
    for i := 0 to |parts|
      invariant out == seq(i, j requires 0 <= j < i => Join(parts[j..]))
    {
      out := out + [Join(parts[i..])];
    }
  }

  /** `k` is where a segment of the path starts. */
  predicate SegmentStart(path: string, k: nat) {
    k < |path| && path[k] != '/' && (k == 0 || path[k - 1] == '/')
  }

  lemma {:induction false} AllNonEmpty(segments: seq<string>)
    requires forall i :: 0 <= i < |segments| ==> segments[i] != ""
    ensures NonEmpty(segments) == segments
  {
    if segments != [] {
      AllNonEmpty(segments[..|segments| - 1]);
    }
  }

  lemma {:induction false} EmptyThenNonEmpty(segments: seq<string>)
    requires forall i :: 0 <= i < |segments| ==> segments[i] != ""
    ensures NonEmpty([""] + segments) == segments
  {
    var all := [""] + segments;
    if segments == [] {
      assert all[..0] == [];
    } else {
      var n := |segments| - 1;
      assert all[..n + 1] == [""] + segments[..n];
      EmptyThenNonEmpty(segments[..n]);
      assert segments[..n] + [segments[n]] == segments;
    }
  }

  lemma {:induction false} TidySegments(s: string)
    requires NoDoubles(s) && s != [] && s[|s| - 1] != '/'
    ensures forall i :: 1 <= i < |Split(s)| ==> Split(s)[i] != ""
    ensures s[0] != '/' ==> Split(s)[0] != ""
  {
    if |s| > 1 {
      assert forall i :: 0 <= i < |s[1..]| - 1 ==> s[1..][i] == s[i + 1];
      TidySegments(s[1..]);
    }
  }

  lemma SuffixesOfRelative(s: string)
    requires NoDoubles(s) && s != [] && s[|s| - 1] != '/' && s[0] != '/'
    ensures var parts := Split(s);
            Suffixes(s) == seq(|parts|, i requires 0 <= i < |parts| => Join(parts[i..]))
  {
    TidySegments(s);
    AllNonEmpty(Split(s));
  }

  lemma RelativeTailIsSuffix(s: string, k: nat)
    requires NoDoubles(s) && s != [] && s[|s| - 1] != '/' && s[0] != '/' && SegmentStart(s, k)
    ensures s[k..] in Suffixes(s)
  {
    SuffixesOfRelative(s);
    JoinSplit(s[k..]);
    if k == 0 {
      assert s[k..] == s && Split(s)[0..] == Split(s);
      assert Suffixes(s)[0] == s;
    } else {
      var a := s[..k - 1];
      assert s == a + "/" + s[k..];
      SplitAcrossSlash(a, s[k..]);
      assert Split(s)[|Split(a)|..] == Split(s[k..]);
      assert Suffixes(s)[|Split(a)|] == s[k..];
    }
  }

  lemma {:induction false} PiecesHaveNoSlash(s: string)
    ensures forall i :: 0 <= i < |Split(s)| ==> '/' !in Split(s)[i]
  {
    if s != [] {
      PiecesHaveNoSlash(s[1..]);
    }
  }

  lemma RelativeSuffixIsTail(s: string, i: nat) returns (k: nat)
    requires NoDoubles(s) && s != [] && s[|s| - 1] != '/' && s[0] != '/' && i < |Suffixes(s)|
    ensures SegmentStart(s, k) && Suffixes(s)[i] == s[k..]
  {
    SuffixesOfRelative(s);
    TidySegments(s);
    JoinSplit(s);
    var parts := Split(s);
    if i == 0 {
      k := 0;
      assert parts[0..] == parts;
    } else {
      var front := Join(parts[..i]);
      assert parts == parts[..i] + parts[i..];
      JoinAppend(parts[..i], parts[i..]);
      k := |front| + 1;
      assert s[k..] == Join(parts[i..]);
      PiecesHaveNoSlash(s);
      assert parts[i][0] in parts[i];
    }
  }

  lemma SuffixesOfAbsolute(s: string)
    requires NoDoubles(s) && |s| > 1 && s[|s| - 1] != '/' && s[0] == '/'
    ensures NoDoubles(s[1..]) && s[1..][|s| - 2] != '/' && s[1..][0] != '/'
    ensures Suffixes(s) == Suffixes(s[1..])
  {
    assert forall i :: 0 <= i < |s[1..]| - 1 ==> s[1..][i] == s[i + 1];
    TidySegments(s[1..]);
    AllNonEmpty(Split(s[1..]));
    EmptyThenNonEmpty(Split(s[1..]));
  }

  /** For a tidy path, the trailing sub-paths are exactly its tails from the start of a segment. */
  lemma SuffixesAreTheTails(path: string, t: string)
    requires Tidy(path)
    ensures t in Suffixes(path) <==> exists k: nat :: SegmentStart(path, k) && t == path[k..]
  {
    if path == [] || path == "/" {
      if path == "/" {
        SlashNames("");
        assert "/" + "" == "/";
        EmptyThenNonEmpty([]);
        assert NonEmpty([""] + [""]) == NonEmpty([""]) by { assert ([""] + [""])[..1] == [""]; }
      }
      assert NonEmpty([""]) == [] by { assert [""][..0] == []; }
    } else if path[0] != '/' {
      TailsOfRelative(path, t);
    } else {
      var q := path[1..];
      SuffixesOfAbsolute(path);
      TailsOfRelative(q, t);
      if t in Suffixes(q) {
        var k: nat :| SegmentStart(q, k) && t == q[k..];
        assert SegmentStart(path, k + 1) && path[k + 1..] == q[k..];
      }
      if k: nat :| SegmentStart(path, k) && t == path[k..] {
        assert SegmentStart(q, k - 1) && q[k - 1..] == path[k..];
      }
    }
  }

  lemma TailsOfRelative(s: string, t: string)
    requires NoDoubles(s) && s != [] && s[|s| - 1] != '/' && s[0] != '/'
    ensures t in Suffixes(s) <==> exists k: nat :: SegmentStart(s, k) && t == s[k..]
  {
    if t in Suffixes(s) {
      var i :| 0 <= i < |Suffixes(s)| && Suffixes(s)[i] == t;
      var k := RelativeSuffixIsTail(s, i);
    }
    if k: nat :| SegmentStart(s, k) && t == s[k..] {
      RelativeTailIsSuffix(s, k);
    }
  }
}
