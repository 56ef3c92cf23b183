/**
 What each piece of a glob matches, in elementary terms: the meaning used by the compilers'
 correctness, read off one symbol, and one group of alternatives, at a time.
 */
module GlobLaws {
  import opened Glob
  import opened PathText
  import opened Prelude
  import opened Regex

  /** A character that stands for itself outside braces. */
  predicate Plain(c: char) {
    c != '*' && c != '?' && c != '{'
  }

  predicate EqualUpToCase(caseless: bool, a: char, b: char) {
    a == b || (caseless && Lower(a) == Lower(b))
  }

  predicate OneLine(s: string) {
    forall i :: 0 <= i < |s| ==> s[i] != '\n' && s[i] != '\r' && s[i] != '\U{2028}' && s[i] != '\U{2029}'
  }

  lemma EmptyGlob(caseless: bool, s: string)
    ensures s in Meaning(caseless, "", 0) <==> s == ""
  {
  }

  lemma CatByFirst(a: Language, b: Language, s: string)
    requires forall x :: x in a ==> |x| == 1
    ensures s in Cat(a, b) <==> s != [] && [s[0]] in a && s[1..] in b
  {
    if s in Cat(a, b) {
      var x, y := CatParts(a, b, s);
      assert x == [s[0]] && y == s[1..];
    }
    if s != [] && [s[0]] in a && s[1..] in b {
      InCat(a, b, [s[0]], s[1..]);
      assert [s[0]] + s[1..] == s;
    }
  }

  /** A plain character matches itself, in either case when case is ignored. */
  lemma PlainLaw(caseless: bool, c: char, g: string, s: string)
    requires Plain(c)
    ensures s in Meaning(caseless, [c] + g, 0) <==> s != [] && EqualUpToCase(caseless, s[0], c) && s[1..] in Meaning(caseless, g, 0)
  {
    assert ([c] + g)[1..] == g;
    CatByFirst(Letter(caseless, c), Meaning(caseless, g, 0), s);
  }

  /** `?` matches one character other than a slash. */
  lemma QuestionLaw(caseless: bool, g: string, s: string)
    ensures s in Meaning(caseless, "?" + g, 0) <==> s != [] && s[0] != '/' && s[1..] in Meaning(caseless, g, 0)
  {
    assert ("?" + g)[1..] == g;
    CatByFirst(Single(NoSlash), Meaning(caseless, g, 0), s);
  }

  /** `*` matches within one segment. */
  lemma StarLaw(caseless: bool, g: string, s: string)
    requires !("*" <= g)
    ensures s in Meaning(caseless, "*" + g, 0) <==>
            exists k: nat :: k <= |s| && '/' !in s[..k] && s[k..] in Meaning(caseless, g, 0)
  {
    var whole := "*" + g;
    assert whole[1..] == g && !("**" <= whole);
    assert Meaning(caseless, whole, 0) == Cat(Each(NoSlash), Meaning(caseless, g, 0));
    if s in Meaning(caseless, whole, 0) {
      var k: nat :| SplitsAt(Each(NoSlash), Meaning(caseless, g, 0), s, k);
    }
    if k: nat :| k <= |s| && '/' !in s[..k] && s[k..] in Meaning(caseless, g, 0) {
      assert SplitsAt(Each(NoSlash), Meaning(caseless, g, 0), s, k);
    }
  }

  /** `**` matches across segments, within one line. */
  lemma DoubleStarLaw(caseless: bool, g: string, s: string)
    requires !("/" <= g)
    ensures s in Meaning(caseless, "**" + g, 0) <==>
            exists k: nat :: k <= |s| && OneLine(s[..k]) && s[k..] in Meaning(caseless, g, 0)
  {
    var whole := "**" + g;
    assert whole[2..] == g && !("**/" <= whole);
    assert Meaning(caseless, whole, 0) == Cat(Each(NotNewline), Meaning(caseless, g, 0));
    if s in Meaning(caseless, whole, 0) {
      var k: nat :| SplitsAt(Each(NotNewline), Meaning(caseless, g, 0), s, k);
    }
    if k: nat :| k <= |s| && OneLine(s[..k]) && s[k..] in Meaning(caseless, g, 0) {
      assert SplitsAt(Each(NotNewline), Meaning(caseless, g, 0), s, k);
    }
  }

  /** A double star and a slash match whole directories, possibly none, within one line. */
  lemma DirectoriesLaw(caseless: bool, g: string, s: string)
    ensures s in Meaning(caseless, "**/" + g, 0) <==>
            exists k: nat :: k <= |s| && (k == 0 || s[k - 1] == '/') && OneLine(s[..k]) && s[k..] in Meaning(caseless, g, 0)
  {
    var whole := "**/" + g;
    assert whole[3..] == g;
    assert Meaning(caseless, whole, 0) == Cat(DirPrefixes(), Meaning(caseless, g, 0));
    if s in Meaning(caseless, whole, 0) {
      var k: nat :| SplitsAt(DirPrefixes(), Meaning(caseless, g, 0), s, k);
      assert DirPrefix(s[..k]);
    }
    if k: nat :| k <= |s| && (k == 0 || s[k - 1] == '/') && OneLine(s[..k]) && s[k..] in Meaning(caseless, g, 0) {
      assert DirPrefix(s[..k]);
      assert SplitsAt(DirPrefixes(), Meaning(caseless, g, 0), s, k);
    }
  }

  // ----- alternatives -----

  /** Text of one alternative: plain, and without the characters that end one. */
  predicate Alternative(s: string) {
    forall i :: 0 <= i < |s| ==> Plain(s[i]) && s[i] != '}' && s[i] != ','
  }

  /** What follows the opening brace. */
  function Listed(alternatives: seq<string>): string
    requires alternatives != []
  {
    if |alternatives| == 1 then alternatives[0] + "}" else alternatives[0] + "," + Listed(alternatives[1..])
  }

  lemma {:induction false} SkipsAlternative(a: string, tail: string)
    requires Alternative(a)
    ensures Skip(a + tail) == Skip(tail)
  {
    if a == [] {
      assert a + tail == tail;
    } else {
      assert (a + tail)[1..] == a[1..] + tail;
      SkipsAlternative(a[1..], tail);
    }
  }

  lemma {:induction false} LaterThanAlternative(caseless: bool, a: string, tail: string)
    requires Alternative(a)
    ensures Later(caseless, a + tail, 1) == Later(caseless, tail, 1)
  {
    if a == [] {
      assert a + tail == tail;
    } else {
      assert (a + tail)[1..] == a[1..] + tail;
      LaterThanAlternative(caseless, a[1..], tail);
    }
  }

  /** The same text in front of equal meanings means the same, inside one brace or outside. */
  lemma {:induction false} SameInFront(caseless: bool, a: string, inside: string, outside: string)
    requires Alternative(a) && Meaning(caseless, inside, 1) == Meaning(caseless, outside, 0)
    ensures Meaning(caseless, a + inside, 1) == Meaning(caseless, a + outside, 0)
  {
    if a == [] {
      assert a + inside == inside && a + outside == outside;
    } else {
      assert (a + inside)[1..] == a[1..] + inside && (a + outside)[1..] == a[1..] + outside;
      SameInFront(caseless, a[1..], inside, outside);
    }
  }

  lemma {:induction false} SkipsToTheEnd(alternatives: seq<string>, g: string)
    requires alternatives != [] && forall a :: a in alternatives ==> Alternative(a)
    ensures Skip(Listed(alternatives) + g) == g
  {
    var a := alternatives[0];
    if |alternatives| == 1 {
      assert Listed(alternatives) + g == a + ("}" + g);
      SkipsAlternative(a, "}" + g);
      assert ("}" + g)[1..] == g;
    } else {
      var rest := Listed(alternatives[1..]) + g;
      assert Listed(alternatives) + g == a + ("," + rest);
      SkipsAlternative(a, "," + rest);
      assert ("," + rest)[1..] == rest;
      SkipsToTheEnd(alternatives[1..], g);
    }
  }

  /** What the alternatives match, each followed by the rest of the glob. */
  ghost function AnyOf(caseless: bool, alternatives: seq<string>, g: string): Language {
    if alternatives == [] then iset{}
    else Meaning(caseless, alternatives[0] + g, 0) + AnyOf(caseless, alternatives[1..], g)
  }

  lemma {:induction false} FirstAndLater(caseless: bool, alternatives: seq<string>, g: string)
    requires alternatives != [] && forall a :: a in alternatives ==> Alternative(a)
    ensures Meaning(caseless, Listed(alternatives) + g, 1) == Meaning(caseless, alternatives[0] + g, 0)
    ensures Later(caseless, Listed(alternatives) + g, 1) == AnyOf(caseless, alternatives[1..], g)
  {
    var a := alternatives[0];
    if |alternatives| == 1 {
      var tail := "}" + g;
      assert Listed(alternatives) + g == a + tail && tail[1..] == g;
      SameInFront(caseless, a, tail, g);
      LaterThanAlternative(caseless, a, tail);
    } else {
      var rest := Listed(alternatives[1..]) + g;
      var tail := "," + rest;
      assert Listed(alternatives) + g == a + tail && tail[1..] == rest;
      SkipsToTheEnd(alternatives[1..], g);
      SameInFront(caseless, a, tail, g);
      LaterThanAlternative(caseless, a, tail);
      FirstAndLater(caseless, alternatives[1..], g);
    }
  }

  /** A group of alternatives matches what one of them does, in its place. */
  lemma AlternativesLaw(caseless: bool, alternatives: seq<string>, g: string)
    requires alternatives != [] && forall a :: a in alternatives ==> Alternative(a)
    ensures Meaning(caseless, "{" + Listed(alternatives) + g, 0) == AnyOf(caseless, alternatives, g)
  {
    var whole := "{" + Listed(alternatives) + g;
    assert whole[1..] == Listed(alternatives) + g;
    FirstAndLater(caseless, alternatives, g);
  }
}
