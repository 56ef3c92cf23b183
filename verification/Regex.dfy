/**
 The part of regular-expression syntax that the glob compilers emit, read from its text:
 a lexer, a parser and the language of the result. Anything else is rejected, including
 unbalanced groups and an alternation outside every group, which `^` and `$` would not cover.
 */
module Regex {
  import opened PathText
  import opened Prelude

  // ----- languages -----

  type Language = iset<string>

  ghost function Epsilon(): Language {
    iset{""}
  }

  ghost function Cat(a: Language, b: Language): Language {
    iset s: string | Splits(a, b, s)
  }

  ghost predicate Splits(a: Language, b: Language, s: string) {
    exists k: nat :: SplitsAt(a, b, s, k)
  }

  ghost predicate SplitsAt(a: Language, b: Language, s: string, k: nat) {
    k <= |s| && s[..k] in a && s[k..] in b
  }

  lemma InCat(a: Language, b: Language, x: string, y: string)
    requires x in a && y in b
    ensures x + y in Cat(a, b)
  {
    assert (x + y)[..|x|] == x && (x + y)[|x|..] == y;
    assert SplitsAt(a, b, x + y, |x|);
  }

  lemma CatParts(a: Language, b: Language, s: string) returns (x: string, y: string)
    requires s in Cat(a, b)
    ensures x in a && y in b && s == x + y
  {
    var k: nat :| SplitsAt(a, b, s, k);
    x, y := s[..k], s[k..];
  }

  lemma CatAssoc(a: Language, b: Language, c: Language)
    ensures Cat(Cat(a, b), c) == Cat(a, Cat(b, c))
  {
    forall s ensures s in Cat(Cat(a, b), c) <==> s in Cat(a, Cat(b, c)) {
      if s in Cat(Cat(a, b), c) {
        var xy, z := CatParts(Cat(a, b), c, s);
        var x, y := CatParts(a, b, xy);
        InCat(b, c, y, z);
        InCat(a, Cat(b, c), x, y + z);
        assert x + (y + z) == s;
      }
      if s in Cat(a, Cat(b, c)) {
        var x, yz := CatParts(a, Cat(b, c), s);
        var y, z := CatParts(b, c, yz);
        InCat(a, b, x, y);
        InCat(Cat(a, b), c, x + y, z);
        assert (x + y) + z == s;
      }
    }
  }

  lemma EpsilonRight(a: Language)
    ensures Cat(a, Epsilon()) == a
  {
    forall s ensures s in Cat(a, Epsilon()) <==> s in a {
      assert s[..|s|] == s && s[|s|..] == [];
      assert s in a ==> SplitsAt(a, Epsilon(), s, |s|);
      if s in Cat(a, Epsilon()) {
        var x, y := CatParts(a, Epsilon(), s);
        assert x + y == x;
      }
    }
  }

  lemma EpsilonLeft(a: Language)
    ensures Cat(Epsilon(), a) == a
  {
    forall s ensures s in Cat(Epsilon(), a) <==> s in a {
      assert s[..0] == [] && s[0..] == s;
      assert s in a ==> SplitsAt(Epsilon(), a, s, 0);
      if s in Cat(Epsilon(), a) {
        var x, y := CatParts(Epsilon(), a, s);
        assert x + y == y;
      }
    }
  }

  lemma CatUnion(a: Language, b: Language, c: Language)
    ensures Cat(a, b + c) == Cat(a, b) + Cat(a, c)
    ensures Cat(a + b, c) == Cat(a, c) + Cat(b, c)
  {
    forall s, k: nat ensures SplitsAt(a, b + c, s, k) <==> SplitsAt(a, b, s, k) || SplitsAt(a, c, s, k) {}
    forall s, k: nat ensures SplitsAt(a + b, c, s, k) <==> SplitsAt(a, c, s, k) || SplitsAt(b, c, s, k) {}
    forall s ensures Splits(a, b + c, s) <==> Splits(a, b, s) || Splits(a, c, s) {}
    forall s ensures Splits(a + b, c, s) <==> Splits(a, c, s) || Splits(b, c, s) {}
  }

  lemma CatEmpty(a: Language)
    ensures Cat(a, iset{}) == iset{} && Cat(iset{}, a) == iset{}
  {
  }

  ghost function Power(a: Language, n: nat): Language {
    if n == 0 then Epsilon() else Cat(Power(a, n - 1), a)
  }

  ghost function Closure(a: Language): Language {
    iset s: string | InClosure(a, s)
  }

  ghost predicate InClosure(a: Language, s: string) {
    exists n: nat :: s in Power(a, n)
  }

  /** Strings of one character. */
  ghost function Single(p: char -> bool): Language {
    iset s: string | |s| == 1 && p(s[0])
  }

  /** Strings whose characters all satisfy `p`. */
  ghost function Each(p: char -> bool): Language {
    iset s: string | forall i :: 0 <= i < |s| ==> p(s[i])
  }

  lemma {:induction false} PowerOfSingle(p: char -> bool, n: nat, s: string)
    ensures s in Power(Single(p), n) <==> |s| == n && s in Each(p)
  {
    if n > 0 {
      if s in Power(Single(p), n) {
        var x, y := CatParts(Power(Single(p), n - 1), Single(p), s);
        PowerOfSingle(p, n - 1, x);
        EachOfTwo(p, x, y);
      }
      if |s| == n && s in Each(p) {
        var x, y := s[..n - 1], [s[n - 1]];
        PowerOfSingle(p, n - 1, x);
        InCat(Power(Single(p), n - 1), Single(p), x, y);
        assert x + y == s;
      }
    }
  }

  lemma EachOfTwo(p: char -> bool, x: string, y: string)
    requires x in Each(p) && y in Single(p)
    ensures x + y in Each(p)
  {
  }

  lemma ClosureOfSingle(p: char -> bool)
    ensures Closure(Single(p)) == Each(p)
  {
    forall s ensures s in Closure(Single(p)) <==> s in Each(p) {
      if s in Closure(Single(p)) {
        var n: nat :| s in Power(Single(p), n);
        PowerOfSingle(p, n, s);
      }
      if s in Each(p) {
        PowerOfSingle(p, |s|, s);
      }
    }
  }

  // ----- abstract syntax -----

  datatype Re = Chr(c: char) | Dot | NotSlash | Star(r: Re) | Opt(r: Re) | Group(alts: Alts)

  /** Items of a concatenation, last one outermost. */
  datatype Items = Nil | Snoc(init: Items, last: Re)

  datatype Alts = NoAlts | OrElse(others: Alts, items: Items)

  predicate IsNewline(c: char) {
    c == '\n' || c == '\r' || c == '\U{2028}' || c == '\U{2029}'
  }

  predicate NotNewline(c: char) {
    !IsNewline(c)
  }

  predicate NoSlash(c: char) {
    c != '/'
  }

  /** Equal characters, up to the case of ASCII letters when `caseless`. */
  predicate Same(caseless: bool, a: char, b: char) {
    a == b || (caseless && Lower(a) == Lower(b))
  }

  ghost function Letter(caseless: bool, c: char): Language {
    iset s: string | |s| == 1 && Same(caseless, s[0], c)
  }

  ghost function Denotes(caseless: bool, r: Re): Language {
    match r
    case Chr(c) => Letter(caseless, c)
    case Dot => Single(NotNewline)
    case NotSlash => Single(NoSlash)
    case Star(r') => Closure(Denotes(caseless, r'))
    case Opt(r') => Epsilon() + Denotes(caseless, r')
    case Group(alts) => DenotesAlts(caseless, alts)
  }

  ghost function DenotesItems(caseless: bool, items: Items): Language {
    match items
    case Nil => Epsilon()
    case Snoc(init, last) => Cat(DenotesItems(caseless, init), Denotes(caseless, last))
  }

  ghost function DenotesAlts(caseless: bool, alts: Alts): Language {
    match alts
    case NoAlts => iset{}
    case OrElse(others, items) => DenotesAlts(caseless, others) + DenotesItems(caseless, items)
  }

  // ----- lexer -----

  datatype Token = TChar(c: char) | TDot | TNotSlash | TStar | TOpt | TOpen | TBar | TClose

  const META := ".*+?^${}()|[]\\"

  function Lex(s: string): Option<seq<Token>> {
    if s == [] then Some([])
    else if |s| >= 2 && s[0] == '\\' then Then([TChar(s[1])], Lex(s[2..]))
    else if "[^/]" <= s then Then([TNotSlash], Lex(s[4..]))
    else if "(?:" <= s then Then([TOpen], Lex(s[3..]))
    else if s[0] == '.' then Then([TDot], Lex(s[1..]))
    else if s[0] == '*' then Then([TStar], Lex(s[1..]))
    else if s[0] == '?' then Then([TOpt], Lex(s[1..]))
    else if s[0] == '|' then Then([TBar], Lex(s[1..]))
    else if s[0] == ')' then Then([TClose], Lex(s[1..]))
    else if s[0] in META then None
    else Then([TChar(s[0])], Lex(s[1..]))
  }

  function Then(front: seq<Token>, rest: Option<seq<Token>>): Option<seq<Token>> {
    if rest.None? then None else Some(front + rest.value)
  }

  // ----- parser -----

  /** One open group: the alternatives finished so far and the one being read. */
  datatype Frame = Frame(alts: Alts, items: Items)

  function AddItem(stack: seq<Frame>, r: Re): seq<Frame>
    requires stack != []
  {
    var f := stack[|stack| - 1];
    stack[..|stack| - 1] + [f.(items := Snoc(f.items, r))]
  }

  function Wrap(t: Token, r: Re): Re
    requires t.TStar? || t.TOpt?
  {
    if t.TStar? then Star(r) else Opt(r)
  }

  /** The stack after one token; `None` where the text is not a regular expression. */
  function Shift(stack: seq<Frame>, t: Token): Option<seq<Frame>>
    requires stack != []
    ensures Shift(stack, t).Some? ==> Shift(stack, t).value != []
  {
    var n := |stack| - 1;
    var f := stack[n];
    match t
    case TChar(c) => Some(AddItem(stack, Chr(c)))
    case TDot => Some(AddItem(stack, Dot))
    case TNotSlash => Some(AddItem(stack, NotSlash))
    case TOpen => Some(stack + [Frame(NoAlts, Nil)])
    case TBar => Some(stack[..n] + [Frame(OrElse(f.alts, f.items), Nil)])
    case TClose =>
      if n == 0 then None else Some(AddItem(stack[..n], Group(OrElse(f.alts, f.items))))
    case _ =>
      if f.items.Nil? then None
      else Some(stack[..n] + [f.(items := Snoc(f.items.init, Wrap(t, f.items.last)))])
  }

  function ParseFrom(stack: seq<Frame>, tokens: seq<Token>): Option<Items>
    requires stack != []
    decreases |tokens|
  {
    if tokens == [] then
      if |stack| == 1 && stack[0].alts.NoAlts? then Some(stack[0].items) else None
    else
      var next := Shift(stack, tokens[0]);
      if next.None? then None else ParseFrom(next.value, tokens[1..])
  }

  const BOTTOM: seq<Frame> := [Frame(NoAlts, Nil)]

  /** The concatenation between `^` and `$`, if the text is one. */
  function Parse(text: string): Option<Items> {
    var tokens := Lex(text);
    if tokens.None? then None else ParseFrom(BOTTOM, tokens.value)
  }
}
