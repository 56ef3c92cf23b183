/**
 Compiling a glob always gives text that parses as one anchored regular expression, and
 the strings it matches are exactly the glob's direct meaning.

 The parser works through a stack of open groups. `Total` says what a stack and the rest
 of the glob still to come stand for together, and every token the compiler writes keeps it.
 */
module GlobCorrect {
  import opened Prelude
  import opened Regex
  import opened Glob

  // ----- what the lexer makes of the compiler's output -----

  function SymbolTokens(g: string): seq<Token>
    requires g != []
  {
    if "**/" <= g then [TOpen, TDot, TStar, TChar('/'), TClose, TOpt]
    else if "**" <= g then [TDot, TStar]
    else if g[0] == '*' then [TNotSlash, TStar]
    else if g[0] == '?' then [TNotSlash]
    else [TChar(g[0])]
  }

  /** The tokens of the compiler's next piece of output, the rest of the glob, and the groups then open. */
  function StepTokens(g: string, depth: nat): seq<Token> {
    if g == [] || (!IsSymbol(g, depth) && g[0] == '}') then [TClose]
    else if IsSymbol(g, depth) then SymbolTokens(g)
    else if g[0] == '{' then [TOpen]
    else [TBar]
  }

  function Rest(g: string, depth: nat): (rest: string)
    ensures |rest| <= |g| && (g != [] ==> |rest| < |g|)
  {
    if g == [] then [] else if IsSymbol(g, depth) then g[SymbolLength(g)..] else g[1..]
  }

  function NextDepth(g: string, depth: nat): nat
    requires g != [] || depth > 0
  {
    if g == [] || (!IsSymbol(g, depth) && g[0] == '}') then depth - 1
    else if g[0] == '{' then depth + 1
    else depth
  }

  function Tokens(g: string, depth: nat): seq<Token>
    decreases |g|, depth
  {
    if g == [] && depth == 0 then []
    else StepTokens(g, depth) + Tokens(Rest(g, depth), NextDepth(g, depth))
  }

  /** Wherever the text `piece` stands, it lexes as these tokens. */
  ghost predicate Reads(piece: string, tokens: seq<Token>) {
    forall rest :: Lex(piece + rest) == Then(tokens, Lex(rest))
  }

  lemma ReadsBoth(a: string, b: string, x: seq<Token>, y: seq<Token>)
    requires Reads(a, x) && Reads(b, y)
    ensures Reads(a + b, x + y)
  {
    forall rest ensures Lex(a + b + rest) == Then(x + y, Lex(rest)) {
      AppendStep(a, b, rest);
      LexPiece(a, x, b + rest);
      LexPiece(b, y, rest);
      ThenThen(x, y, Lex(rest));
    }
  }

  lemma ThenThen(x: seq<Token>, y: seq<Token>, rest: Option<seq<Token>>)
    ensures Then(x, Then(y, rest)) == Then(x + y, rest)
  {
    if rest.Some? {
      assert x + (y + rest.value) == (x + y) + rest.value;
    }
  }

  lemma ReadsNotSlash()
    ensures Reads("[^/]", [TNotSlash])
  {
  }

  lemma ReadsOpen()
    ensures Reads("(?:", [TOpen])
  {
  }

  lemma ReadsEscape(c: char)
    ensures Reads(Escape(c), [TChar(c)])
  {
    assert META[0] == '.' && META[1] == '*' && META[3] == '?' && META[8] == '(';
    assert META[9] == ')' && META[10] == '|' && META[11] == '[' && META[13] == '\\';
    forall rest ensures Lex(Escape(c) + rest) == Then([TChar(c)], Lex(rest)) {
      if c in META {
        assert (['\\', c] + rest)[2..] == rest;
      } else {
        assert ([c] + rest)[1..] == rest;
      }
    }
  }

  /** The characters that stand for a token of their own. */
  function Operator(t: Token): char
    requires t.TDot? || t.TStar? || t.TOpt? || t.TClose? || t.TBar?
  {
    match t
    case TDot => '.'
    case TStar => '*'
    case TOpt => '?'
    case TClose => ')'
    case TBar => '|'
  }

  lemma ReadsOperator(t: Token)
    requires t.TDot? || t.TStar? || t.TOpt? || t.TClose? || t.TBar?
    ensures Reads([Operator(t)], [t])
  {
  }

  lemma ReadsSymbol(g: string)
    requires g != []
    ensures Reads(EmitSymbol(g), SymbolTokens(g))
  {
    ReadsOperator(TDot);
    ReadsOperator(TStar);
    ReadsNotSlash();
    if "**/" <= g {
      ReadsDirs();
    } else if "**" <= g {
      ReadsBoth(".", "*", [TDot], [TStar]);
      assert "." + "*" == ".*" && [TDot] + [TStar] == [TDot, TStar];
    } else if g[0] == '*' {
      ReadsBoth("[^/]", "*", [TNotSlash], [TStar]);
      assert "[^/]" + "*" == "[^/]*" && [TNotSlash] + [TStar] == [TNotSlash, TStar];
    } else if g[0] != '?' {
      ReadsEscape(g[0]);
    }
  }

  lemma ReadsThree(a: string, b: string, c: string, x: seq<Token>, y: seq<Token>, z: seq<Token>)
    requires Reads(a, x) && Reads(b, y) && Reads(c, z)
    ensures Reads(a + b + c, x + y + z)
  {
    ReadsBoth(a, b, x, y);
    ReadsBoth(a + b, c, x + y, z);
  }

  lemma ReadsDirsFront()
    ensures Reads("(?:.*", [TOpen, TDot, TStar])
  {
    ReadsThree("(?:", ".", "*", [TOpen], [TDot], [TStar]);
    assert "(?:" + "." + "*" == "(?:.*" && [TOpen] + [TDot] + [TStar] == [TOpen, TDot, TStar];
  }

  lemma ReadsDirsBack()
    ensures Reads("/)?", [TChar('/'), TClose, TOpt])
  {
    ReadsEscape('/');
    ReadsOperator(TClose);
    ReadsOperator(TOpt);
    ReadsThree("/", ")", "?", [TChar('/')], [TClose], [TOpt]);
    assert "/" + ")" + "?" == "/)?" && [TChar('/')] + [TClose] + [TOpt] == [TChar('/'), TClose, TOpt];
  }

  lemma ReadsDirs()
    ensures Reads("(?:.*/)?", [TOpen, TDot, TStar, TChar('/'), TClose, TOpt])
  {
    ReadsDirsFront();
    ReadsDirsBack();
    ReadsBoth("(?:.*", "/)?", [TOpen, TDot, TStar], [TChar('/'), TClose, TOpt]);
    assert "(?:.*" + "/)?" == "(?:.*/)?";
    assert [TOpen, TDot, TStar] + [TChar('/'), TClose, TOpt] == [TOpen, TDot, TStar, TChar('/'), TClose, TOpt];
  }

  /** The compiler's next piece of output, and what it has read of the glob by then. */
  function Piece(g: string, depth: nat): string {
    if g == [] || (!IsSymbol(g, depth) && g[0] == '}') then ")"
    else if IsSymbol(g, depth) then EmitSymbol(g)
    else if g[0] == '{' then "(?:"
    else "|"
  }

  lemma PieceReads(g: string, depth: nat)
    requires g != [] || depth > 0
    ensures Reads(Piece(g, depth), StepTokens(g, depth))
  {
    if g == [] || (!IsSymbol(g, depth) && g[0] == '}') {
      ReadsOperator(TClose);
    } else if IsSymbol(g, depth) {
      ReadsSymbol(g);
    } else if g[0] == '{' {
      ReadsOpen();
    } else {
      ReadsOperator(TBar);
    }
  }

  /** The compiler's text always lexes: nothing a glob says is read as other regular-expression syntax. */
  lemma {:induction false} LexEmit(g: string, depth: nat)
    ensures Lex(Emit(g, depth)) == Some(Tokens(g, depth))
    decreases |g|, depth
  {
    if g != [] || depth > 0 {
      PieceReads(g, depth);
      LexEmit(Rest(g, depth), NextDepth(g, depth));
    }
  }

  lemma LexPiece(piece: string, tokens: seq<Token>, rest: string)
    requires Reads(piece, tokens)
    ensures Lex(piece + rest) == Then(tokens, Lex(rest))
  {
  }

  // ----- what the parser makes of a symbol -----

  const ANY := Star(Dot)
  const DIRS := Opt(Group(OrElse(NoAlts, Snoc(Snoc(Nil, ANY), Chr('/')))))

  function SymbolRe(g: string): Re
    requires g != []
  {
    if "**/" <= g then DIRS
    else if "**" <= g then ANY
    else if g[0] == '*' then Star(NotSlash)
    else if g[0] == '?' then NotSlash
    else Chr(g[0])
  }

  lemma ParseOne(stack: seq<Frame>, t: Token, rest: seq<Token>)
    requires stack != []
    ensures ParseFrom(stack, [t] + rest) == var next := Shift(stack, t); if next.None? then None else ParseFrom(next.value, rest)
  {
  }

  lemma ParseTwo(stack: seq<Frame>, t: Token, u: Token, base: seq<Frame>, r: Re, rest: seq<Token>)
    requires stack != [] && base != [] && (u.TStar? || u.TOpt?)
    requires Shift(stack, t) == Some(AddItem(base, r))
    ensures ParseFrom(stack, [t, u] + rest) == ParseFrom(AddItem(base, Wrap(u, r)), rest)
  {
  }

  lemma DirsInParts(rest: seq<Token>)
    ensures [TOpen, TDot, TStar, TChar('/'), TClose, TOpt] + rest == [TOpen] + ([TDot, TStar] + ([TChar('/')] + ([TClose, TOpt] + rest)))
  {
  }

  lemma ParseDirs(stack: seq<Frame>, rest: seq<Token>)
    requires stack != []
    ensures ParseFrom(stack, [TOpen, TDot, TStar, TChar('/'), TClose, TOpt] + rest) == ParseFrom(AddItem(stack, DIRS), rest)
  {
    var t3 := [TClose, TOpt] + rest;
    var t2 := [TChar('/')] + t3;
    var t1 := [TDot, TStar] + t2;
    DirsInParts(rest);
    ParseOne(stack, TOpen, t1);
    ParseInside(stack, t2);
    ParseEnd(stack, rest);
  }

  lemma ParseInside(stack: seq<Frame>, rest: seq<Token>)
    ensures ParseFrom(stack + [Frame(NoAlts, Nil)], [TDot, TStar] + rest) == ParseFrom(stack + [Frame(NoAlts, Snoc(Nil, ANY))], rest)
  {
    var inner := stack + [Frame(NoAlts, Nil)];
    ParseTwo(inner, TDot, TStar, inner, Dot, rest);
    assert AddItem(inner, ANY) == stack + [Frame(NoAlts, Snoc(Nil, ANY))];
  }

  lemma ParseEnd(stack: seq<Frame>, rest: seq<Token>)
    requires stack != []
    ensures ParseFrom(stack + [Frame(NoAlts, Snoc(Nil, ANY))], [TChar('/')] + ([TClose, TOpt] + rest))
         == ParseFrom(AddItem(stack, DIRS), rest)
  {
    var inner := stack + [Frame(NoAlts, Snoc(Nil, ANY))];
    ParseOne(inner, TChar('/'), [TClose, TOpt] + rest);
    var full := AddItem(inner, Chr('/'));
    assert full == stack + [Frame(NoAlts, Snoc(Snoc(Nil, ANY), Chr('/')))];
    assert full[..|stack|] == stack;
    ParseTwo(full, TClose, TOpt, stack, DIRS.r, rest);
  }

  lemma ParseSymbol(stack: seq<Frame>, g: string, rest: seq<Token>)
    requires stack != [] && g != []
    ensures ParseFrom(stack, SymbolTokens(g) + rest) == ParseFrom(AddItem(stack, SymbolRe(g)), rest)
  {
    if "**/" <= g {
      ParseDirs(stack, rest);
    } else if "**" <= g {
    } else if g[0] == '*' {
    } else {
    }
  }

  lemma SymbolReMeans(caseless: bool, g: string)
    requires g != []
    ensures Denotes(caseless, SymbolRe(g)) == SymbolMeaning(caseless, g)
  {
    ClosureOfSingle(NotNewline);
    ClosureOfSingle(NoSlash);
    if "**/" <= g {
      DirsMeans(caseless);
    }
  }

  lemma DirsMeans(caseless: bool)
    ensures Denotes(caseless, DIRS) == DirPrefixes()
  {
    var any, slash := Each(NotNewline), Letter(caseless, '/');
    ClosureOfSingle(NotNewline);
    assert Denotes(caseless, ANY) == any;
    var first := Snoc(Nil, ANY);
    assert DenotesItems(caseless, Nil) == Epsilon();
    assert DenotesItems(caseless, first) == Cat(Epsilon(), any);
    EpsilonLeft(any);
    var items := Snoc(first, Chr('/'));
    assert DenotesItems(caseless, items) == Cat(any, slash);
    var alts := OrElse(NoAlts, items);
    assert DenotesAlts(caseless, NoAlts) == iset{};
    assert DenotesAlts(caseless, alts) == iset{} + Cat(any, slash);
    assert Denotes(caseless, DIRS) == Epsilon() + Denotes(caseless, Group(alts));
    DirsLanguage(caseless);
  }

  lemma DirsLanguage(caseless: bool)
    ensures Epsilon() + (iset{} + Cat(Each(NotNewline), Letter(caseless, '/'))) == DirPrefixes()
  {
    var any, slash := Each(NotNewline), Letter(caseless, '/');
    forall s ensures s in Epsilon() + (iset{} + Cat(any, slash)) <==> DirPrefix(s) {
      if s in Cat(any, slash) {
        var x, y := CatParts(any, slash, s);
        assert y == "/";
      }
      if s != [] && DirPrefix(s) {
        InCat(any, slash, s[..|s| - 1], "/");
        assert s[..|s| - 1] + "/" == s;
      }
    }
  }

  // ----- a stack and what is still to come -----

  /** What the open groups have read, one after the other. */
  ghost function Path(caseless: bool, stack: seq<Frame>): Language {
    if stack == [] then Epsilon()
    else Cat(Path(caseless, stack[..|stack| - 1]), DenotesItems(caseless, stack[|stack| - 1].items))
  }

  /** The other ways through the open groups: alternatives read already, and those still to come in `g`. */
  ghost function Branches(caseless: bool, stack: seq<Frame>, g: string): Language {
    if |stack| <= 1 then iset{}
    else
      var n := |stack| - 1;
      Cat(Path(caseless, stack[..n]),
          Cat(DenotesAlts(caseless, stack[n].alts), Meaning(caseless, Skip(g), n - 1)) + Later(caseless, g, n))
      + Branches(caseless, stack[..n], Skip(g))
  }

  ghost function Total(caseless: bool, stack: seq<Frame>, g: string): Language
    requires stack != []
  {
    Cat(Path(caseless, stack), Meaning(caseless, g, |stack| - 1)) + Branches(caseless, stack, g)
  }

  /** Reading past a symbol changes neither where the brace ends nor its later alternatives. */
  lemma SkipOneChar(caseless: bool, g: string, depth: nat)
    requires g != [] && depth > 0 && g[0] != '{' && g[0] != '}' && g[0] != ','
    ensures Skip(g) == Skip(g[1..])
    ensures Later(caseless, g, depth) == Later(caseless, g[1..], depth)
  {
  }

  lemma SkipSymbol(caseless: bool, g: string, depth: nat)
    requires g != [] && IsSymbol(g, depth) && depth > 0
    ensures Skip(g) == Skip(g[SymbolLength(g)..])
    ensures Later(caseless, g, depth) == Later(caseless, g[SymbolLength(g)..], depth)
  {
    SkipOneChar(caseless, g, depth);
    if "**" <= g {
      assert g[1] == '*';
      SkipOneChar(caseless, g[1..], depth);
      assert g[1..][1..] == g[2..];
      if "**/" <= g {
        assert g[2] == '/';
        SkipOneChar(caseless, g[2..], depth);
        assert g[2..][1..] == g[3..];
      }
    }
  }

  lemma PathOfAdded(caseless: bool, stack: seq<Frame>, r: Re)
    requires stack != []
    ensures Path(caseless, AddItem(stack, r)) == Cat(Path(caseless, stack), Denotes(caseless, r))
  {
    var n := |stack| - 1;
    assert AddItem(stack, r)[..n] == stack[..n];
    CatAssoc(Path(caseless, stack[..n]), DenotesItems(caseless, stack[n].items), Denotes(caseless, r));
  }

  lemma BranchesOfAdded(caseless: bool, stack: seq<Frame>, r: Re, g: string)
    requires stack != []
    ensures Branches(caseless, AddItem(stack, r), g) == Branches(caseless, stack, g)
  {
    var n := |stack| - 1;
    var added := AddItem(stack, r);
    assert added[..n] == stack[..n] && added[n].alts == stack[n].alts && |added| == |stack|;
  }

  lemma TotalAfterSymbol(caseless: bool, stack: seq<Frame>, g: string)
    requires stack != [] && g != [] && IsSymbol(g, |stack| - 1)
    ensures Total(caseless, AddItem(stack, SymbolRe(g)), g[SymbolLength(g)..]) == Total(caseless, stack, g)
  {
    SymbolReMeans(caseless, g);
    PathOfAdded(caseless, stack, SymbolRe(g));
    BranchesAfterSymbol(caseless, stack, g);
    SymbolMovesAcross(caseless, stack, AddItem(stack, SymbolRe(g)), g, g[SymbolLength(g)..], SymbolMeaning(caseless, g));
  }

  /** What the path gains the rest of the glob loses. */
  lemma SymbolMovesAcross(caseless: bool, stack: seq<Frame>, added: seq<Frame>, g: string, rest: string, symbol: Language)
    requires stack != [] && |added| == |stack|
    requires Path(caseless, added) == Cat(Path(caseless, stack), symbol)
    requires Meaning(caseless, g, |stack| - 1) == Cat(symbol, Meaning(caseless, rest, |stack| - 1))
    requires Branches(caseless, added, rest) == Branches(caseless, stack, g)
    ensures Total(caseless, added, rest) == Total(caseless, stack, g)
  {
    CatAssoc(Path(caseless, stack), symbol, Meaning(caseless, rest, |stack| - 1));
  }

  lemma BranchesAfterSymbol(caseless: bool, stack: seq<Frame>, g: string)
    requires stack != [] && g != [] && IsSymbol(g, |stack| - 1)
    ensures Branches(caseless, AddItem(stack, SymbolRe(g)), g[SymbolLength(g)..]) == Branches(caseless, stack, g)
  {
    BranchesOfAdded(caseless, stack, SymbolRe(g), g[SymbolLength(g)..]);
    if |stack| > 1 {
      SkipSymbol(caseless, g, |stack| - 1);
      SameBranches(caseless, stack, g[SymbolLength(g)..], g);
    }
  }

  lemma SameBranches(caseless: bool, stack: seq<Frame>, g: string, h: string)
    requires |stack| > 1 && Skip(g) == Skip(h) && Later(caseless, g, |stack| - 1) == Later(caseless, h, |stack| - 1)
    ensures Branches(caseless, stack, g) == Branches(caseless, stack, h)
  {
  }

  lemma TotalOfTop(caseless: bool, stack: seq<Frame>, f: Frame, g: string)
    requires stack != []
    ensures Total(caseless, stack + [f], g)
         == Cat(Cat(Path(caseless, stack), DenotesItems(caseless, f.items)), Meaning(caseless, g, |stack|))
            + (Cat(Path(caseless, stack),
                   Cat(DenotesAlts(caseless, f.alts), Meaning(caseless, Skip(g), |stack| - 1)) + Later(caseless, g, |stack|))
               + Branches(caseless, stack, Skip(g)))
  {
  }

  lemma TotalAfterOpen(caseless: bool, stack: seq<Frame>, g: string)
    requires stack != [] && g != [] && g[0] == '{'
    ensures Total(caseless, stack + [Frame(NoAlts, Nil)], g[1..]) == Total(caseless, stack, g)
  {
    var rest, d := g[1..], |stack| - 1;
    OpenAlgebra(Path(caseless, stack), Meaning(caseless, rest, d + 1), Later(caseless, rest, d + 1),
                Meaning(caseless, Skip(rest), d), Branches(caseless, stack, Skip(rest)));
  }

  lemma OpenAlgebra(path: Language, here: Language, later: Language, after: Language, others: Language)
    ensures Cat(Cat(path, Epsilon()), here) + (Cat(path, Cat(iset{}, after) + later) + others)
         == Cat(path, here + later) + others
  {
    EpsilonRight(path);
    CatEmpty(after);
    assert iset{} + later == later;
    CatUnion(path, here, later);
  }

  lemma TotalAfterComma(caseless: bool, stack: seq<Frame>, f: Frame, g: string)
    requires stack != [] && g != [] && g[0] == ','
    ensures Total(caseless, stack + [Frame(OrElse(f.alts, f.items), Nil)], g[1..]) == Total(caseless, stack + [f], g)
  {
    var n, rest := |stack|, g[1..];
    CommaAlgebra(Path(caseless, stack), DenotesAlts(caseless, f.alts), DenotesItems(caseless, f.items),
                 Meaning(caseless, Skip(rest), n - 1), Meaning(caseless, rest, n), Later(caseless, rest, n),
                 Branches(caseless, stack, Skip(rest)));
  }

  lemma CommaAlgebra(path: Language, alts: Language, items: Language, after: Language, here: Language, later: Language, others: Language)
    ensures Cat(Cat(path, Epsilon()), here) + (Cat(path, Cat(alts + items, after) + later) + others)
         == Cat(Cat(path, items), after) + (Cat(path, Cat(alts, after) + (here + later)) + others)
  {
    EpsilonRight(path);
    UnionCat(alts, items, after);
    CatAssoc(path, items, after);
    var x, y := Cat(alts, after), Cat(items, after);
    CatOfThree(path, x, y, later);
    CatOfThree(path, x, here, later);
    assert x + (here + later) == x + here + later;
    Shuffle(Cat(path, here), Cat(path, x), Cat(path, y), Cat(path, later), others);
  }

  lemma CatOfThree(path: Language, x: Language, y: Language, z: Language)
    ensures Cat(path, x + y + z) == Cat(path, x) + Cat(path, y) + Cat(path, z)
  {
    CatUnion(path, x + y, z);
    CatUnion(path, x, y);
  }

  lemma Shuffle(h: Language, x: Language, y: Language, l: Language, others: Language)
    ensures h + ((x + y + l) + others) == y + ((x + h + l) + others)
  {
  }

  lemma UnionCat(a: Language, b: Language, c: Language)
    ensures Cat(a + b, c) == Cat(a, c) + Cat(b, c)
  {
    CatUnion(a, b, c);
  }

  /** Closing the innermost group: `rest` is what follows the brace. */
  lemma TotalAfterClose(caseless: bool, stack: seq<Frame>, f: Frame, g: string, rest: string)
    requires stack != [] && Skip(g) == rest && Later(caseless, g, |stack|) == iset{}
    requires Meaning(caseless, g, |stack|) == Meaning(caseless, rest, |stack| - 1)
    ensures Total(caseless, AddItem(stack, Group(OrElse(f.alts, f.items))), rest) == Total(caseless, stack + [f], g)
  {
    var group := Group(OrElse(f.alts, f.items));
    TotalOfTop(caseless, stack, f, g);
    PathOfAdded(caseless, stack, group);
    BranchesOfAdded(caseless, stack, group, rest);
    CloseAlgebra(Path(caseless, stack), DenotesAlts(caseless, f.alts), DenotesItems(caseless, f.items),
                 Meaning(caseless, rest, |stack| - 1), Branches(caseless, stack, rest));
  }

  lemma CloseAlgebra(path: Language, alts: Language, items: Language, after: Language, others: Language)
    ensures Cat(Cat(path, alts + items), after) + others
         == Cat(Cat(path, items), after) + (Cat(path, Cat(alts, after) + iset{}) + others)
  {
    assert Cat(alts, after) + iset{} == Cat(alts, after);
    CatAssoc(path, alts + items, after);
    CatAssoc(path, items, after);
    UnionCat(alts, items, after);
    CatUnion(path, Cat(alts, after), Cat(items, after));
  }

  // ----- the theorem -----

  /** The stack after the compiler's next token or symbol, and the rest of the glob. */
  function NextStack(stack: seq<Frame>, g: string): (next: seq<Frame>)
    requires stack != [] && stack[0].alts.NoAlts? && (g != [] || |stack| > 1)
    ensures next != [] && next[0].alts.NoAlts?
  {
    var n := |stack| - 1;
    var f, lower := stack[n], stack[..n];
    if g == [] || (!IsSymbol(g, n) && g[0] == '}') then AddItem(lower, Group(OrElse(f.alts, f.items)))
    else if IsSymbol(g, n) then AddItem(stack, SymbolRe(g))
    else if g[0] == '{' then stack + [Frame(NoAlts, Nil)]
    else lower + [Frame(OrElse(f.alts, f.items), Nil)]
  }

  lemma DepthIsTheStack(stack: seq<Frame>, g: string)
    requires stack != [] && stack[0].alts.NoAlts? && (g != [] || |stack| > 1)
    ensures var n := |stack| - 1;
            NextDepth(g, n) == |NextStack(stack, g)| - 1
  {
  }

  lemma StackStep(stack: seq<Frame>, g: string, rest: seq<Token>)
    requires stack != [] && stack[0].alts.NoAlts? && (g != [] || |stack| > 1)
    ensures ParseFrom(stack, StepTokens(g, |stack| - 1) + rest) == ParseFrom(NextStack(stack, g), rest)
  {
    if g != [] && IsSymbol(g, |stack| - 1) {
      ParseSymbol(stack, g, rest);
    } else {
    }
  }

  lemma ParseStep(stack: seq<Frame>, g: string)
    requires stack != [] && stack[0].alts.NoAlts? && (g != [] || |stack| > 1)
    ensures ParseFrom(stack, Tokens(g, |stack| - 1))
         == ParseFrom(NextStack(stack, g), Tokens(Rest(g, |stack| - 1), |NextStack(stack, g)| - 1))
  {
    DepthIsTheStack(stack, g);
    StackStep(stack, g, Tokens(Rest(g, |stack| - 1), |NextStack(stack, g)| - 1));
  }

  lemma CloseFacts(caseless: bool, g: string, depth: nat)
    requires depth > 0 && (g == [] || g[0] == '}')
    ensures Skip(g) == Rest(g, depth) && Later(caseless, g, depth) == iset{}
    ensures Meaning(caseless, g, depth) == Meaning(caseless, Rest(g, depth), depth - 1)
  {
  }

  lemma TotalAtClose(caseless: bool, stack: seq<Frame>, g: string)
    requires |stack| > 1 && (g == [] || g[0] == '}')
    ensures var n := |stack| - 1;
            var f, lower := stack[n], stack[..n];
            Total(caseless, AddItem(lower, Group(OrElse(f.alts, f.items))), Rest(g, n)) == Total(caseless, stack, g)
  {
    var n := |stack| - 1;
    CloseFacts(caseless, g, n);
    TakeOneMore(stack, n);
    assert stack[..n + 1] == stack;
    TotalAfterClose(caseless, stack[..n], stack[n], g, Rest(g, n));
  }

  lemma TotalAtComma(caseless: bool, stack: seq<Frame>, g: string)
    requires |stack| > 1 && g != [] && g[0] == ','
    ensures var n := |stack| - 1;
            var f, lower := stack[n], stack[..n];
            Total(caseless, lower + [Frame(OrElse(f.alts, f.items), Nil)], g[1..]) == Total(caseless, stack, g)
  {
    var n := |stack| - 1;
    TakeOneMore(stack, n);
    assert stack[..n + 1] == stack;
    TotalAfterComma(caseless, stack[..n], stack[n], g);
  }

  lemma TotalStep(caseless: bool, stack: seq<Frame>, g: string)
    requires stack != [] && stack[0].alts.NoAlts? && (g != [] || |stack| > 1)
    ensures Total(caseless, NextStack(stack, g), Rest(g, |stack| - 1)) == Total(caseless, stack, g)
  {
    var n := |stack| - 1;
    if g == [] || (!IsSymbol(g, n) && g[0] == '}') {
      TotalAtClose(caseless, stack, g);
    } else if IsSymbol(g, n) {
      TotalAfterSymbol(caseless, stack, g);
    } else if g[0] == '{' {
      TotalAfterOpen(caseless, stack, g);
    } else {
      TotalAtComma(caseless, stack, g);
    }
  }

  /** From this stack, these tokens parse to a language. */
  ghost predicate ParsesTo(caseless: bool, stack: seq<Frame>, tokens: seq<Token>, language: Language)
    requires stack != []
  {
    var parsed := ParseFrom(stack, tokens);
    parsed.Some? && DenotesItems(caseless, parsed.value) == language
  }

  lemma ParseAtEnd(caseless: bool, f: Frame)
    requires f.alts.NoAlts?
    ensures ParsesTo(caseless, [f], [], Total(caseless, [f], []))
  {
    TotalOfBottom(caseless, f, []);
    EpsilonRight(DenotesItems(caseless, f.items));
  }

  lemma ParsesToStep(caseless: bool, stack: seq<Frame>, g: string)
    requires stack != [] && stack[0].alts.NoAlts? && (g != [] || |stack| > 1)
    requires var next, rest := NextStack(stack, g), Rest(g, |stack| - 1);
             ParsesTo(caseless, next, Tokens(rest, |next| - 1), Total(caseless, next, rest))
    ensures ParsesTo(caseless, stack, Tokens(g, |stack| - 1), Total(caseless, stack, g))
  {
    ParseStep(stack, g);
    TotalStep(caseless, stack, g);
  }

  /** From any stack, parsing the rest of the compiler's tokens succeeds with the meaning of stack and rest. */
  lemma {:induction false} ParseIsTotal(caseless: bool, stack: seq<Frame>, g: string)
    requires stack != [] && stack[0].alts.NoAlts?
    ensures ParsesTo(caseless, stack, Tokens(g, |stack| - 1), Total(caseless, stack, g))
    decreases |g|, |stack|
  {
    if g == [] && |stack| == 1 {
      ParseAtEnd(caseless, stack[0]);
      assert stack == [stack[0]];
    } else {
      ParseIsTotal(caseless, NextStack(stack, g), Rest(g, |stack| - 1));
      ParsesToStep(caseless, stack, g);
    }
  }

  lemma PathOfBottom(caseless: bool, f: Frame)
    ensures Path(caseless, [f]) == DenotesItems(caseless, f.items)
  {
    var stack := [f];
    assert stack[..0] == [];
    EpsilonLeft(DenotesItems(caseless, f.items));
  }

  lemma TotalOfBottom(caseless: bool, f: Frame, g: string)
    ensures Total(caseless, [f], g) == Cat(DenotesItems(caseless, f.items), Meaning(caseless, g, 0))
  {
    PathOfBottom(caseless, f);
    EmptyUnion(Cat(DenotesItems(caseless, f.items), Meaning(caseless, g, 0)));
  }

  lemma EmptyUnion(a: Language)
    ensures a + iset{} == a
  {
  }

  /**
   For every glob, balanced or not, the compiled text is a well-formed regular expression
   with no alternation outside its groups, and it matches exactly what the glob means.
   */
  lemma CompiledGlobMeansTheGlob(caseless: bool, glob: string)
    requires ClassFree(glob)
    ensures Parse(Emit(glob, 0)).Some?
    ensures DenotesItems(caseless, Parse(Emit(glob, 0)).value) == Meaning(caseless, glob, 0)
  {
    LexEmit(glob, 0);
    ParseAtStart(caseless, glob);
  }

  lemma ParseAtStart(caseless: bool, glob: string)
    ensures ParsesTo(caseless, BOTTOM, Tokens(glob, 0), Meaning(caseless, glob, 0))
  {
    ParseIsTotal(caseless, BOTTOM, glob);
    TotalAtStart(caseless, glob);
  }

  lemma TotalAtStart(caseless: bool, glob: string)
    ensures Total(caseless, BOTTOM, glob) == Meaning(caseless, glob, 0)
  {
    TotalOfBottom(caseless, Frame(NoAlts, Nil), glob);
    EpsilonLeft(Meaning(caseless, glob, 0));
  }

  /** On globs without an opening brace or a class, both compilers match the same strings, up to letter case. */
  lemma BothCompilersMeanTheSame(caseless: bool, glob: string)
    requires ClassFree(glob) && '{' !in glob
    ensures Parse(EmitPlain(glob)) == Parse(Emit(glob, 0))
    ensures Parse(EmitPlain(glob)).Some?
    ensures DenotesItems(caseless, Parse(EmitPlain(glob)).value) == Meaning(caseless, glob, 0)
  {
    CompilersAgree(glob);
    CompiledGlobMeansTheGlob(caseless, glob);
  }
}
