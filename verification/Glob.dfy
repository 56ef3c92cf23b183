/**
 The two glob compilers. A glob has a direct meaning, read left to right with no syntax
 tree; compiling it always gives a well-formed regular expression with that meaning.
 Character classes are outside the model: a glob here is one in which no `[` opens a class.
 */
module Glob {
  import opened Prelude
  import opened Regex

  /** Index of the first `]` at or after `from`, or -1. */
  function FindClose(glob: string, from: nat): (r: int)
    requires from <= |glob|
    ensures r == -1 || from <= r < |glob|
    decreases |glob| - from
  {
    if from == |glob| then -1 else if glob[from] == ']' then from else FindClose(glob, from + 1)
  }

  /** Whether the `[` at the front opens a class, by the compiler's own test. */
  predicate OpensClass(g: string)
    requires g != []
  {
    g[0] == '[' && FindClose(g, 1) > 1
  }

  ghost predicate ClassFree(g: string) {
    forall i :: 0 <= i < |g| ==> !OpensClass(g[i..])
  }

  // ----- the direct meaning -----

  /** What follows the brace that closes the present one; nothing if it is never closed. */
  function Skip(g: string): (r: string)
    ensures |r| <= |g|
    decreases |g|
  {
    if g == [] then []
    else if g[0] == '{' then Skip(Skip(g[1..]))
    else if g[0] == '}' then g[1..]
    else Skip(g[1..])
  }

  /** Nothing, or newline-free text up to and including a slash: whole directories. */
  ghost predicate DirPrefix(s: string) {
    s == [] || (s[|s| - 1] == '/' && s in Each(NotNewline))
  }

  ghost function DirPrefixes(): Language {
    iset s: string | DirPrefix(s)
  }

  /** One glob symbol other than a brace or comma, and how many characters it takes. */
  ghost function SymbolMeaning(caseless: bool, g: string): Language
    requires g != []
  {
    if "**/" <= g then DirPrefixes()
    else if "**" <= g then Each(NotNewline)
    else if g[0] == '*' then Each(NoSlash)
    else if g[0] == '?' then Single(NoSlash)
    else Letter(caseless, g[0])
  }

  function SymbolLength(g: string): (n: nat)
    requires g != []
    ensures 1 <= n <= |g|
  {
    if "**/" <= g then 3 else if "**" <= g then 2 else 1
  }

  /** Braces and commas are syntax only inside the right number of open braces. */
  predicate IsSymbol(g: string, depth: nat)
    requires g != []
  {
    g[0] != '{' && (depth == 0 || (g[0] != '}' && g[0] != ','))
  }

  /**
   What the rest `g` of a glob matches, read inside `depth` open braces. An opening brace
   offers its alternatives; a comma ends one and continues after the brace.
   */
  ghost function Meaning(caseless: bool, g: string, depth: nat): Language
    decreases |g|, 1
  {
    if g == [] then Epsilon()
    else if IsSymbol(g, depth) then
      Cat(SymbolMeaning(caseless, g), Meaning(caseless, g[SymbolLength(g)..], depth))
    else if g[0] == '{' then Meaning(caseless, g[1..], depth + 1) + Later(caseless, g[1..], depth + 1)
    else if g[0] == '}' then Meaning(caseless, g[1..], depth - 1)
    else Meaning(caseless, Skip(g[1..]), depth - 1)
  }

  /** The alternatives of the present brace that start after the one being read. */
  ghost function Later(caseless: bool, g: string, depth: nat): Language
    requires depth > 0
    decreases |g|, 0
  {
    if g == [] || g[0] == '}' then iset{}
    else if g[0] == '{' then Later(caseless, Skip(g[1..]), depth)
    else if g[0] == ',' then Meaning(caseless, g[1..], depth) + Later(caseless, g[1..], depth)
    else Later(caseless, g[1..], depth)
  }

  // ----- the compilers -----

  function Escape(c: char): string {
    if c in META then ['\\', c] else [c]
  }

  function Closers(depth: nat): string {
    if depth == 0 then [] else ")" + Closers(depth - 1)
  }

  /** What the compiler writes for a symbol. */
  function EmitSymbol(g: string): string
    requires g != []
  {
    if "**/" <= g then "(?:.*/)?"
    else if "**" <= g then ".*"
    else if g[0] == '*' then "[^/]*"
    else if g[0] == '?' then "[^/]"
    else Escape(g[0])
  }

  /** What the deny-list compiler writes for the rest `g` of a glob, `depth` groups being open. */
  function Emit(g: string, depth: nat): string
    decreases |g|
  {
    if g == [] then Closers(depth)
    else if IsSymbol(g, depth) then EmitSymbol(g) + Emit(g[SymbolLength(g)..], depth)
    else if g[0] == '{' then "(?:" + Emit(g[1..], depth + 1)
    else if g[0] == '}' then ")" + Emit(g[1..], depth - 1)
    else "|" + Emit(g[1..], depth)
  }

  /** `globToRegExp` of the deny list, without the anchors. */
  method Compile(glob: string) returns (out: string)
    requires ClassFree(glob)
    ensures out == Emit(glob, 0)
  {
    out := "";
    var depth: nat, i := 0, 0;
    while i < |glob|
      invariant 0 <= i <= |glob|
      invariant out + Emit(glob[i..], depth) == Emit(glob, 0)
    {
      ghost var g := glob[i..];
      assert !OpensClass(g);
      ghost var before := out;
      var ch := glob[i];
      if ch == '*' {
        if i + 1 < |glob| && glob[i + 1] == '*' {
          i := i + 1;
          if i + 1 < |glob| && glob[i + 1] == '/' {
            i := i + 1;
            assert "**/" <= g;
            out := out + "(?:.*/)?";
          } else {
            assert "**" <= g && !("**/" <= g);
            out := out + ".*";
          }
        } else {
          assert !("**" <= g);
          out := out + "[^/]*";
        }
        AppendStep(before, EmitSymbol(g), Emit(g[SymbolLength(g)..], depth));
      } else if ch == '?' {
        out := out + "[^/]";
        AppendStep(before, "[^/]", Emit(g[1..], depth));
      } else if ch == '{' {
        depth := depth + 1;
        out := out + "(?:";
        AppendStep(before, "(?:", Emit(g[1..], depth));
      } else if ch == '}' && depth > 0 {
        depth := depth - 1;
        out := out + ")";
        AppendStep(before, ")", Emit(g[1..], depth));
      } else if ch == ',' && depth > 0 {
        out := out + "|";
        AppendStep(before, "|", Emit(g[1..], depth));
      } else {
        out := out + Escape(ch);
        AppendStep(before, Escape(ch), Emit(g[1..], depth));
      }
      i := i + 1;
      assert glob[i..] == g[|g| - (|glob| - i)..];
    }
    assert glob[i..] == [];
    while depth > 0
      invariant out + Closers(depth) == Emit(glob, 0)
    {
      AppendStep(out, ")", Closers(depth - 1));
      out := out + ")";
      depth := depth - 1;
    }
  }

  lemma AppendStep(before: string, piece: string, rest: string)
    ensures (before + piece) + rest == before + (piece + rest)
  {
  }

  const CONFIG_META := ".+^${}()|[]\\"

  /** What the config validator's compiler writes: braces and commas are always literal. */
  function EmitPlain(g: string): string
    decreases |g|
  {
    if g == [] then []
    else if g[0] == '*' || g[0] == '?' then EmitSymbol(g) + EmitPlain(g[SymbolLength(g)..])
    else (if g[0] in CONFIG_META then ['\\', g[0]] else [g[0]]) + EmitPlain(g[1..])
  }

  /** `globToRegExp` of the config validator, without the anchors. */
  method CompilePlain(glob: string) returns (re: string)
    ensures re == EmitPlain(glob)
  {
    re := "";
    var i := 0;
    while i < |glob|
      invariant 0 <= i <= |glob|
      invariant re + EmitPlain(glob[i..]) == EmitPlain(glob)
    {
      ghost var g, before := glob[i..], re;
      var c := glob[i];
      if c == '*' {
        if i + 1 < |glob| && glob[i + 1] == '*' {
          var slash := i + 2 < |glob| && glob[i + 2] == '/';
          assert "**" <= g && (slash <==> "**/" <= g);
          re := re + (if slash then "(?:.*/)?" else ".*");
          i := i + if slash then 2 else 1;
        } else {
          assert !("**" <= g);
          re := re + "[^/]*";
        }
        AppendStep(before, EmitSymbol(g), EmitPlain(g[SymbolLength(g)..]));
      } else if c == '?' {
        re := re + "[^/]";
        AppendStep(before, "[^/]", EmitPlain(g[1..]));
      } else {
        re := re + if c in CONFIG_META then ['\\', c] else [c];
        AppendStep(before, if c in CONFIG_META then ['\\', c] else [c], EmitPlain(g[1..]));
      }
      i := i + 1;
      assert glob[i..] == g[|g| - (|glob| - i)..];
    }
    assert glob[i..] == [];
  }

  /** On globs without an opening brace or a class the two compilers write the same expression. */
  lemma {:induction false} CompilersAgree(g: string)
    requires '{' !in g
    ensures Emit(g, 0) == EmitPlain(g)
    decreases |g|
  {
    if g != [] {
      CompilersAgree(g[SymbolLength(g)..]);
    }
  }
}
