/**
 The store's one write transaction. Nested writes join the outer one, so only the outermost
 write is atomic: what an inner write did before failing stays if the failure is caught.
 */
module StoreWrite {
  import opened Prelude

  type Rows = map<string, int>

  /** What the function given to `write` does: rows written, errors thrown and caught, further writes. */
  datatype Program = Nothing | Then(first: Action, rest: Program)

  datatype Action = Put(key: string, row: int) | Throw | Write(body: Program) | Catch(body: Program)

  /** The rows after a run and whether it ended by throwing. */
  datatype Effect = Effect(rows: Rows, threw: bool)

  /** What a program does to the rows, taking `Write` as no more than running its body. */
  function Flat(p: Program, rows: Rows): Effect {
    match p
    case Nothing => Effect(rows, false)
    case Then(first, rest) =>
      var e := FlatAction(first, rows);
      if e.threw then e else Flat(rest, e.rows)
  }

  function FlatAction(a: Action, rows: Rows): Effect {
    match a
    case Put(key, row) => Effect(rows[key := row], false)
    case Throw => Effect(rows, true)
    case Write(body) => Flat(body, rows)
    case Catch(body) => Effect(Flat(body, rows).rows, false)
  }

  class Store {
    const writable: bool
    var rows: Rows
    var depth: nat
    /** What a rollback would restore; present exactly while a transaction is open. */
    var saved: Option<Rows>

    constructor (writable: bool)
      ensures this.writable == writable && rows == map[] && depth == 0 && saved.None?
    {
      this.writable := writable;
      rows, depth, saved := map[], 0, None;
    }

    ghost predicate Valid()
      reads this
    {
      (depth > 0 <==> saved.Some?) && (depth > 0 ==> writable)
    }

    method Run(p: Program) returns (threw: bool)
      requires Valid() && depth > 0
      modifies this
      ensures Valid() && depth == old(depth) && saved == old(saved)
      ensures Effect(rows, threw) == Flat(p, old(rows))
      decreases p, 0
    {
      match p
      case Nothing => threw := false;
      case Then(first, rest) =>
        threw := Do(first);
        if !threw {
          threw := Run(rest);
        }
    }

    method Do(a: Action) returns (threw: bool)
      requires Valid() && depth > 0
      modifies this
      ensures Valid() && depth == old(depth) && saved == old(saved)
      ensures Effect(rows, threw) == FlatAction(a, old(rows))
      decreases a, 0
    {
      match a
      case Put(key, row) =>
        rows := rows[key := row];
        threw := false;
      case Throw => threw := true;
      case Write(body) => threw := WriteTransaction(body);
      case Catch(body) =>
        var caught := Run(body);
        threw := false;
    }

    /** `Store.write`: atomic when outermost, transparent when nested, refused on a read-only store. */
    method WriteTransaction(body: Program) returns (threw: bool)
      requires Valid()
      modifies this
      ensures Valid() && depth == old(depth) && saved == old(saved)
      ensures threw <==> !writable || Flat(body, old(rows)).threw
      ensures rows == if !writable || (old(depth) == 0 && threw) then old(rows) else Flat(body, old(rows)).rows
      decreases body, 1
    {
      if !writable {
        return true;
      }
      if depth > 0 {
        depth := depth + 1;
        threw := Run(body);
        depth := depth - 1;
        return;
      }
      saved := Some(rows);
      depth := 1;
      threw := Run(body);
      if threw {
        rows := saved.value;
      }
      saved := None;
      depth := 0;
    }
  }

  /** The program with every nested write replaced by its body in place. */
  function Joined(p: Program): Program {
    match p
    case Nothing => Nothing
    case Then(first, rest) =>
      match first
      case Put(_, _) => Then(first, Joined(rest))
      case Throw => Then(first, Joined(rest))
      case Write(body) => Append(Joined(body), Joined(rest))
      case Catch(body) => Then(Catch(Joined(body)), Joined(rest))
  }

  function Append(p: Program, q: Program): Program {
    match p
    case Nothing => q
    case Then(first, rest) => Then(first, Append(rest, q))
  }

  lemma {:induction false} FlatAppend(p: Program, q: Program, rows: Rows)
    ensures Flat(Append(p, q), rows) == var e := Flat(p, rows); if e.threw then e else Flat(q, e.rows)
  {
    match p
    case Nothing =>
    case Then(first, rest) =>
      FlatAppend(rest, q, FlatAction(first, rows).rows);
  }

  /** Inside a transaction, nested writes can be dissolved without any difference. */
  lemma {:induction false} NestedWritesDissolve(p: Program, rows: Rows)
    ensures Flat(Joined(p), rows) == Flat(p, rows)
  {
    match p
    case Nothing =>
    case Then(first, rest) =>
      NestedWritesDissolve(rest, FlatAction(first, rows).rows);
      match first
      case Put(_, _) =>
      case Throw =>
      case Write(body) =>
        NestedWritesDissolve(body, rows);
        FlatAppend(Joined(body), Joined(rest), rows);
      case Catch(body) =>
        NestedWritesDissolve(body, rows);
  }

  /** A nested write whose failure is caught is not undone: this commits the row it wrote. */
  lemma CaughtFailureIsNotUndone()
    ensures var inner := Then(Put("a", 1), Then(Throw, Nothing));
            var outer := Then(Catch(Then(Write(inner), Nothing)), Nothing);
            Flat(inner, map[]).threw && Flat(outer, map[]) == Effect(map["a" := 1], false)
  {
  }

  // ----- when a nested write is atomic, read off the program -----

  /** Does the program end by throwing? A throw inside a `Catch` does not get out. */
  predicate Throws(p: Program) {
    match p
    case Nothing => false
    case Then(first, rest) => ActionThrows(first) || Throws(rest)
  }

  predicate ActionThrows(a: Action) {
    match a
    case Put(_, _) => false
    case Throw => true
    case Write(body) => Throws(body)
    case Catch(_) => false
  }

  /** Does the program reach a `Put`, wherever nested, before it ends? */
  predicate Puts(p: Program) {
    match p
    case Nothing => false
    case Then(first, rest) => ActionPuts(first) || (!ActionThrows(first) && Puts(rest))
  }

  predicate ActionPuts(a: Action) {
    match a
    case Put(_, _) => true
    case Throw => false
    case Write(body) => Puts(body)
    case Catch(body) => Puts(body)
  }

  /** Whatever the rows: the program throws when its text does, and leaves them alone unless it reaches a `Put`. */
  lemma {:induction false} ReadOffTheProgram(p: Program, rows: Rows)
    ensures Flat(p, rows).threw <==> Throws(p)
    ensures !Puts(p) ==> Flat(p, rows).rows == rows
    ensures rows != map[] || Puts(p) ==> Flat(p, rows).rows != map[]
  {
    match p
    case Nothing =>
    case Then(first, rest) =>
      ReadOffTheAction(first, rows);
      ReadOffTheProgram(rest, FlatAction(first, rows).rows);
  }

  lemma {:induction false} ReadOffTheAction(a: Action, rows: Rows)
    ensures FlatAction(a, rows).threw <==> ActionThrows(a)
    ensures !ActionPuts(a) ==> FlatAction(a, rows).rows == rows
    ensures rows != map[] || ActionPuts(a) ==> FlatAction(a, rows).rows != map[]
  {
    match a
    case Put(key, row) => assert key in FlatAction(a, rows).rows;
    case Throw =>
    case Write(body) => ReadOffTheProgram(body, rows);
    case Catch(body) => ReadOffTheProgram(body, rows);
  }

  /** What a write gives when it is the outermost one; `WriteTransaction` says so of a writable store. */
  function Alone(body: Program, rows: Rows): Effect {
    if Flat(body, rows).threw then Effect(rows, true) else Flat(body, rows)
  }

  ghost predicate NestedIsAtomic(body: Program) {
    forall rows :: FlatAction(Write(body), rows) == Alone(body, rows)
  }

  /**
   A nested write behaves as a transaction of its own would, on whatever rows, exactly when
   its body never throws or reaches no `Put` before it throws.
   */
  lemma NestedIsAtomicExactly(body: Program)
    ensures NestedIsAtomic(body) <==> !Throws(body) || !Puts(body)
  {
    forall rows ensures FlatAction(Write(body), rows) == Alone(body, rows) <==>
                        !Throws(body) || Flat(body, rows).rows == rows {
      ReadOffTheProgram(body, rows);
    }
    if !Puts(body) {
      forall rows ensures FlatAction(Write(body), rows) == Alone(body, rows) {
        ReadOffTheProgram(body, rows);
      }
    } else if Throws(body) {
      ReadOffTheProgram(body, map[]);
      assert FlatAction(Write(body), map[]) != Alone(body, map[]);
    }
  }
}
