/**
  The tree walk behind `root.find(T).replaceWith(callback)`: a statement
  rule is applied to every statement at every depth, and nested statement
  lists are walked inside the statement that holds them. A list is at top
  level only when its parent is the Program.
 */
module Traversal {
  import opened JsAst

  /** Applies a one-for-one rule to every statement at every depth. */
  function MapStmts(rule: Stmt -> Stmt, ss: seq<Stmt>): seq<Stmt>
    decreases ss
  {
    if |ss| == 0 then [] else MapStmts(rule, ss[..|ss| - 1]) + [MapStmt(rule, ss[|ss| - 1])]
  }

  function MapStmt(rule: Stmt -> Stmt, s: Stmt): Stmt
    decreases s
  {
    match s
    case Block(body) => Block(MapStmts(rule, body))
    case _ => rule(s)
  }

  /** Applies a rule that replaces one statement by a sequence of statements,
      told whether the statement's parent is the Program. */
  function FlatMapStmts(rule: (Stmt, bool) -> seq<Stmt>, ss: seq<Stmt>, atTop: bool): seq<Stmt>
    decreases ss
  {
    if |ss| == 0 then [] else FlatMapStmts(rule, ss[..|ss| - 1], atTop) + FlatMapStmt(rule, ss[|ss| - 1], atTop)
  }

  function FlatMapStmt(rule: (Stmt, bool) -> seq<Stmt>, s: Stmt, atTop: bool): seq<Stmt>
    decreases s
  {
    match s
    case Block(body) => [Block(FlatMapStmts(rule, body, false))]
    case _ => rule(s, atTop)
  }

  // ---------------------------------------------------------------------------
  // Hypotheses on rules

  /** Every statement the rule emits is left as it is by a second application. */
  ghost predicate FlatIdempotent(rule: (Stmt, bool) -> seq<Stmt>)
  {
    forall s: Stmt, atTop: bool, x: Stmt :: !s.Block? && x in rule(s, atTop) ==> !x.Block? && rule(x, atTop) == [x]
  }

  ghost predicate MapIdempotent(rule: Stmt -> Stmt)
  {
    forall s: Stmt :: !s.Block? ==> !rule(s).Block? && rule(rule(s)) == rule(s)
  }

  /** Applying `f` after `g` on one statement equals applying `g` after `f`. */
  ghost predicate Commute(f: Stmt -> Stmt, g: (Stmt, bool) -> seq<Stmt>)
  {
    forall s: Stmt {:trigger f(s)} :: !s.Block? ==>
      && !f(s).Block?
      && MapStmts(f, g(s, true)) == g(f(s), true)
      && MapStmts(f, g(s, false)) == g(f(s), false)
  }

  // ---------------------------------------------------------------------------
  // Structural lemmas

  lemma FlatMapSnoc(rule: (Stmt, bool) -> seq<Stmt>, ss: seq<Stmt>, atTop: bool)
    requires |ss| > 0
    ensures FlatMapStmts(rule, ss, atTop) == FlatMapStmts(rule, ss[..|ss| - 1], atTop) + FlatMapStmt(rule, ss[|ss| - 1], atTop)
  {
  }

  lemma MapSingle(rule: Stmt -> Stmt, s: Stmt)
    ensures MapStmts(rule, [s]) == [MapStmt(rule, s)]
  {
    assert [s][..0] == [];
  }

  lemma FlatMapSingle(rule: (Stmt, bool) -> seq<Stmt>, s: Stmt, atTop: bool)
    ensures FlatMapStmts(rule, [s], atTop) == FlatMapStmt(rule, s, atTop)
  {
    assert [s][..0] == [];
  }

  lemma SnocSplit(a: seq<Stmt>, b: seq<Stmt>)
    requires |b| > 0
    ensures (a + b)[..|a + b| - 1] == a + b[..|b| - 1]
    ensures (a + b)[|a + b| - 1] == b[|b| - 1]
  {
  }

  /** The walks distribute over concatenation of statement lists. */
  lemma {:induction false} MapConcat(rule: Stmt -> Stmt, a: seq<Stmt>, b: seq<Stmt>)
    ensures MapStmts(rule, a + b) == MapStmts(rule, a) + MapStmts(rule, b)
    decreases |b|
  {
    if |b| == 0 {
      assert a + b == a;
    } else {
      SnocSplit(a, b);
      MapConcat(rule, a, b[..|b| - 1]);
    }
  }

  lemma {:induction false} FlatMapConcat(rule: (Stmt, bool) -> seq<Stmt>, a: seq<Stmt>, b: seq<Stmt>, atTop: bool)
    ensures FlatMapStmts(rule, a + b, atTop) == FlatMapStmts(rule, a, atTop) + FlatMapStmts(rule, b, atTop)
    decreases |b|
  {
    if |b| == 0 {
      assert a + b == a;
    } else {
      SnocSplit(a, b);
      FlatMapConcat(rule, a, b[..|b| - 1], atTop);
    }
  }

  lemma {:induction false} MapOfFixed(rule: Stmt -> Stmt, ss: seq<Stmt>)
    requires forall x :: x in ss ==> !x.Block? && rule(x) == x
    ensures MapStmts(rule, ss) == ss
  {
    if |ss| > 0 {
      MapOfFixed(rule, ss[..|ss| - 1]);
      assert ss[|ss| - 1] in ss;
      assert ss[..|ss| - 1] + [ss[|ss| - 1]] == ss;
    }
  }

  lemma {:induction false} FlatMapOfFixed(rule: (Stmt, bool) -> seq<Stmt>, ss: seq<Stmt>, atTop: bool)
    requires forall x :: x in ss ==> !x.Block? && rule(x, atTop) == [x]
    ensures FlatMapStmts(rule, ss, atTop) == ss
  {
    if |ss| > 0 {
      FlatMapOfFixed(rule, ss[..|ss| - 1], atTop);
      assert ss[|ss| - 1] in ss;
      assert ss[..|ss| - 1] + [ss[|ss| - 1]] == ss;
    }
  }

  // ---------------------------------------------------------------------------
  // Idempotence and commutation lift from one statement to whole trees

  lemma {:induction false} FlatMapIdempotent(rule: (Stmt, bool) -> seq<Stmt>, ss: seq<Stmt>, atTop: bool)
    requires FlatIdempotent(rule)
    ensures FlatMapStmts(rule, FlatMapStmts(rule, ss, atTop), atTop) == FlatMapStmts(rule, ss, atTop)
    decreases ss
  {
    if |ss| > 0 {
      var front, last := ss[..|ss| - 1], ss[|ss| - 1];
      FlatMapConcat(rule, FlatMapStmts(rule, front, atTop), FlatMapStmt(rule, last, atTop), atTop);
      FlatMapIdempotent(rule, front, atTop);
      FlatMapStmtIdempotent(rule, last, atTop);
    }
  }

  lemma {:induction false} FlatMapStmtIdempotent(rule: (Stmt, bool) -> seq<Stmt>, s: Stmt, atTop: bool)
    requires FlatIdempotent(rule)
    ensures FlatMapStmts(rule, FlatMapStmt(rule, s, atTop), atTop) == FlatMapStmt(rule, s, atTop)
    decreases s
  {
    match s {
      case Block(body) =>
        FlatMapIdempotent(rule, body, false);
        FlatMapSingle(rule, Block(FlatMapStmts(rule, body, false)), atTop);
      case _ =>
        FlatMapOfFixed(rule, rule(s, atTop), atTop);
    }
  }

  lemma {:induction false} MapIdempotentStmts(rule: Stmt -> Stmt, ss: seq<Stmt>)
    requires MapIdempotent(rule)
    ensures MapStmts(rule, MapStmts(rule, ss)) == MapStmts(rule, ss)
    decreases ss
  {
    if |ss| > 0 {
      var front, last := ss[..|ss| - 1], ss[|ss| - 1];
      MapConcat(rule, MapStmts(rule, front), [MapStmt(rule, last)]);
      MapIdempotentStmts(rule, front);
      MapIdempotentStmt(rule, last);
      MapSingle(rule, MapStmt(rule, last));
    }
  }

  lemma {:induction false} MapIdempotentStmt(rule: Stmt -> Stmt, s: Stmt)
    requires MapIdempotent(rule)
    ensures MapStmt(rule, MapStmt(rule, s)) == MapStmt(rule, s)
    decreases s
  {
    match s {
      case Block(body) => MapIdempotentStmts(rule, body);
      case _ =>
    }
  }

  lemma {:induction false} MapFlatMapCommute(f: Stmt -> Stmt, g: (Stmt, bool) -> seq<Stmt>, ss: seq<Stmt>, atTop: bool)
    requires Commute(f, g)
    ensures MapStmts(f, FlatMapStmts(g, ss, atTop)) == FlatMapStmts(g, MapStmts(f, ss), atTop)
    decreases ss
  {
    if |ss| > 0 {
      var front, last := ss[..|ss| - 1], ss[|ss| - 1];
      MapConcat(f, FlatMapStmts(g, front, atTop), FlatMapStmt(g, last, atTop));
      FlatMapConcat(g, MapStmts(f, front), [MapStmt(f, last)], atTop);
      MapFlatMapCommute(f, g, front, atTop);
      MapFlatMapCommuteStmt(f, g, last, atTop);
    }
  }

  lemma {:induction false} MapFlatMapCommuteStmt(f: Stmt -> Stmt, g: (Stmt, bool) -> seq<Stmt>, s: Stmt, atTop: bool)
    requires Commute(f, g)
    ensures MapStmts(f, FlatMapStmt(g, s, atTop)) == FlatMapStmts(g, [MapStmt(f, s)], atTop)
    decreases s
  {
    FlatMapSingle(g, MapStmt(f, s), atTop);
    match s {
      case Block(body) =>
        MapFlatMapCommute(f, g, body, false);
        MapSingle(f, Block(FlatMapStmts(g, body, false)));
      case _ =>
    }
  }
}
