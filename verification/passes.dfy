/**
  Properties of the two passes over a program: each rule is idempotent on
  one statement and the rules commute, so by the walk's lifting lemmas the
  transformer applied to its own output changes nothing.
 */
module PassProperties {
  import opened JsAst
  import opened Matcher
  import opened Rewriter
  import opened Traversal

  /** A statement the passes leave alone: neither a bare statement nor a nested list. */
  predicate Inert(s: Stmt)
  {
    !s.ExprStmt? && !s.Block?
  }

  /** The buffer holds only imports and single-declarator declarations whose
      initialiser does not match. */
  lemma {:induction false} EmittedShape(kind: DeclKind, es: seq<DeclEntry>)
    ensures forall t :: t in Emitted(kind, es) ==>
      t.Import? || (t.VarDecl? && |t.entries| == 1 && !Matches(t.entries[0]))
  {
    if |es| > 0 {
      EmittedShape(kind, es[..|es| - 1]);
      assert Emitted(kind, es) == Emitted(kind, es[..|es| - 1]) + EmitOne(kind, es[|es| - 1]);
    }
  }

  /** Every statement the declaration rule emits is a fixed point of the
      rule, and inert unless it is the bare statement it was given. */
  lemma DeclRuleOutputFixed(s: Stmt, atTop: bool)
    requires !s.Block?
    ensures forall t :: t in DeclRule(s, atTop) ==> (s.ExprStmt? || Inert(t)) && !t.Block? && DeclRule(t, atTop) == [t]
  {
    if s.VarDecl? && HasRequire(s.entries) && !Bails(s.entries) && atTop {
      EmittedShape(s.kind, s.entries);
      forall t | t in DeclRule(s, atTop)
        ensures DeclRule(t, atTop) == [t]
      {
        if t.VarDecl? {
          assert !HasRequire(t.entries);
        }
      }
    }
  }

  lemma DeclRuleFlatIdempotent()
    ensures FlatIdempotent(DeclRule)
  {
    forall s: Stmt, atTop: bool | !s.Block?
      ensures forall x :: x in DeclRule(s, atTop) ==> !x.Block? && DeclRule(x, atTop) == [x]
    {
      DeclRuleOutputFixed(s, atTop);
    }
  }

  /** The expression-statement rule is idempotent: an import is inert, and a
      statement it keeps is kept again. */
  lemma ExprRuleIdempotent(s: Stmt)
    ensures ExprRule(ExprRule(s)) == ExprRule(s)
    ensures !s.Block? ==> !ExprRule(s).Block?
  {
    if s.ExprStmt? && exists m :: LoadsModule(s.expr, m) {
      var m :| LoadsModule(s.expr, m);
      assert ExprRule(s) == Import(ImportDecl([], m));
    }
  }

  lemma ExprRuleMapIdempotent()
    ensures MapIdempotent(ExprRule)
  {
    forall s: Stmt | !s.Block?
      ensures !ExprRule(s).Block? && ExprRule(ExprRule(s)) == ExprRule(s)
    {
      ExprRuleIdempotent(s);
    }
  }

  /** On one statement, the two rules commute: the declaration rule leaves
      bare statements and imports alone, and the expression rule leaves
      everything the declaration rule emits for a declaration alone. */
  lemma RulesCommuteAt(s: Stmt, atTop: bool)
    requires !s.Block?
    ensures !ExprRule(s).Block? && ExprPass(DeclRule(s, atTop)) == DeclRule(ExprRule(s), atTop)
  {
    ExprRuleIdempotent(s);
    if s.ExprStmt? {
      MapSingle(ExprRule, s);
    } else {
      DeclRuleOutputFixed(s, atTop);
      MapOfFixed(ExprRule, DeclRule(s, atTop));
    }
  }

  lemma RulesCommute()
    ensures Commute(ExprRule, DeclRule)
  {
    forall s: Stmt | !s.Block?
      ensures && !ExprRule(s).Block?
              && MapStmts(ExprRule, DeclRule(s, true)) == DeclRule(ExprRule(s), true)
              && MapStmts(ExprRule, DeclRule(s, false)) == DeclRule(ExprRule(s), false)
    {
      RulesCommuteAt(s, true);
      RulesCommuteAt(s, false);
    }
  }

  /** The expression-statement pass is idempotent at every depth. */
  lemma ExprPassIdempotent(ss: seq<Stmt>)
    ensures ExprPass(ExprPass(ss)) == ExprPass(ss)
  {
    ExprRuleMapIdempotent();
    MapIdempotentStmts(ExprRule, ss);
  }

  /** The declaration pass is idempotent. */
  lemma DeclPassIdempotent(ss: seq<Stmt>, atTop: bool)
    ensures DeclPass(DeclPass(ss, atTop), atTop) == DeclPass(ss, atTop)
  {
    DeclRuleFlatIdempotent();
    FlatMapIdempotent(DeclRule, ss, atTop);
  }

  /** The two passes commute. */
  lemma PassesCommute(ss: seq<Stmt>, atTop: bool)
    ensures ExprPass(DeclPass(ss, atTop)) == DeclPass(ExprPass(ss), atTop)
  {
    RulesCommute();
    MapFlatMapCommute(ExprRule, DeclRule, ss, atTop);
  }

  /** Idempotence: the transformer applied to its own output changes nothing. */
  lemma TransformIdempotent(program: seq<Stmt>)
    ensures Transform(Transform(program)) == Transform(program)
  {
    var e := ExprPass(program);
    PassesCommute(e, true);
    ExprPassIdempotent(program);
    DeclPassIdempotent(e, true);
  }
}
