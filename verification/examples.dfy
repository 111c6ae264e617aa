/**
  The transformer on concrete programs, one small input per behaviour.
 */
module RewriteExamples {
  import opened Wrappers
  import opened JsAst
  import opened Matcher
  import opened Rewriter
  import opened Traversal

  /** `require('m')` */
  function Req(m: string): Expr
  {
    Call(Ident("require"), [Literal(StrVal(m))])
  }

  function Declarator(id: Pattern, init: Expr): DeclEntry
  {
    VarDeclarator(id, Some(init))
  }

  // ---------------------------------------------------------------------------
  // The matcher on the inputs used below

  lemma StaticRequireMatch(m: string)
    ensures ExtractRequire(Req(m)) == Some(Details(m, None, false))
  {
    assert IsStaticRequire(Req(m), m);
  }

  lemma MemberRequireMatch(m: string, p: Name)
    ensures ExtractRequire(Member(Req(m), Ident(p), false)) == Some(Details(m, Some(p), false))
  {
    StaticRequireMatch(m);
  }

  lemma DynamicRequireMatch(x: Name)
    ensures ExtractRequire(Call(Ident("require"), [Ident(x)])) == Some(Details("", None, true))
  {
  }

  // ---------------------------------------------------------------------------
  // A one-statement program goes through each pass once

  lemma TransformSingle(s: Stmt)
    ensures Transform([s]) == FlatMapStmt(DeclRule, MapStmt(ExprRule, s), true)
  {
    MapSingle(ExprRule, s);
    FlatMapSingle(DeclRule, MapStmt(ExprRule, s), true);
  }

  lemma TransformDeclaration(s: Stmt)
    requires s.VarDecl?
    ensures Transform([s]) == DeclRule(s, true)
  {
    TransformSingle(s);
  }

  lemma TransformBlock(s: Stmt)
    requires !s.Block?
    ensures Transform([Block([s])]) == [Block(DeclRule(ExprRule(s), false))]
  {
    TransformSingle(Block([s]));
    MapSingle(ExprRule, s);
    assert MapStmt(ExprRule, Block([s])) == Block([ExprRule(s)]);
    FlatMapSingle(DeclRule, ExprRule(s), false);
  }

  lemma EmittedSingle(kind: DeclKind, e0: DeclEntry)
    ensures Emitted(kind, [e0]) == EmitOne(kind, e0)
  {
    assert [e0][..0] == [];
  }

  lemma EmittedPair(kind: DeclKind, e0: DeclEntry, e1: DeclEntry)
    ensures Emitted(kind, [e0, e1]) == EmitOne(kind, e0) + EmitOne(kind, e1)
  {
    assert [e0, e1][..1] == [e0];
    EmittedSingle(kind, e0);
  }

  // ---------------------------------------------------------------------------
  // Examples

  /** `const a = require('m'), b = 5;` becomes `import a from 'm'; const b = 5;`. */
  lemma SplittingExample()
    ensures Transform([VarDecl(Const, [Declarator(IdPat("a"), Req("m")), Declarator(IdPat("b"), Literal(OtherVal))], [])])
         == [Import(ImportDecl([DefaultSpec("a")], "m")), VarDecl(Const, [Declarator(IdPat("b"), Literal(OtherVal))], [])]
  {
    var a, b := Declarator(IdPat("a"), Req("m")), Declarator(IdPat("b"), Literal(OtherVal));
    var s := VarDecl(Const, [a, b], []);
    TransformDeclaration(s);
    StaticRequireMatch("m");
    assert Matches(s.entries[0]);
    assert Classify(a) == Converted(ImportDecl([DefaultSpec("a")], "m"));
    assert Classify(b) == SplitOut;
    assert !Bails(s.entries);
    EmittedPair(Const, a, b);
  }

  lemma OrderSpecs()
    ensures PatternSpecs([Prop(KeyIdent("a"), ValueIdent("a"), false), Prop(KeyIdent("b"), ValueIdent("c"), false)])
         == Some([NamedSpec("a", Some("a")), NamedSpec("b", Some("c"))])
  {
    var ps := [Prop(KeyIdent("a"), ValueIdent("a"), false), Prop(KeyIdent("b"), ValueIdent("c"), false)];
    assert ps[..|ps| - 1] == [ps[0]];
    assert [ps[0]][..0] == [];
    assert PatternSpecs([ps[0]]) == Some([NamedSpec("a", Some("a"))]);
    assert [NamedSpec("a", Some("a"))] + [NamedSpec("b", Some("c"))]
        == [NamedSpec("a", Some("a")), NamedSpec("b", Some("c"))];
  }

  /** `const {a, b: c} = require('m');` becomes `import { a, b as c } from 'm';`. */
  lemma OrderExample()
    ensures Transform([VarDecl(Const, [Declarator(ObjPat([Prop(KeyIdent("a"), ValueIdent("a"), false),
                                                         Prop(KeyIdent("b"), ValueIdent("c"), false)]), Req("m"))], [])])
         == [Import(ImportDecl([NamedSpec("a", Some("a")), NamedSpec("b", Some("c"))], "m"))]
  {
    var ps := [Prop(KeyIdent("a"), ValueIdent("a"), false), Prop(KeyIdent("b"), ValueIdent("c"), false)];
    var d := Declarator(ObjPat(ps), Req("m"));
    var s := VarDecl(Const, [d], []);
    TransformDeclaration(s);
    StaticRequireMatch("m");
    OrderSpecs();
    assert Matches(s.entries[0]);
    assert Classify(d) == Converted(ImportDecl([NamedSpec("a", Some("a")), NamedSpec("b", Some("c"))], "m"));
    assert !Bails(s.entries);
    EmittedSingle(Const, d);
  }

  /** `const x = require('m');` is converted at top level and only flagged inside a function body. */
  lemma ScopeGatingExample()
    ensures Transform([VarDecl(Const, [Declarator(IdPat("x"), Req("m"))], [])])
         == [Import(ImportDecl([DefaultSpec("x")], "m"))]
    ensures Transform([Block([VarDecl(Const, [Declarator(IdPat("x"), Req("m"))], [])])])
         == [Block([VarDecl(Const, [Declarator(IdPat("x"), Req("m"))], [ManualConversion])])]
  {
    var d := Declarator(IdPat("x"), Req("m"));
    var s := VarDecl(Const, [d], []);
    TransformDeclaration(s);
    TransformBlock(s);
    StaticRequireMatch("m");
    assert Matches(s.entries[0]);
    assert Classify(d) == Converted(ImportDecl([DefaultSpec("x")], "m"));
    assert !Bails(s.entries);
    EmittedSingle(Const, d);
  }

  /** `const y = require('m').z;` becomes `import { z as y } from 'm';`. */
  lemma MemberExample()
    ensures Transform([VarDecl(Const, [Declarator(IdPat("y"), Member(Req("m"), Ident("z"), false))], [])])
         == [Import(ImportDecl([NamedSpec("z", Some("y"))], "m"))]
  {
    var d := Declarator(IdPat("y"), Member(Req("m"), Ident("z"), false));
    var s := VarDecl(Const, [d], []);
    TransformDeclaration(s);
    MemberRequireMatch("m", "z");
    assert Matches(s.entries[0]);
    assert Classify(d) == Converted(ImportDecl([NamedSpec("z", Some("y"))], "m"));
    assert !Bails(s.entries);
    EmittedSingle(Const, d);
  }

  /** `const y = require('m').z.w;` is not a require at all and stays as it is. */
  lemma NestedMemberExample()
    ensures var s := VarDecl(Const, [Declarator(IdPat("y"), Member(Member(Req("m"), Ident("z"), false), Ident("w"), false))], []);
      Transform([s]) == [s]
  {
    var s := VarDecl(Const, [Declarator(IdPat("y"), Member(Member(Req("m"), Ident("z"), false), Ident("w"), false))], []);
    TransformDeclaration(s);
    assert !Matches(s.entries[0]);
    assert !HasRequire(s.entries);
  }

  /** `const x = require(pathVar);` is flagged for manual conversion. */
  lemma ComputedSpecifierExample()
    ensures var s := VarDecl(Const, [Declarator(IdPat("x"), Call(Ident("require"), [Ident("pathVar")]))], []);
      Transform([s]) == [MarkManual(s)]
  {
    var s := VarDecl(Const, [Declarator(IdPat("x"), Call(Ident("require"), [Ident("pathVar")]))], []);
    TransformDeclaration(s);
    DynamicRequireMatch("pathVar");
    assert Matches(s.entries[0]);
    assert Classify(s.entries[0]) == Bail;
  }

  /** A bare `require('m');` becomes `import 'm';`, also inside a block. */
  lemma BareStatementExample()
    ensures Transform([ExprStmt(Req("m"))]) == [Import(ImportDecl([], "m"))]
    ensures Transform([Block([ExprStmt(Req("m"))])]) == [Block([Import(ImportDecl([], "m"))])]
  {
    var s := ExprStmt(Req("m"));
    StaticRequireMatch("m");
    assert ExprRule(s) == Import(ImportDecl([], "m"));
    TransformSingle(s);
    TransformBlock(s);
  }

  /** A bare `require(pathVar);` stays as it is. */
  lemma BareComputedExample()
    ensures Transform([ExprStmt(Call(Ident("require"), [Ident("pathVar")]))])
         == [ExprStmt(Call(Ident("require"), [Ident("pathVar")]))]
  {
    var s := ExprStmt(Call(Ident("require"), [Ident("pathVar")]));
    DynamicRequireMatch("pathVar");
    assert ExprRule(s) == s;
    TransformSingle(s);
  }
}
