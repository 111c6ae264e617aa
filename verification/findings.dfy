/**
  A declarator without an initialiser (`let x;`) as the transformer treats
  it: the matcher is handed `d.init`, which is null there, and reads its
  `type`, which throws. The rest of the model uses the corrected matcher
  `Rewriter.MatchInit`, for which a missing initialiser never matches.
 */
module UninitialisedDeclarators {
  import opened Wrappers
  import opened JsAst
  import opened Matcher
  import opened Rewriter

  /** Reading a property of null. */
  datatype Crash = TypeError

  predicate Uninitialised(e: DeclEntry)
  {
    e.VarDeclarator? && e.init.None?
  }

  /** `extractRequire(d.init)` as written. */
  function ExtractInitAsWritten(init: Option<Expr>): Result<Option<Details>, Crash>
  {
    if init.None? then Failure(TypeError) else Success(ExtractRequire(init.value))
  }

  /** The selection test as written: `declarations.find(...)`, which stops at
      the first matching declarator. */
  function FindAsWritten(es: seq<DeclEntry>): Result<bool, Crash>
  {
    if |es| == 0 then Success(false)
    else match es[0]
      case NonDeclarator => FindAsWritten(es[1..])
      case VarDeclarator(_, init) =>
        var r := ExtractInitAsWritten(init);
        if r.Failure? then Failure(r.error)
        else if r.value.Some? then Success(true)
        else FindAsWritten(es[1..])
  }

  /** The declaration rule as written: the selection test, then the pass
      over every entry, which reaches every declarator. */
  function DeclRuleAsWritten(s: Stmt, atTop: bool): Result<seq<Stmt>, Crash>
  {
    if !s.VarDecl? then Success([s])
    else
      var found := FindAsWritten(s.entries);
      if found.Failure? then Failure(found.error)
      else if !found.value then Success([s])
      else if exists i :: 0 <= i < |s.entries| && Uninitialised(s.entries[i]) then Failure(TypeError)
      else Success(DeclRule(s, atTop))
  }

  /** The selection test throws only on a missing initialiser, and otherwise
      agrees with the corrected selection. */
  lemma {:induction false} FindAsWrittenSpec(es: seq<DeclEntry>)
    ensures FindAsWritten(es).Failure? ==> exists i :: 0 <= i < |es| && Uninitialised(es[i])
    ensures FindAsWritten(es).Success? && FindAsWritten(es).value ==> HasRequire(es)
    ensures FindAsWritten(es).Success? && !FindAsWritten(es).value ==>
      !HasRequire(es) && forall i :: 0 <= i < |es| ==> !Uninitialised(es[i])
  {
    if |es| > 0 {
      var rest := es[1..];
      FindAsWrittenSpec(rest);
      forall i | 0 <= i < |rest|
        ensures rest[i] == es[i + 1]
      {
      }
      if FindAsWritten(es).Success? && FindAsWritten(es).value && !Matches(es[0]) {
        var k :| 0 <= k < |rest| && Matches(rest[k]);
        assert Matches(es[k + 1]);
      }
      if FindAsWritten(es).Failure? && !Uninitialised(es[0]) {
        var k :| 0 <= k < |rest| && Uninitialised(rest[k]);
        assert Uninitialised(es[k + 1]);
      }
      if FindAsWritten(es).Success? && !FindAsWritten(es).value {
        forall i | 0 <= i < |es|
          ensures !Uninitialised(es[i]) && !Matches(es[i])
        {
          if i > 0 {
            assert es[i] == rest[i - 1];
          }
        }
      }
    }
  }

  /** The transformer throws on a declaration exactly when one of its
      declarators has no initialiser, wherever that declarator stands; on
      every other declaration it agrees with the corrected rule. */
  lemma AsWrittenThrowsIffUninitialised(s: Stmt, atTop: bool)
    requires s.VarDecl?
    ensures DeclRuleAsWritten(s, atTop).Failure? <==> exists i :: 0 <= i < |s.entries| && Uninitialised(s.entries[i])
    ensures DeclRuleAsWritten(s, atTop).Success? ==> DeclRuleAsWritten(s, atTop).value == DeclRule(s, atTop)
  {
    FindAsWrittenSpec(s.entries);
  }

  /** `let x;` makes the transformer throw, while the corrected rule leaves
      the declaration alone. */
  lemma LetWithoutInitialiser()
    ensures DeclRuleAsWritten(VarDecl(Let, [VarDeclarator(IdPat("x"), None)], []), true).Failure?
    ensures DeclRule(VarDecl(Let, [VarDeclarator(IdPat("x"), None)], []), true)
         == [VarDecl(Let, [VarDeclarator(IdPat("x"), None)], [])]
  {
    var es := [VarDeclarator(IdPat("x"), None)];
    assert Uninitialised(es[0]);
    assert !HasRequire(es);
  }

  /** Corrected rule: a declarator without initialiser never matches, so in a
      converted declaration it is split out unchanged, and on its own it
      never selects a declaration. */
  lemma UninitialisedDeclaratorSplitOut(kind: DeclKind, id: Pattern)
    ensures Classify(VarDeclarator(id, None)) == SplitOut
    ensures EmitOne(kind, VarDeclarator(id, None)) == [VarDecl(kind, [VarDeclarator(id, None)], [])]
    ensures !HasRequire([VarDeclarator(id, None)])
  {
  }
}
