/**
  Properties of the declaration and expression-statement rules and of the
  passes that apply them: splitting, atomic bail, top-level gating,
  preservation of the bound names, and idempotence.
 */
module RewriteProperties {
  import opened Wrappers
  import opened JsAst
  import opened Matcher
  import opened Rewriter
  import opened Traversal

  /** The declarators of a declaration, in source order. */
  function Declarators(es: seq<DeclEntry>): (ds: seq<DeclEntry>)
    ensures forall j :: 0 <= j < |ds| ==> ds[j].VarDeclarator?
  {
    if |es| == 0 then []
    else Declarators(es[..|es| - 1]) + (if es[|es| - 1].VarDeclarator? then [es[|es| - 1]] else [])
  }

  /** A binding target the declaration rule can convert. */
  predicate ConvertibleTarget(id: Pattern)
  {
    id.IdPat? || (id.ObjPat? && forall j :: 0 <= j < |id.props| ==> SimpleProp(id.props[j]))
  }

  /** A declarator that forces a bail: its initialiser matches, and the
      require is unsupported or the target cannot be converted. */
  predicate BailingDeclarator(e: DeclEntry)
  {
    Matches(e) && (MatchInit(e.init).value.unsupported || !ConvertibleTarget(e.id))
  }

  lemma ClassifyBail(e: DeclEntry)
    ensures Classify(e).Bail? <==> BailingDeclarator(e)
  {
  }

  /** The bail flag is raised exactly by an unsupported require or an
      unsupported target; non-matching declarators and non-declarator
      entries never raise it. */
  lemma BailsIffBailingDeclarator(es: seq<DeclEntry>)
    ensures Bails(es) <==> exists i :: 0 <= i < |es| && BailingDeclarator(es[i])
  {
    if Bails(es) {
      var i :| 0 <= i < |es| && Classify(es[i]).Bail?;
      ClassifyBail(es[i]);
    }
    if exists i :: 0 <= i < |es| && BailingDeclarator(es[i]) {
      var i :| 0 <= i < |es| && BailingDeclarator(es[i]);
      ClassifyBail(es[i]);
    }
  }

  /** Splitting: when nothing bails, the buffer holds exactly one statement
      per declarator, in declarator order: an import for a declarator whose
      initialiser matches (of the module it loads), and for any other
      declarator a declaration of the original kind holding that declarator
      alone. Non-declarator entries are dropped. */
  lemma {:induction false} SplitPreservesOrder(kind: DeclKind, es: seq<DeclEntry>)
    requires !Bails(es)
    ensures |Emitted(kind, es)| == |Declarators(es)|
    ensures forall j :: 0 <= j < |Declarators(es)| ==>
      (Emitted(kind, es)[j].Import? <==> Matches(Declarators(es)[j]))
    ensures forall j :: 0 <= j < |Declarators(es)| && !Matches(Declarators(es)[j]) ==>
      Emitted(kind, es)[j] == VarDecl(kind, [Declarators(es)[j]], [])
    ensures forall j :: 0 <= j < |Declarators(es)| && Matches(Declarators(es)[j]) ==>
      LoadsModule(Declarators(es)[j].init.value, Emitted(kind, es)[j].decl.source)
    ensures forall j :: 0 <= j < |Declarators(es)| && Matches(Declarators(es)[j]) ==>
      Some(Emitted(kind, es)[j].decl.specs)
        == TargetSpecifiers(Declarators(es)[j].id, MatchInit(Declarators(es)[j].init).value.member)
  {
    if |es| > 0 {
      var front := es[..|es| - 1];
      var last := es[|es| - 1];
      BailsSnoc(es);
      SplitPreservesOrder(kind, front);
      var a, b := Emitted(kind, front), EmitOne(kind, last);
      var da := Declarators(front);
      assert Emitted(kind, es) == a + b;
      assert Declarators(es) == da + (if last.VarDeclarator? then [last] else []);
      forall j | 0 <= j < |da|
        ensures Emitted(kind, es)[j] == a[j] && Declarators(es)[j] == da[j]
      {
      }
      if last.VarDeclarator? {
        assert Declarators(es)[|da|] == last;
        assert Emitted(kind, es)[|a|] == b[0];
      }
    }
  }

  /** Converting a declaration that does not bail binds the same names, in
      the same order, as the original declaration. */
  lemma {:induction false} ConversionPreservesBindings(kind: DeclKind, es: seq<DeclEntry>)
    requires !Bails(es)
    ensures StmtsBindings(Emitted(kind, es)) == EntriesBindings(es)
  {
    if |es| > 0 {
      var front := es[..|es| - 1];
      var last := es[|es| - 1];
      BailsSnoc(es);
      ConversionPreservesBindings(kind, front);
      StmtsBindingsConcat(Emitted(kind, front), EmitOne(kind, last));
      EmitOneBindings(kind, last);
      assert Emitted(kind, es) == Emitted(kind, front) + EmitOne(kind, last);
      assert EntriesBindings(es) == EntriesBindings(front) + EntryBindings(last);
    }
  }

  /** What one entry pushes binds what the entry bound. */
  lemma EmitOneBindings(kind: DeclKind, e: DeclEntry)
    requires !Classify(e).Bail?
    ensures StmtsBindings(EmitOne(kind, e)) == EntryBindings(e)
  {
    match Classify(e) {
      case Skipped =>
      case SplitOut =>
        assert [e][..0] == [];
        assert EntriesBindings([e]) == EntryBindings(e);
        assert StmtsBindings([VarDecl(kind, [e], [])]) == EntriesBindings([e]);
      case Converted(imp) =>
        assert StmtsBindings([Import(imp)]) == SpecsBindings(imp.specs);
    }
  }

  lemma {:induction false} StmtsBindingsConcat(a: seq<Stmt>, b: seq<Stmt>)
    ensures StmtsBindings(a + b) == StmtsBindings(a) + StmtsBindings(b)
    decreases |b|
  {
    if |b| > 0 {
      var front := b[..|b| - 1];
      assert (a + b)[..|a + b| - 1] == a + front;
      StmtsBindingsConcat(a, front);
    } else {
      assert a + b == a;
    }
  }

  /** Every outcome of the declaration rule binds the names the original
      statement bound: a conversion never drops or duplicates a binding. */
  lemma DeclRulePreservesBindings(s: Stmt, atTop: bool)
    ensures StmtsBindings(DeclRule(s, atTop)) == StmtBindings(s)
  {
    if s.VarDecl? && HasRequire(s.entries) && !Bails(s.entries) && atTop {
      ConversionPreservesBindings(s.kind, s.entries);
    }
  }

  /** A declaration none of whose declarators matches is never touched. */
  lemma NoMatchUntouched(s: Stmt, atTop: bool)
    requires s.VarDecl?
    requires forall i :: 0 <= i < |s.entries| ==> !Matches(s.entries[i])
    ensures DeclRule(s, atTop) == [s]
  {
  }

  /** Atomic bail: when a matching declaration holds a bailing declarator, or
      is not at top level, the result is the original declaration alone,
      with only its comments replaced by the manual-conversion marker;
      nothing built for its other declarators survives. */
  lemma BailIsAtomic(s: Stmt, atTop: bool)
    requires s.VarDecl? && HasRequire(s.entries)
    requires !atTop || exists i :: 0 <= i < |s.entries| && BailingDeclarator(s.entries[i])
    ensures DeclRule(s, atTop) == [VarDecl(s.kind, s.entries, [ManualConversion])]
  {
    BailsIffBailingDeclarator(s.entries);
  }

  /** Top-level gating: below the Program no declaration becomes an import;
      the declaration pass keeps the number and the kind of every nested statement. */
  lemma {:induction false} NestedDeclarationsStay(ss: seq<Stmt>)
    ensures |DeclPass(ss, false)| == |ss|
    ensures forall i :: 0 <= i < |ss| ==>
      (DeclPass(ss, false)[i].Import? <==> ss[i].Import?) &&
      (DeclPass(ss, false)[i].VarDecl? <==> ss[i].VarDecl?) &&
      (ss[i].VarDecl? ==> DeclPass(ss, false)[i].entries == ss[i].entries)
  {
    if |ss| > 0 {
      var front := ss[..|ss| - 1];
      NestedDeclarationsStay(front);
      var a := DeclPass(front, false);
      var b := FlatMapStmt(DeclRule, ss[|ss| - 1], false);
      FlatMapSnoc(DeclRule, ss, false);
      assert |b| == 1;
      assert DeclPass(ss, false) == a + b;
      forall i | 0 <= i < |front|
        ensures DeclPass(ss, false)[i] == a[i] && ss[i] == front[i]
      {
      }
    }
  }
}
