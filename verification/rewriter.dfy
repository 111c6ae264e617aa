/**
  The two statement rewrite rules of the transformer and the passes that
  apply them over a program: first every expression statement (at any
  depth), then every variable declaration (converted only at top level).
 */
module Rewriter {
  import opened Wrappers
  import opened JsAst
  import opened Matcher
  import opened Traversal

  // ---------------------------------------------------------------------------
  // Bare require statements

  /** The replacement of the expression statement `e;`: a side-effect-only
      import when `e` loads a module with a supported shape (an accessed
      member is dropped), the statement itself otherwise. */
  function RewriteExprStmt(e: Expr): (s: Stmt)
    ensures forall m {:trigger LoadsModule(e, m)} :: LoadsModule(e, m) ==> s == Import(ImportDecl([], m))
    ensures (forall m {:trigger LoadsModule(e, m)} :: !LoadsModule(e, m)) ==> s == ExprStmt(e)
  {
    SupportedMatchLoadsModule(e);
    var r := ExtractRequire(e);
    if r.Some? && !r.value.unsupported then
      assert LoadsModule(e, r.value.literal);
      Import(ImportDecl([], r.value.literal))
    else
      ExprStmt(e)
  }

  // ---------------------------------------------------------------------------
  // Import specifiers for a declarator's binding target

  /** A property the rewrite can turn into a specifier: a `Property` with an
      identifier key whose value is absent or an identifier. */
  predicate SimpleProp(p: PatElem)
  {
    p.Prop? && p.key.KeyIdent? && !p.value.ValueOther?
  }

  /** One named specifier per property, in source order; `None` as soon as
      one property is not simple. */
  function PatternSpecs(ps: seq<PatElem>): (r: Option<seq<ImportSpec>>)
    ensures r.Some? <==> forall i :: 0 <= i < |ps| ==> SimpleProp(ps[i])
    ensures r.Some? ==> |r.value| == |ps|
    ensures r.Some? ==> forall i :: 0 <= i < |ps| ==>
      SpecImported(r.value[i]) == Some(ps[i].key.name) && [SpecLocal(r.value[i])] == ElemBindings(ps[i])
    ensures r.Some? ==> SpecsBindings(r.value) == ElemsBindings(ps)
  {
    if |ps| == 0 then Some([])
    else
      var front := PatternSpecs(ps[..|ps| - 1]);
      var p := ps[|ps| - 1];
      if front.None? then None
      else if !p.Prop? || !p.key.KeyIdent? || p.value.ValueOther? then None
      else
        var sp := NamedSpec(p.key.name, if p.value.ValueIdent? then Some(p.value.name) else None);
        assert (front.value + [sp])[..|ps| - 1] == front.value;
        Some(front.value + [sp])
  }

  /** The specifiers a declarator with target `id` contributes when its
      initialiser matched with accessed member `member`: for an identifier, a
      default import or, with a member, `member as id`; for an object pattern,
      the pattern's specifiers, the member being ignored; otherwise none. */
  function TargetSpecifiers(id: Pattern, member: Option<Name>): (r: Option<seq<ImportSpec>>)
    ensures id.IdPat? ==>
      r.Some? && |r.value| == 1 && SpecLocal(r.value[0]) == id.name && SpecImported(r.value[0]) == member
    ensures id.ObjPat? ==> r == PatternSpecs(id.props)
    ensures id.OtherPat? ==> r.None?
    ensures r.Some? ==> SpecsBindings(r.value) == PatternBindings(id)
  {
    match id
    case IdPat(x) =>
      if member.Some? then Some([NamedSpec(member.value, Some(x))]) else Some([DefaultSpec(x)])
    case ObjPat(ps) => PatternSpecs(ps)
    case OtherPat => None
  }

  // ---------------------------------------------------------------------------
  // Variable declarations

  /** How one entry of a declaration is treated. */
  datatype Outcome =
    | Skipped                  // not a declarator: contributes nothing
    | SplitOut                 // initialiser does not match: kept as its own declaration
    | Converted(imp: ImportDecl)
    | Bail                     // unsupported require or binding target

  /** The matcher applied to an initialiser; a declarator without one never matches. */
  function MatchInit(init: Option<Expr>): (r: Option<Details>)
    ensures r.Some? <==> init.Some? && (IsRequireCall(init.value) || IsRequireMember(init.value))
    ensures init.Some? ==> forall m {:trigger LoadsModule(init.value, m)} :: LoadsModule(init.value, m) ==>
      r.Some? && !r.value.unsupported && r.value.literal == m
  {
    if init.None? then None
    else
      SupportedMatchLoadsModule(init.value);
      ExtractRequire(init.value)
  }

  /** The entry is a declarator whose initialiser the matcher recognises. */
  predicate Matches(e: DeclEntry)
  {
    e.VarDeclarator? && MatchInit(e.init).Some?
  }

  function Classify(e: DeclEntry): (o: Outcome)
    ensures o.Skipped? <==> e.NonDeclarator?
    ensures o.SplitOut? <==> e.VarDeclarator? && !Matches(e)
    ensures o.Converted? ==> e.init.Some? && LoadsModule(e.init.value, o.imp.source)
    ensures o.Converted? ==> SpecsBindings(o.imp.specs) == EntryBindings(e)
    ensures o.Converted? ==> Some(o.imp.specs) == TargetSpecifiers(e.id, MatchInit(e.init).value.member)
  {
    match e
    case NonDeclarator => Skipped
    case VarDeclarator(id, init) =>
      var r := MatchInit(init);
      if r.None? then SplitOut
      else if r.value.unsupported then Bail
      else
        var specs := TargetSpecifiers(id, r.value.member);
        if specs.None? then Bail
        else
          SupportedMatchLoadsModule(init.value);
          Converted(ImportDecl(specs.value, r.value.literal))
  }

  /** What one entry pushes onto the buffer of replacement statements. */
  function EmitOne(kind: DeclKind, e: DeclEntry): seq<Stmt>
  {
    match Classify(e)
    case SplitOut => [VarDecl(kind, [e], [])]
    case Converted(imp) => [Import(imp)]
    case _ => []
  }

  /** The buffer after visiting every entry, in order. */
  function Emitted(kind: DeclKind, es: seq<DeclEntry>): seq<Stmt>
  {
    if |es| == 0 then [] else Emitted(kind, es[..|es| - 1]) + EmitOne(kind, es[|es| - 1])
  }

  /** Some declarator's initialiser matches: the declaration is selected for rewriting. */
  predicate HasRequire(es: seq<DeclEntry>)
  {
    exists i :: 0 <= i < |es| && Matches(es[i])
  }

  /** Some entry forces the whole declaration to bail. */
  predicate Bails(es: seq<DeclEntry>)
  {
    exists i :: 0 <= i < |es| && Classify(es[i]).Bail?
  }

  /** A declaration flagged for manual conversion: its comments are replaced
      by the single manual-conversion marker. */
  function MarkManual(s: Stmt): Stmt
    requires s.VarDecl?
  {
    s.(comments := [ManualConversion])
  }

  /** The declaration rule for one statement whose parent is the Program
      exactly when `atTop` holds. */
  function DeclRule(s: Stmt, atTop: bool): seq<Stmt>
  {
    if !s.VarDecl? || !HasRequire(s.entries) then [s]
    else if Bails(s.entries) || !atTop then [MarkManual(s)]
    else Emitted(s.kind, s.entries)
  }

  /** The declaration rule as the transformer runs it: one pass over the
      entries that fills a buffer and raises a bail flag, then a single
      commit-or-discard decision. */
  method RewriteDeclaration(s: Stmt, atTop: bool) returns (out: seq<Stmt>)
    requires s.VarDecl?
    ensures out == DeclRule(s, atTop)
  {
    var es := s.entries;
    var found := false;
    var i := 0;
    while i < |es| && !found
      invariant 0 <= i <= |es|
      invariant found <==> HasRequire(es[..i])
    {
      PrefixStep(es, i);
      found := Matches(es[i]);
      i := i + 1;
    }
    PrefixWhole(es, i);
    if !found {
      return [s];
    }
    var returnValues: seq<Stmt> := [];
    var bail := false;
    i := 0;
    while i < |es|
      invariant 0 <= i <= |es|
      invariant returnValues == Emitted(s.kind, es[..i])
      invariant bail <==> Bails(es[..i])
    {
      PrefixStep(es, i);
      match Classify(es[i]) {
        case Skipped =>
        case SplitOut =>
          returnValues := returnValues + [VarDecl(s.kind, [es[i]], [])];
        case Converted(imp) =>
          returnValues := returnValues + [Import(imp)];
        case Bail =>
          bail := true;
      }
      i := i + 1;
    }
    PrefixWhole(es, i);
    if !atTop {
      bail := true;  // lazy requires stay where they are
    }
    if bail {
      return [MarkManual(s)];
    }
    return returnValues;
  }

  /** Extending a prefix of the entries by one entry. */
  lemma PrefixStep(es: seq<DeclEntry>, i: nat)
    requires i < |es|
    ensures HasRequire(es[..i + 1]) <==> HasRequire(es[..i]) || Matches(es[i])
    ensures Bails(es[..i + 1]) <==> Bails(es[..i]) || Classify(es[i]).Bail?
    ensures forall kind :: Emitted(kind, es[..i + 1]) == Emitted(kind, es[..i]) + EmitOne(kind, es[i])
  {
    var p := es[..i + 1];
    assert p[..i] == es[..i];
    HasRequireSnoc(p);
    BailsSnoc(p);
  }

  lemma HasRequireSnoc(es: seq<DeclEntry>)
    requires |es| > 0
    ensures HasRequire(es) <==> HasRequire(es[..|es| - 1]) || Matches(es[|es| - 1])
  {
    var n := |es| - 1;
    if HasRequire(es) && !Matches(es[n]) {
      var k :| 0 <= k < n + 1 && Matches(es[k]);
      assert es[..n][k] == es[k];
    }
    if HasRequire(es[..n]) {
      var k :| 0 <= k < n && Matches(es[..n][k]);
      assert es[k] == es[..n][k];
    }
  }

  lemma BailsSnoc(es: seq<DeclEntry>)
    requires |es| > 0
    ensures Bails(es) <==> Bails(es[..|es| - 1]) || Classify(es[|es| - 1]).Bail?
  {
    var n := |es| - 1;
    if Bails(es) && !Classify(es[n]).Bail? {
      var k :| 0 <= k < n + 1 && Classify(es[k]).Bail?;
      assert es[..n][k] == es[k];
    }
    if Bails(es[..n]) {
      var k :| 0 <= k < n && Classify(es[..n][k]).Bail?;
      assert es[k] == es[..n][k];
    }
  }

  /** After the search loop: either it stopped on a match, or it saw every entry. */
  lemma PrefixWhole(es: seq<DeclEntry>, i: nat)
    requires i <= |es|
    ensures i == |es| ==> es[..i] == es
    ensures HasRequire(es[..i]) ==> HasRequire(es)
  {
    if HasRequire(es[..i]) {
      var k :| 0 <= k < i && Matches(es[..i][k]);
      assert es[k] == es[..i][k];
    }
  }

  // ---------------------------------------------------------------------------
  // Passes over a program

  /** The expression-statement rule for one statement. */
  function ExprRule(s: Stmt): Stmt
  {
    if s.ExprStmt? then RewriteExprStmt(s.expr) else s
  }

  /** The expression-statement pass: applies at every depth, since the
      search for expression statements has no parent check. */
  function ExprPass(ss: seq<Stmt>): seq<Stmt>
  {
    MapStmts(ExprRule, ss)
  }

  /** The declaration pass over a statement list whose parent is the Program
      exactly when `atTop` holds; nested lists are never at top level. */
  function DeclPass(ss: seq<Stmt>, atTop: bool): seq<Stmt>
  {
    FlatMapStmts(DeclRule, ss, atTop)
  }

  /** The whole transformer on a program's top-level statements. */
  function Transform(program: seq<Stmt>): seq<Stmt>
  {
    DeclPass(ExprPass(program), true)
  }
}
