/**
  The pattern matcher `extractRequire`: it decides whether an expression is
  a `require(...)` call, or one identifier-property access on a call that is
  one, and extracts the module specifier and the accessed member.
 */
module Matcher {
  import opened Wrappers
  import opened JsAst

  /** What the matcher learns about a require-derived expression.
      `unsupported` marks a require call whose argument list is not a single
      string literal; `literal` is then empty. */
  datatype Details = Details(literal: string, member: Option<Name>, unsupported: bool)

  /** `require(...)`: a call whose callee is the bare identifier `require`. */
  predicate IsRequireCall(e: Expr)
  {
    e.Call? && e.callee == Ident("require")
  }

  /** `require('m')`: a require call whose one argument is the string literal `m`. */
  ghost predicate IsStaticRequire(e: Expr, m: string)
  {
    e == Call(Ident("require"), [Literal(StrVal(m))])
  }

  /** Some module specifier makes `e` a static require. */
  ghost predicate HasStaticSpecifier(e: Expr)
  {
    exists m :: IsStaticRequire(e, m)
  }

  /** `<require call>.p` (or `<require call>[p]`) whose property is an identifier. */
  predicate IsRequireMember(e: Expr)
  {
    e.Member? && IsRequireCall(e.obj) && e.prop.Ident?
  }

  /** `e` loads module `m` with a supported shape: `require('m')` or `require('m').p`. */
  ghost predicate LoadsModule(e: Expr, m: string)
  {
    IsStaticRequire(e, m) || (IsRequireMember(e) && IsStaticRequire(e.obj, m))
  }

  /** The recursive matcher. Every shape other than a require call or one
      identifier member access on a require call yields `None`; in
      particular nested chains `require('m').a.b`, members of other calls
      `f().a` and non-identifier properties `require('m')['a']`. */
  function ExtractRequire(e: Expr): (r: Option<Details>)
    ensures r.None? <==> !IsRequireCall(e) && !IsRequireMember(e)
    ensures forall m {:trigger IsStaticRequire(e, m)} ::
      IsStaticRequire(e, m) ==> r == Some(Details(m, None, false))
    ensures IsRequireCall(e) && !HasStaticSpecifier(e) ==> r == Some(Details("", None, true))
    ensures IsRequireMember(e) ==>
      forall m {:trigger IsStaticRequire(e.obj, m)} ::
        IsStaticRequire(e.obj, m) ==> r == Some(Details(m, Some(e.prop.name), false))
    ensures IsRequireMember(e) && !HasStaticSpecifier(e.obj) ==>
      r == Some(Details("", Some(e.prop.name), true))
  {
    match e
    case Call(callee, args) =>
      if callee.Ident? && callee.name == "require" then
        if |args| != 1 || !args[0].Literal? || !args[0].value.StrVal? then
          Some(Details("", None, true))
        else
          assert IsStaticRequire(e, args[0].value.s);
          Some(Details(args[0].value.s, None, false))
      else
        None
    case Member(obj, prop, _) =>
      if !obj.Call? then
        None  // nested members are not supported
      else
        var inner := ExtractRequire(obj);
        if inner.Some? && prop.Ident? then Some(inner.value.(member := Some(prop.name))) else None
    case _ => None
  }

  /** The canonical expression for supported details: `require('m')`, or
      `require('m').p` (`require('m')[p]` when `computed`). */
  function RequireExpr(d: Details, computed: bool): Expr
  {
    var call := Call(Ident("require"), [Literal(StrVal(d.literal))]);
    if d.member.Some? then Member(call, Ident(d.member.value), computed) else call
  }

  /** Round trip: the matcher recovers every supported result from its canonical expression. */
  lemma ExtractRequireExpr(d: Details, computed: bool)
    requires !d.unsupported
    ensures ExtractRequire(RequireExpr(d, computed)) == Some(d)
  {
  }

  /** Round trip, other direction: every supported match is a canonical expression,
      so the matcher accepts nothing beyond `require('m')` and `require('m').p`. */
  lemma SupportedMatchIsCanonical(e: Expr)
    requires ExtractRequire(e).Some? && !ExtractRequire(e).value.unsupported
    ensures e == RequireExpr(ExtractRequire(e).value, e.Member? && e.computed)
  {
    if e.Member? {
      assert IsRequireMember(e);
      assert HasStaticSpecifier(e.obj);
    } else {
      assert HasStaticSpecifier(e);
    }
  }

  /** A supported match is exactly an expression that loads a module, and
      the module it loads is the extracted literal. */
  lemma SupportedMatchLoadsModule(e: Expr)
    ensures forall m {:trigger LoadsModule(e, m)} :: LoadsModule(e, m) <==>
      ExtractRequire(e).Some? && !ExtractRequire(e).value.unsupported && ExtractRequire(e).value.literal == m
  {
    if ExtractRequire(e).Some? && !ExtractRequire(e).value.unsupported {
      SupportedMatchIsCanonical(e);
    }
  }

  /** Member chains deeper than one level are never recognised. */
  lemma NestedChainRejected(inner: Expr, p: Expr, q: Expr, c1: bool, c2: bool)
    ensures ExtractRequire(Member(Member(inner, p, c1), q, c2)).None?
  {
  }

  /** The `computed` flag of a member access is not consulted: `require('m')[k]`
      with an identifier `k` is read as `require('m').k`. */
  lemma ComputedMemberIgnored(obj: Expr, prop: Expr)
    ensures ExtractRequire(Member(obj, prop, true)) == ExtractRequire(Member(obj, prop, false))
  {
  }
}
