/**
  The slice of the ESTree syntax tree that the require-to-import rewrite
  inspects. Node kinds the rewrite never looks inside are collapsed into a
  single `Other...` alternative.
 */
module JsAst {
  import opened Wrappers

  /** An identifier name. JavaScript identifiers are never empty, so a
      present name is always truthy. */
  type Name = s: string | |s| > 0 witness "_"

  /** The value of a `Literal` node. */
  datatype LitValue =
    | StrVal(s: string)
    | OtherVal            // number, boolean, null, regular expression, bigint

  datatype Expr =
    | Call(callee: Expr, args: seq<Expr>)              // CallExpression
    | Member(obj: Expr, prop: Expr, computed: bool)    // MemberExpression: `o.p` or `o[p]`
    | Ident(name: Name)                                // Identifier
    | Literal(value: LitValue)                         // Literal
    | OtherExpr                                        // any other expression, spread argument, template...

  /** The key of a property in an object pattern. */
  datatype PropKey = KeyIdent(name: Name) | KeyOther

  /** The value side of a property in an object pattern. */
  datatype PropValue =
    | NoValue               // the node carries no value
    | ValueIdent(name: Name)
    | ValueOther            // a nested pattern, a default (`a = 1`), ...

  /** An element of an object pattern: a `Property` or anything else (a rest element). */
  datatype PatElem =
    | Prop(key: PropKey, value: PropValue, computed: bool)
    | RestElem

  /** The binding target `id` of a variable declarator. */
  datatype Pattern =
    | IdPat(name: Name)                  // Identifier
    | ObjPat(props: seq<PatElem>)        // ObjectPattern
    | OtherPat                           // ArrayPattern and every other target

  datatype DeclKind = Var | Let | Const

  /** An entry of `VariableDeclaration.declarations`. `init` is absent in `let x;`. */
  datatype DeclEntry =
    | VarDeclarator(id: Pattern, init: Option<Expr>)
    | NonDeclarator

  /** A comment attached to a statement; the rewrite writes only the
      manual-conversion marker, whose text is not part of this model. */
  datatype Comment = ManualConversion | UserComment(text: string)

  /** `import x from 'm'` contributes `DefaultSpec(x)`; `import { k as x }` contributes
      `NamedSpec(k, Some(x))`; `NamedSpec(k, None)` is a specifier built without a local. */
  datatype ImportSpec =
    | DefaultSpec(local: Name)
    | NamedSpec(imported: Name, localName: Option<Name>)

  datatype ImportDecl = ImportDecl(specs: seq<ImportSpec>, source: string)

  datatype Stmt =
    | ExprStmt(expr: Expr)
    | VarDecl(kind: DeclKind, entries: seq<DeclEntry>, comments: seq<Comment>)
    | Import(decl: ImportDecl)
    | Block(body: seq<Stmt>)     // any construct holding statements whose parent is not the Program
    | OtherStmt

  /** The name a specifier binds in the importing module. */
  function SpecLocal(sp: ImportSpec): Name
  {
    match sp
    case DefaultSpec(x) => x
    case NamedSpec(k, l) => if l.Some? then l.value else k
  }

  /** The export a specifier reads: `None` for the default export. */
  function SpecImported(sp: ImportSpec): Option<Name>
  {
    match sp
    case DefaultSpec(_) => None
    case NamedSpec(k, _) => Some(k)
  }

  /** The names a property of an object pattern binds, as far as this model represents them. */
  function ElemBindings(p: PatElem): seq<Name>
  {
    match p
    case Prop(key, value, _) =>
      (match value
       case ValueIdent(x) => [x]
       case NoValue => if key.KeyIdent? then [key.name] else []
       case ValueOther => [])
    case RestElem => []
  }

  function ElemsBindings(ps: seq<PatElem>): seq<Name>
  {
    if |ps| == 0 then [] else ElemsBindings(ps[..|ps| - 1]) + ElemBindings(ps[|ps| - 1])
  }

  /** The names a binding target introduces, in source order. */
  function PatternBindings(p: Pattern): seq<Name>
  {
    match p
    case IdPat(x) => [x]
    case ObjPat(ps) => ElemsBindings(ps)
    case OtherPat => []
  }

  function EntryBindings(e: DeclEntry): seq<Name>
  {
    match e
    case VarDeclarator(id, _) => PatternBindings(id)
    case NonDeclarator => []
  }

  function EntriesBindings(es: seq<DeclEntry>): seq<Name>
  {
    if |es| == 0 then [] else EntriesBindings(es[..|es| - 1]) + EntryBindings(es[|es| - 1])
  }

  function SpecsBindings(sps: seq<ImportSpec>): seq<Name>
  {
    if |sps| == 0 then [] else SpecsBindings(sps[..|sps| - 1]) + [SpecLocal(sps[|sps| - 1])]
  }

  /** The names a statement binds at its own level, in source order. */
  function StmtBindings(s: Stmt): seq<Name>
  {
    match s
    case VarDecl(_, es, _) => EntriesBindings(es)
    case Import(d) => SpecsBindings(d.specs)
    case _ => []
  }

  function StmtsBindings(ss: seq<Stmt>): seq<Name>
  {
    if |ss| == 0 then [] else StmtsBindings(ss[..|ss| - 1]) + StmtBindings(ss[|ss| - 1])
  }
}
