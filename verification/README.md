# require-to-import, modelled in Dafny

This project models the `requireToImport` codemod of wnd-codemods. The codemod
rewrites CommonJS `require(...)` calls in a JavaScript syntax tree into static
`import` declarations. It is built from three parts:

- **The matcher `extractRequire`.** It classifies an expression as one of:
  - a `require('m')` call;
  - a require call it recognises but cannot convert (`require(x)`, `require()`,
    `require('a', 'b')`);
  - one identifier member access on a require call (`require('m').p`).

  Any other expression yields nothing.
- **The bare-statement rule.** `require('m');` and `require('m').p;` become
  `import 'm';`. A matched but unsupported bare statement is left alone.
- **The declaration rule.** A `var`/`let`/`const` declaration with at least one
  matching initialiser is handled as one of two outcomes:
  - It is split into import declarations and single-declarator declarations,
    kept in the original order.
  - It is left as it is, with its comments replaced by one manual-conversion
    marker. This happens when any declarator is unsupported, when any binding
    target cannot be converted, or when the declaration is not directly under
    the Program.

The model is functional. The AST is a set of immutable datatypes (`JsAst`). The
matcher is a pure recursive function (`Matcher`). Each rule is a pure function
from one statement to a statement sequence. A program is a list of top-level
statements. `Block` stands for every construct that holds statements whose
parent is not the Program: a block, a function body, a branch, an `export`.
The two `find(...).replaceWith(...)` walks are one generic walk
(`Traversal`). It is parameterised by the rule applied to each non-block
statement and proves its lifting lemmas once for any rule. The transformer
runs two passes (`Rewriter.Transform`):

1. The expression-statement pass runs at every depth. It has no parent check.
2. The declaration pass is gated on the Program.

`Rewriter.RewriteDeclaration` is the declaration rule written the way the
source writes it. It runs a `find` loop, then a `forEach` loop that fills a
buffer and raises a bail flag, then makes one commit-or-discard decision. It is
proved equal to the declarative rule `Rewriter.DeclRule`.

Behaviour of the code that a reader might not expect:

- A bailed declaration is not byte-for-byte unchanged. Its comment list is
  replaced by a single manual-conversion comment, which drops any comments it
  had (requireToImport.ts:166-171).
- A nested declaration with a supported require is flagged the same way.
- `const x = require(pathVar)` also gets the manual-conversion comment. It is not
  left silently unchanged.
- The `computed` flag of a member access is never consulted. `require('m')[k]`,
  with `k` an identifier, is read as `require('m').k`. The same holds for a
  computed key `{[k]: v}` in an object pattern. `Matcher.ComputedMemberIgnored`
  states the member case.
- In an object pattern the accessed member is ignored.
  `const {a} = require('m').p` imports `a` from `'m'`.
- A bare `require('m').p;` drops the member.
- Non-declarator entries of a declaration are dropped from a converted output.

## Model

| member | source | states |
|---|---|---|
| `Matcher.ExtractRequire` | requireToImport.ts:30-67 | Yields nothing exactly when the expression is neither a `require(...)` call nor an identifier member access on one. `require('m')` yields `m` with no member. Any other require argument list yields `unsupported` with an empty literal. `require(..).p` yields the inner result with member `p`. |
| `Matcher.ExtractRequireExpr` | requireToImport.ts:36-62 | Round trip: the matcher recovers any supported result from its canonical expression, `require('m')` or `require('m').p`. |
| `Matcher.SupportedMatchIsCanonical` | requireToImport.ts:30-67 | Converse round trip: every supported match is exactly the canonical expression of what was extracted. |
| `Matcher.SupportedMatchLoadsModule` | requireToImport.ts:30-67 | A match is supported with literal `m` if and only if the expression is `require('m')` or `require('m').p`. |
| `Matcher.NestedChainRejected` | requireToImport.ts:50-54 | A member access whose object is itself a member access is never recognised, e.g. `require('m').z.w`. |
| `Matcher.ComputedMemberIgnored` | requireToImport.ts:58-62 | `o[p]` and `o.p` are matched alike, because the code tests only the property's node type. |
| `Rewriter.RewriteExprStmt` | requireToImport.ts:74-85 | A bare statement that loads `m` with a supported shape becomes `import 'm'` with no specifiers, and the member is dropped. Any other bare statement, unsupported requires included, is returned unchanged. |
| `Rewriter.PatternSpecs` | requireToImport.ts:123-145 | An object pattern converts if and only if every element is a `Property` with an identifier key and a value that is absent or an identifier. It then gives one named specifier per property, in source order: the key as the imported name, and a local that binds what the property bound. |
| `Rewriter.TargetSpecifiers` | requireToImport.ts:116-149 | An identifier target gives one specifier binding it. It imports the default export when there is no member and the member otherwise. An object pattern gives its pattern's specifiers whatever the member. Any other target gives none. The specifiers bind exactly the target's names. |
| `Rewriter.MatchInit` | requireToImport.ts:92 | The initialiser matches if and only if it is present and is a require call or a member access on one. A present initialiser that loads module `m` gives a supported match with literal `m`. |
| `Rewriter.Classify` | requireToImport.ts:104-156 | Non-declarator entries are skipped. Non-matching declarators are split out. A conversion imports from the module the initialiser loads. Its specifiers are the target's specifiers for the accessed member: a default import, `member as id`, or the pattern's keys as imported names. They bind exactly the declarator's names. |
| `Rewriter.RewriteDeclaration` | requireToImport.ts:87-175 | The buffered two-loop implementation equals the declarative rule `DeclRule`. |
| `RewriteProperties.BailsIffBailingDeclarator` | requireToImport.ts:104-149 | The bail flag is raised if and only if some declarator has two properties: its initialiser matches, and the require is unsupported or its target is not convertible. |
| `RewriteProperties.SplitPreservesOrder` | requireToImport.ts:104-156 | Without a bail, the output has exactly one statement per declarator, in declarator order. A matching declarator gives an import from the module it loads, with the specifiers its target and member call for. Any other declarator gives a single-declarator declaration of the original kind. |
| `RewriteProperties.ConversionPreservesBindings` | requireToImport.ts:113-155 | A conversion binds the same names, in the same order, as the original declaration. |
| `RewriteProperties.DeclRulePreservesBindings` | requireToImport.ts:99-175 | Every outcome of the declaration rule binds exactly the names the original statement bound. |
| `RewriteProperties.NoMatchUntouched` | requireToImport.ts:87-98 | A declaration none of whose declarators matches is returned unchanged. |
| `RewriteProperties.BailIsAtomic` | requireToImport.ts:161-172 | A selected declaration that is nested or has a bailing declarator comes back as itself alone, with only its comments replaced by the manual-conversion marker. |
| `RewriteProperties.NestedDeclarationsStay` | requireToImport.ts:161-164 | Below the Program, the declaration pass keeps the count, the imports, the declarations and their entries position by position. |
| `Traversal.FlatMapIdempotent` | requireToImport.ts:87-99 | A statement-list walk is idempotent whenever every statement its rule emits is a non-block fixed point of the rule. |
| `Traversal.MapIdempotentStmts` | requireToImport.ts:74 | A one-for-one walk is idempotent whenever its rule is idempotent and never produces a block. |
| `Traversal.MapFlatMapCommute` | requireToImport.ts:74-99 | A one-for-one walk and a statement-list walk commute whenever their rules commute on every non-block statement. |
| `PassProperties.DeclRuleOutputFixed` | requireToImport.ts:151-171 | Every statement the declaration rule emits is a fixed point of the rule. |
| `PassProperties.ExprRuleIdempotent` | requireToImport.ts:74-85 | The bare-statement rule applied twice equals the rule applied once. |
| `PassProperties.RulesCommuteAt` | requireToImport.ts:74-175 | Rewriting bare statements after the declaration rule gives the same statements as the declaration rule after the bare-statement rule. |
| `PassProperties.ExprPassIdempotent` | requireToImport.ts:74-85 | The expression-statement pass is idempotent at every depth. |
| `PassProperties.DeclPassIdempotent` | requireToImport.ts:87-175 | The declaration pass is idempotent. |
| `PassProperties.PassesCommute` | requireToImport.ts:74-175 | The two passes commute. |
| `PassProperties.TransformIdempotent` | requireToImport.ts:69-178 | Re-running the transformer on its own output changes nothing. |
| `RewriteExamples.SplittingExample` | requireToImport.ts:151-155 | `const a = require('m'), b = 5;` becomes `import a from 'm'; const b = 5;`. |
| `RewriteExamples.OrderExample` | requireToImport.ts:122-140 | `const {a, b: c} = require('m');` becomes `import { a, b as c } from 'm';`. |
| `RewriteExamples.ScopeGatingExample` | requireToImport.ts:161-172 | `const x = require('m');` is converted at top level. Inside a block it is only flagged. |
| `RewriteExamples.MemberExample` | requireToImport.ts:116-118 | `const y = require('m').z;` becomes `import { z as y } from 'm';`. |
| `RewriteExamples.NestedMemberExample` | requireToImport.ts:50-54 | `const y = require('m').z.w;` is not a require at all and is returned as it is. |
| `RewriteExamples.ComputedSpecifierExample` | requireToImport.ts:108-110 | `const x = require(pathVar);` is flagged for manual conversion. |
| `RewriteExamples.BareStatementExample` | requireToImport.ts:74-85 | `require('m');` becomes `import 'm';`, also inside a block. |
| `RewriteExamples.BareComputedExample` | requireToImport.ts:74-85 | A bare `require(pathVar);` is matched but unsupported, and stays as it is. |
| `UninitialisedDeclarators.FindAsWrittenSpec` | requireToImport.ts:89-98 | The selection test as written throws only on a missing initialiser. Otherwise it answers "some declarator matches". |
| `UninitialisedDeclarators.AsWrittenThrowsIffUninitialised` | requireToImport.ts:89-106 | The code as written throws on a declaration if and only if some declarator has no initialiser. Otherwise it agrees with the corrected rule. |
| `UninitialisedDeclarators.LetWithoutInitialiser` | requireToImport.ts:92 | `let x;` makes the code as written throw. The corrected rule leaves it alone. |
| `UninitialisedDeclarators.UninitialisedDeclaratorSplitOut` | requireToImport.ts:104-106 | Under the corrected matcher, a declarator without an initialiser is split out unchanged and never selects a declaration. |

## Findings

| source | as written | input that shows it | evidently intended | confidence | as-written member | corrected member |
|---|---|---|---|---|---|---|
| requireToImport.ts:92 | `extractRequire(d.init)` reads `.type` of `d.init`, which is null for a declarator without an initialiser. The same happens at line 106. The `TypeError` aborts the transform of the whole file. | any file containing `let x;` | a declarator without an initialiser is simply not a require, so it is kept and split out like any other | not executed | `UninitialisedDeclarators.DeclRuleAsWritten` (shown by `UninitialisedDeclarators.LetWithoutInitialiser`) | `Rewriter.MatchInit` (proved by `UninitialisedDeclarators.UninitialisedDeclaratorSplitOut`) |

## Left out

- Parsing, printing and node construction by jscodeshift are external. This
  covers `j(file.source)`, `toSource` and the `sourceOutput` style from
  `./config`. Nodes are built as datatype constructors, and output text is not
  modelled.
- The text of the `manualComment` helper from `./utils` is not part of this
  model. The marker is the opaque `ManualConversion` comment.
- The `find`/`replaceWith` traversal is modelled as a recursive map over
  statement lists. Statements inside expressions, such as function expressions
  in initialisers, are not represented. So requires inside them are out of
  reach of the model.
- The commented-out `isRequire` helper is dead code.
- Comments on statements other than declarations are not modelled. Neither is
  the carrying of comments from a replaced statement to its replacement.
- Literal values other than strings are one opaque `OtherVal`. The code only
  asks whether a literal's value is a string.
- The as-written crash is modelled one declaration at a time
  (`UninitialisedDeclarators.DeclRuleAsWritten`). The abort of the whole file
  that follows from it is stated in prose only.
