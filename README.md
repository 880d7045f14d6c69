# assert-css: the assertion chain, modelled in Dafny

assert-css is a small assertion library for tests. It checks structural facts
about a stylesheet that has already been parsed into a css-tree syntax tree.
The parser keeps rule and at-rule preludes as raw text. Two entry points exist:

- `selector(str)` binds the first `Rule` whose raw prelude is exactly `str`.
- `atRule(str)` binds the first `Atrule` whose `"@" + name` is exactly `str`.

Each returns a handle. The handle asserts on its binding with `exists`,
`includes`, `not.exists` and `not.includes`. An at-rule handle also has
`selector` and `not.selector`, which run the selector lookup inside the bound
at-rule. A failing assertion throws an `Error`.

This project models `src/chain.js` as pure functions over an immutable tree:

- `ast.dfy` (module `Ast`): the `Node` datatype.
  - `Preorder` lists a subtree in the order the css-tree walker visits it.
  - `Find` models `csstree.find`: it visits a node, then its children in
    document order, and returns the first node the predicate accepts.
  - `First` is a plain linear search over a sequence. It serves as the
    reference definition. `Find` is proved equal to `First` applied to
    `Preorder`.
- `text.dfy` (module `Text`): `Contains`, the substring test of
  `String.prototype.includes`. It is proved equivalent to "occurs at some
  index".
- `selector_chain.dfy` (module `SelectorChain`):
  - `selectorIncludes` becomes `SelectorIncludes`.
  - `selector(str)` becomes `Selector`.
  - The handle's assertions become `Exists`, `NotExists`, `Includes` and
    `NotIncludes`, each returning `Pass` or `Fail(kind, message)`.
  - `DeclaredValue` is the rendered value of the first declaration of a
    property. It is the specification that the two includes assertions are
    proved against.
- `at_rule_chain.dfy` (module `AtRuleChain`): `atRuleIncludes`, `atRule(str)`
  and the at-rule handle, including `selector` and `not.selector`.
- `scenarios.dfy` (module `Scenarios`): the repository's test cases, replayed
  on the trees the parser produces for their stylesheets.

Conventions of the model:

- A thrown error is `Fail`. Its `kind` tells which `throw` statement raised it.
  Its message is built from the same pieces as the source's message.
- The optional value argument of `includes` is an `Option<string>`. `None`
  stands for `undefined`. `Some(s)` holds `String(value)`, already coerced, so
  the number `0` arrives as `"0"`.
- `csstree.generate` is a parameter of type `Generator = Option<Node> -> string`.
  No function or lemma of `Ast`, `Text`, `SelectorChain` or `AtRuleChain`
  assumes anything about it. It is applied to whatever the Value lookup
  returned, which may be nothing. Each scenario lemma states, as a
  precondition, the one rendering its stylesheet needs.
- Function values are never applied. A function passed as the value is
  compared through its source text, as `String(value)` at src/chain.js:12
  makes it. The repository's tests at test/assert-css.test.js:41-45 and
  115-120 expect predicate matching. The code does not provide it, and the
  model follows the code: `Scenarios.FunctionValueComparedAsText` and
  `Scenarios.ScopedFunctionValueComparedAsText` show both tests failing.
- `atRule(...).includes(s)` searches every at-rule in the bound at-rule's
  subtree, starting with the bound at-rule itself
  (`AtRuleChain.NestedConditionCounts`).
- The root `selector` searches the whole stylesheet, including rules nested
  inside at-rules.
- `not.includes(p, v)` passes when the property is absent. It also passes when
  the property's first declaration renders to something other than `v`.

## Model

| member | source | states |
|---|---|---|
| Ast.Find | src/chain.js:26 | `csstree.find` visits a node before its children. Whatever it returns is accepted by the predicate, and an accepted starting node is returned itself. |
| Ast.First | src/chain.js:26 | The first-match search returns nothing exactly when no element is accepted. Otherwise it returns an accepted element with no accepted element before it. |
| Ast.FindIsFirstInPreorder | src/chain.js:26 | `csstree.find` on a tree equals the first match in the tree's preorder listing: the node, then its children's subtrees in document order. |
| Ast.FindSpec | src/chain.js:5 | `find` returns nothing iff no node of the subtree is accepted. Otherwise it returns the accepted node that comes first in preorder. |
| Ast.FindSound | src/chain.js:11 | A node returned by `find` is accepted by the predicate and lies in the searched subtree. |
| Ast.FindUnique | src/chain.js:57 | Any accepted node with no accepted node before it in preorder is exactly the node `find` returns, so the lookup is determined by the tree and the predicate. |
| Ast.SubtreeTransitive | src/chain.js:66 | A node in the subtree of a node of n's subtree is itself in n's subtree. Scoped lookups stay inside the enclosing scope. |
| Text.Contains | src/chain.js:19 | `includes(sub)` on a prelude is true iff sub occurs at some index. The empty string occurs everywhere. |
| SelectorChain.DeclaredValue | src/chain.js:5-12 | No value exactly when the scope has no Declaration with that exact, case-sensitive property. Otherwise the value is the rendering of the first Value node under the first such declaration in preorder. |
| SelectorChain.SelectorIncludes | src/chain.js:3-16 | `property` is true iff some declaration in the scope has the exact property name. `value` is present iff a declaration was found and a value was passed. It is then true iff the first declaration renders to exactly that value. |
| SelectorChain.Selector | src/chain.js:25-26 | Binds nothing iff no Rule of the scope has exactly that raw prelude. Otherwise binds such a Rule with no such Rule before it in preorder. The label is kept. |
| SelectorChain.Exists | src/chain.js:29-31 | Passes iff a rule was bound. A failure is NotFound and its message names the label. |
| SelectorChain.NotExists | src/chain.js:41-43 | Passes iff no rule was bound. A failure is UnexpectedFound and its message names the label. |
| SelectorChain.Includes | src/chain.js:32-39 | Passes iff the property is declared and, when a value is passed, the first declaration renders to exactly that value. A missing property always fails as PropertyNotFound, before any value check. A declared property fails only when a value was passed, as ValueMismatch with a message naming that value. Failures name the label and the property. |
| SelectorChain.NotIncludes | src/chain.js:44-51 | Without a value, passes iff the property is not declared. With a value, passes iff the property is absent or renders to something else. The failure kind depends on whether a value was passed. Failures name the label and the property. |
| SelectorChain.ExistsExclusive | src/chain.js:29-43 | Exactly one of `exists()` and `not.exists()` passes on any selector handle. |
| SelectorChain.IncludesComplement | src/chain.js:32-51 | For the same arguments, `not.includes` passes exactly when `includes` fails. |
| SelectorChain.IncludesWithValueImpliesProperty | src/chain.js:32-39 | If `includes(p, v)` passes, so does `includes(p)`. |
| SelectorChain.SelectorBindsFirst | src/chain.js:26 | Any Rule with that prelude and no such Rule before it in preorder is the rule `selector(str)` binds. Repeating the lookup on the same tree binds the same node. |
| AtRuleChain.AtRuleIncludes | src/chain.js:18-23 | True iff some Atrule in the scope's subtree, the scope itself included, has a prelude containing the text. At-rules without a prelude never match. |
| AtRuleChain.AtRule | src/chain.js:56-57 | Binds nothing iff no Atrule has `"@" + name` equal to the label. Otherwise binds the first such at-rule in preorder. A label that binds anything starts with '@'. |
| AtRuleChain.Exists | src/chain.js:59-61 | Passes iff an at-rule was bound. A failure is NotFound and its message names the label. |
| AtRuleChain.NotExists | src/chain.js:68-70 | Passes iff no at-rule was bound. A failure is UnexpectedFound and its message names the label. |
| AtRuleChain.Includes | src/chain.js:62-65 | Passes iff some at-rule of the bound at-rule's subtree has a prelude containing the text. A failure is ConditionNotMatched and names the label and the text. |
| AtRuleChain.NotIncludes | src/chain.js:71-74 | Passes iff no at-rule of the bound subtree has a prelude containing the text. A failure is UnexpectedCondition and names the label and the text. |
| AtRuleChain.Selector | src/chain.js:66 | The selector lookup rebound to the at-rule. It binds nothing iff the at-rule's subtree holds no Rule with that prelude. Otherwise it binds such a Rule inside that subtree, with no such Rule before it in the subtree's preorder. |
| AtRuleChain.NotSelector | src/chain.js:75 | `not.selector` is the same, un-negated lookup as `selector`. |
| AtRuleChain.ExistsExclusive | src/chain.js:59-70 | Exactly one of `exists()` and `not.exists()` passes on any at-rule handle. |
| AtRuleChain.IncludesComplement | src/chain.js:62-74 | For the same text, `not.includes` passes exactly when `includes` fails. |
| AtRuleChain.NestedConditionCounts | src/chain.js:19 | A nested at-rule whose prelude contains the text makes `includes` pass, whatever the bound at-rule's own prelude says. |
| AtRuleChain.ScopedSelectorWithinRoot | src/chain.js:57-66 | A rule bound by `atRule(a).selector(s)` lies in the subtree of one of the bound at-rule's children, and so inside the root. When the root holds no rule with prelude s, the scoped lookup binds nothing. |
| Scenarios.RootStyles | test/assert-css.test.js:4-39 | On `body { margin: 0; }` the root-style tests pass. `includes('margin', 0)` passes via the value "0". Property names are case-sensitive. |
| Scenarios.FunctionValueComparedAsText | test/assert-css.test.js:41-45 | A function value is compared through its source text, so the predicate test fails. The exact rendering "0 1rem" passes and "0" alone fails. |
| Scenarios.AtRuleStyles | test/assert-css.test.js:49-71 | On the `@media` sheet, `@media` exists and `@font-face` and `media` bind nothing. The condition check passes for "max-width: 800px" and `not.includes` passes for "min-width: 700px". |
| Scenarios.ScopedStyles | test/assert-css.test.js:73-113 | Inside `@media`, `selector('body').exists()` and `selector('html').not.exists()` pass, and the property and value checks behave as the tests expect. `not.selector('html')` binds the same nothing as `selector('html')`. |
| Scenarios.ScopedFunctionValueComparedAsText | test/assert-css.test.js:115-120 | Inside `@media` on `body { margin: 0 1rem; }`, the function value is compared through its source text, so the predicate test fails, while the exact rendering "0 1rem" passes. |

## Left out

- CSS parsing (`csstree.parse` in src/index.js:6-9) belongs to the external library. The tree is an input, and src/index.js, a thin binding wrapper, is not modelled.
- `csstree.generate` is not modelled. It is the uninterpreted `Generator` parameter: the chain modules' lemmas hold for every renderer, and each scenario lemma requires the one rendering it relies on. A `generate` that raises on an undefined node is not captured: the model always yields a string.
- `String(value)` coercion of arbitrary JavaScript values is not modelled. The value arrives as the coerced string, and a function arrives as its source text.
- Predicate application (a function as the value argument) is not modelled, because the code never applies one.
- SelectorChain.Includes requires a bound rule. On an unbound handle `csstree.find` receives an undefined root, and what the library does then is not part of this model.
- SelectorChain.NotIncludes requires a bound rule, for the same reason.
- AtRuleChain.Includes requires a bound at-rule, for the same reason.
- AtRuleChain.NotIncludes requires a bound at-rule, for the same reason.
- AtRuleChain.Selector requires a bound at-rule: `selector.bind(undefined)` runs the lookup with an undefined root.
- AtRuleChain.NotSelector requires a bound at-rule, for the same reason.
- Error messages are modelled as the source builds them, except that the value pieces use the coerced string.
- The mocha test runner (`describe`/`it`) is not modelled. The test cases appear only as the scenario lemmas.
