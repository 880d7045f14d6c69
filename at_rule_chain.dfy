/** The at-rule chain of src/chain.js: `atRule(str)` binds the first
    at-rule whose `"@" + name` is str, and its handle asserts on that
    binding (exists, includes, not.exists, not.includes) or re-enters the
    selector chain inside the bound at-rule's subtree (selector,
    not.selector). atRuleIncludes is the prelude matcher behind both
    includes assertions. */
module AtRuleChain {
  import opened Ast
  import opened Text
  import opened SelectorChain

  /** A handle: the label the caller searched for and the at-rule bound to
      it, if any. */
  datatype AtRuleHandle = AtRuleHandle(str: string, atRule: Option<Node>)

  function AtRuleNamed(str: string): Node -> bool
  {
    (n: Node) => n.Atrule? && "@" + n.name == str
  }

  function ConditionContaining(text: string): Node -> bool
  {
    (n: Node) => n.Atrule? && n.condition.Some? && Contains(n.condition.value, text)
  }

  /** Some at-rule in scope's subtree, scope itself included, has a prelude
      that contains text. At-rules without a prelude never qualify. */
  ghost predicate SomeConditionContains(scope: Node, text: string)
  {
    exists x :: x in Preorder(scope) && x.Atrule? && x.condition.Some? && Contains(x.condition.value, text)
  }

  /** atRuleIncludes, called with `this` bound to the at-rule: whether any
      at-rule of its subtree, the bound one first, has a prelude in which
      text occurs as a substring. */
  function AtRuleIncludes(scope: Node, text: string): (r: bool)
    ensures r <==> SomeConditionContains(scope, text)
  {
    FindSpec(scope, ConditionContaining(text));
    var found := Find(scope, ConditionContaining(text));
    if found.Some? then
      FindSound(scope, ConditionContaining(text));
      true
    else
      assert !SomeConditionContains(scope, text) by {
        forall x | x in Preorder(scope)
          ensures !(x.Atrule? && x.condition.Some? && Contains(x.condition.value, text))
        {
          assert !ConditionContaining(text)(x);
        }
      }
      false
  }

  /** atRule(str) with `this` bound to root: the first Atrule in preorder
      whose name, prefixed with '@', is exactly str. */
  function AtRule(root: Node, str: string): (h: AtRuleHandle)
    ensures h.str == str
    ensures h.atRule.None? <==> forall x :: x in Preorder(root) ==> !(x.Atrule? && "@" + x.name == str)
    ensures h.atRule.Some? ==>
      var s := Preorder(root);
      exists i :: 0 <= i < |s| && s[i] == h.atRule.value && s[i].Atrule? && "@" + s[i].name == str
        && IsFirstAt(s, AtRuleNamed(str), i)
    ensures h.atRule.Some? ==> |str| > 0 && str[0] == '@'
  {
    FindSpec(root, AtRuleNamed(str));
    AtRuleHandle(str, Find(root, AtRuleNamed(str)))
  }

  /** exists(): fails exactly when no at-rule was bound. The message speaks
      of a "Selector", as the source's does. */
  function Exists(h: AtRuleHandle): (r: Outcome)
    ensures r.Pass? <==> h.atRule.Some?
    ensures r.Fail? ==> r.kind == NotFound && Contains(r.message, h.str)
  {
    if h.atRule.None? then
      ContainsPiece("Selector ", h.str, " does not exist");
      Fail(NotFound, "Selector " + h.str + " does not exist")
    else Pass
  }

  /** not.exists(): fails exactly when an at-rule was bound. */
  function NotExists(h: AtRuleHandle): (r: Outcome)
    ensures r.Pass? <==> h.atRule.None?
    ensures r.Fail? ==> r.kind == UnexpectedFound && Contains(r.message, h.str)
  {
    if h.atRule.Some? then
      ContainsPiece("Selector ", h.str, " does exist");
      Fail(UnexpectedFound, "Selector " + h.str + " does exist")
    else Pass
  }

  /** includes(text) on a bound at-rule: passes iff some at-rule of its
      subtree, itself included, has a prelude containing text. */
  function Includes(h: AtRuleHandle, text: string): (r: Outcome)
    requires h.atRule.Some?
    ensures r.Pass? <==> SomeConditionContains(h.atRule.value, text)
    ensures r.Fail? ==> r.kind == ConditionNotMatched
    ensures r.Fail? ==> Contains(r.message, h.str) && Contains(r.message, text)
  {
    if !AtRuleIncludes(h.atRule.value, text) then
      ContainsPiece("At-rule ", h.str, " does not include " + text);
      assert "At-rule " + h.str + " does not include " + text
          == "At-rule " + h.str + (" does not include " + text);
      Fail(ConditionNotMatched, EndingWith("At-rule " + h.str + " does not include ", text))
    else Pass
  }

  /** not.includes(text) on a bound at-rule: passes iff no at-rule of its
      subtree has a prelude containing text. */
  function NotIncludes(h: AtRuleHandle, text: string): (r: Outcome)
    requires h.atRule.Some?
    ensures r.Pass? <==> !SomeConditionContains(h.atRule.value, text)
    ensures r.Fail? ==> r.kind == UnexpectedCondition
    ensures r.Fail? ==> Contains(r.message, h.str) && Contains(r.message, text)
  {
    if AtRuleIncludes(h.atRule.value, text) then
      ContainsPiece("At-rule ", h.str, " does include " + text);
      assert "At-rule " + h.str + " does include " + text
          == "At-rule " + h.str + (" does include " + text);
      Fail(UnexpectedCondition, EndingWith("At-rule " + h.str + " does include ", text))
    else Pass
  }

  /** selector(str) on a bound at-rule: the selector chain with its scope
      narrowed to the at-rule's subtree. It binds the first rule with that
      prelude in preorder within the at-rule, so a rule nested inside it. */
  function Selector(h: AtRuleHandle, str: string): (r: SelectorHandle)
    requires h.atRule.Some?
    ensures r.str == str
    ensures r.rule.Some? ==> r.rule.value.Rule? && r.rule.value.prelude == str
    ensures r.rule.Some? ==> r.rule.value in Preorder(h.atRule.value)
    ensures r.rule.None? <==>
      forall x :: x in Preorder(h.atRule.value) ==> !(x.Rule? && x.prelude == str)
    ensures r.rule.Some? ==>
      var s := Preorder(h.atRule.value);
      exists i :: 0 <= i < |s| && s[i] == r.rule.value && IsFirstAt(s, RuleWithPrelude(str), i)
  {
    var r := SelectorChain.Selector(h.atRule.value, str);
    if r.rule.Some? then FindSound(h.atRule.value, RuleWithPrelude(str)); r else r
  }

  /** not.selector(str) is the same lookup as selector(str): the negation
      applies to nothing here. */
  function NotSelector(h: AtRuleHandle, str: string): (r: SelectorHandle)
    requires h.atRule.Some?
    ensures r == Selector(h, str)
  {
    SelectorChain.Selector(h.atRule.value, str)
  }

  /** Exactly one of exists() and not.exists() passes on any handle. */
  lemma ExistsExclusive(h: AtRuleHandle)
    ensures Exists(h).Pass? != NotExists(h).Pass?
  {
  }

  /** For the same text, not.includes passes exactly when includes fails. */
  lemma IncludesComplement(h: AtRuleHandle, text: string)
    requires h.atRule.Some?
    ensures NotIncludes(h, text).Pass? <==> !Includes(h, text).Pass?
  {
  }

  /** includes(text) also passes on account of a nested at-rule: a prelude
      containing text anywhere below the bound at-rule is enough, even when
      the bound at-rule's own prelude is missing or does not contain it. */
  lemma NestedConditionCounts(h: AtRuleHandle, nested: Node, text: string)
    requires h.atRule.Some? && nested in Preorder(h.atRule.value)
    requires nested.Atrule? && nested.condition.Some? && Contains(nested.condition.value, text)
    ensures Includes(h, text).Pass?
  {
  }

  /** A lookup scoped to an at-rule bound from root never finds more than
      the same lookup from root: the rule it binds lies in the subtree of
      one of the bound at-rule's children and so in root's subtree, and when
      root holds no rule with that prelude the scoped lookup binds nothing. */
  lemma ScopedSelectorWithinRoot(root: Node, at: string, str: string)
    requires AtRule(root, at).atRule.Some?
    ensures var inner := Selector(AtRule(root, at), str);
      inner.rule.Some? ==>
        inner.rule.value in Preorder(root)
        && inner.rule.value in PreorderList(AtRule(root, at).atRule.value.children)
    ensures SelectorChain.Selector(root, str).rule.None? ==>
      Selector(AtRule(root, at), str).rule.None?
  {
    var h := AtRule(root, at);
    var inner := Selector(h, str);
    FindSound(root, AtRuleNamed(at));
    if inner.rule.Some? {
      SubtreeTransitive(root, h.atRule.value, inner.rule.value);
    }
  }
}
