/** The selector chain of src/chain.js: `selector(str)` binds the first rule
    whose raw prelude is str, and its handle asserts on that binding
    (exists, includes, not.exists, not.includes). selectorIncludes is the
    declaration matcher behind both includes assertions. */
module SelectorChain {
  import opened Ast
  import opened Text

  /** Which throw statement of the chain an assertion failure comes from. */
  datatype Failure =
    | NotFound              // the bound rule or at-rule is missing
    | UnexpectedFound       // not.exists on a bound rule or at-rule
    | PropertyNotFound      // includes: no declaration of the property
    | ValueMismatch         // includes: the value compared false
    | UnexpectedProperty    // not.includes without a value: property present
    | UnexpectedValueMatch  // not.includes with a value: the value compared true
    | ConditionNotMatched   // at-rule includes: no prelude contains the text
    | UnexpectedCondition   // at-rule not.includes: some prelude contains it

  /** An assertion passes, or throws; the thrown Error becomes Fail. */
  datatype Outcome = Pass | Fail(kind: Failure, message: string)

  /** csstree.generate, left uninterpreted: it renders whatever the value
      lookup returned (a Value node, or undefined) to text. */
  type Generator = Option<Node> -> string

  /** A handle: the label the caller searched for and the rule bound to it,
      if any. */
  datatype SelectorHandle = SelectorHandle(str: string, rule: Option<Node>)

  /** What selectorIncludes returns: whether the property was found, and the
      value comparison, absent unless it was made. */
  datatype DeclarationMatch = DeclarationMatch(property: bool, value: Option<bool>)

  function RuleWithPrelude(str: string): Node -> bool
  {
    (n: Node) => n.Rule? && n.prelude == str
  }

  function DeclarationOf(name: string): Node -> bool
  {
    (n: Node) => n.Declaration? && n.property == name
  }

  function IsValue(n: Node): bool
  {
    n.Value?
  }

  /** The rendered value of the first declaration of `name` in preorder
      within scope, or None when scope declares no such property. */
  function DeclaredValue(scope: Node, name: string, generate: Generator): (r: Option<string>)
    ensures r.None? <==> forall x :: x in Preorder(scope) ==> !(x.Declaration? && x.property == name)
    ensures r.Some? ==>
      var s := Preorder(scope);
      exists i :: 0 <= i < |s| && s[i].Declaration? && s[i].property == name
        && IsFirstAt(s, DeclarationOf(name), i) && r.value == generate(Find(s[i], IsValue))
  {
    FindSpec(scope, DeclarationOf(name));
    match Find(scope, DeclarationOf(name))
    case None => None
    case Some(d) => Some(generate(Find(d, IsValue)))
  }

  /** selectorIncludes, called with `this` bound to the rule: `property` says
      whether the scope declares the property at all (exact, case-sensitive
      name); `value` is present only when a declaration was found and a value
      was passed, and then says whether the first declaration's rendered
      value equals the value. */
  function SelectorIncludes(scope: Node, name: string, value: Option<string>, generate: Generator)
    : (r: DeclarationMatch)
    ensures r.property <==> exists x :: x in Preorder(scope) && x.Declaration? && x.property == name
    ensures r.value.Some? <==> r.property && value.Some?
    ensures r.value.Some? ==> (r.value.value <==> DeclaredValue(scope, name, generate) == value)
  {
    FindSpec(scope, DeclarationOf(name));
    var declaration := Find(scope, DeclarationOf(name));
    if declaration.Some? && value.Some? then
      var valueNode := Find(declaration.value, IsValue);
      DeclarationMatch(true, Some(generate(valueNode) == value.value))
    else
      DeclarationMatch(declaration.Some?, None)
  }

  /** selector(str) with `this` bound to scope: the first Rule in preorder
      within scope whose raw prelude text is exactly str. */
  function Selector(scope: Node, str: string): (h: SelectorHandle)
    ensures h.str == str
    ensures h.rule.None? <==> forall x :: x in Preorder(scope) ==> !(x.Rule? && x.prelude == str)
    ensures h.rule.Some? ==>
      var s := Preorder(scope);
      exists i :: 0 <= i < |s| && s[i] == h.rule.value && s[i].Rule? && s[i].prelude == str
        && IsFirstAt(s, RuleWithPrelude(str), i)
  {
    FindSpec(scope, RuleWithPrelude(str));
    SelectorHandle(str, Find(scope, RuleWithPrelude(str)))
  }

  /** exists(): fails exactly when no rule was bound. */
  function Exists(h: SelectorHandle): (r: Outcome)
    ensures r.Pass? <==> h.rule.Some?
    ensures r.Fail? ==> r.kind == NotFound && Contains(r.message, h.str)
  {
    if h.rule.None? then
      ContainsPiece("Selector ", h.str, " does not exist");
      Fail(NotFound, "Selector " + h.str + " does not exist")
    else Pass
  }

  /** not.exists(): fails exactly when a rule was bound. */
  function NotExists(h: SelectorHandle): (r: Outcome)
    ensures r.Pass? <==> h.rule.None?
    ensures r.Fail? ==> r.kind == UnexpectedFound && Contains(r.message, h.str)
  {
    if h.rule.Some? then
      ContainsPiece("Selector ", h.str, " does exist");
      Fail(UnexpectedFound, "Selector " + h.str + " does exist")
    else Pass
  }

  /** The message of a failure that ends with the handle's label. */
  function EndingWith(prefix: string, tail: string): (m: string)
    ensures Contains(m, tail)
  {
    ContainsPiece(prefix, tail, "");
    assert prefix + tail + "" == prefix + tail;
    prefix + tail
  }

  /** includes(name[, value]) on a bound rule: passes iff the rule declares
      the property and, when a value is passed, the first such declaration
      renders to exactly that value. A missing property is reported before
      any value comparison. */
  function Includes(h: SelectorHandle, name: string, value: Option<string>, generate: Generator)
    : (r: Outcome)
    requires h.rule.Some?
    ensures var declared := DeclaredValue(h.rule.value, name, generate);
      r.Pass? <==> declared.Some? && (value.None? || declared == value)
    ensures DeclaredValue(h.rule.value, name, generate).None? ==> r.Fail? && r.kind == PropertyNotFound
    ensures r.Fail? && DeclaredValue(h.rule.value, name, generate).Some? ==>
      value.Some? && r.kind == ValueMismatch && Contains(r.message, value.value)
    ensures r.Fail? ==> Contains(r.message, h.str) && Contains(r.message, name)
  {
    var m := SelectorIncludes(h.rule.value, name, value, generate);
    if !m.property then
      ContainsPiece("Property '", name, "' not found in " + h.str);
      assert "Property '" + name + "' not found in " + h.str
          == "Property '" + name + ("' not found in " + h.str);
      Fail(PropertyNotFound, EndingWith("Property '" + name + "' not found in ", h.str))
    else if m.value == Some(false) then
      var prefix := "Value '" + value.value + "' not found at ";
      ContainsPiece("Value '", value.value, "' not found at " + name + " in " + h.str);
      assert prefix + name + " in " + h.str
          == "Value '" + value.value + ("' not found at " + name + " in " + h.str);
      ContainsPiece(prefix, name, " in " + h.str);
      assert prefix + name + " in " + h.str == prefix + name + (" in " + h.str);
      Fail(ValueMismatch, EndingWith(prefix + name + " in ", h.str))
    else Pass
  }

  /** not.includes(name[, value]) on a bound rule. Without a value it passes
      iff the rule does not declare the property; with a value it passes iff
      the property is absent or its first declaration renders to something
      else. */
  function NotIncludes(h: SelectorHandle, name: string, value: Option<string>, generate: Generator)
    : (r: Outcome)
    requires h.rule.Some?
    ensures var declared := DeclaredValue(h.rule.value, name, generate);
      r.Pass? <==> if value.None? then declared.None? else declared != value
    ensures r.Fail? ==> r.kind == (if value.None? then UnexpectedProperty else UnexpectedValueMatch)
    ensures r.Fail? ==> Contains(r.message, h.str) && Contains(r.message, name)
  {
    var m := SelectorIncludes(h.rule.value, name, value, generate);
    if m.value.None? && m.property then
      ContainsPiece("Property '", name, "' found in " + h.str);
      assert "Property '" + name + "' found in " + h.str
          == "Property '" + name + ("' found in " + h.str);
      Fail(UnexpectedProperty, EndingWith("Property '" + name + "' found in ", h.str))
    else if m.value == Some(true) then
      var prefix := "Value '" + value.value + "' found at ";
      ContainsPiece(prefix, name, " in " + h.str);
      assert prefix + name + " in " + h.str == prefix + name + (" in " + h.str);
      Fail(UnexpectedValueMatch, EndingWith(prefix + name + " in ", h.str))
    else Pass
  }

  /** Exactly one of exists() and not.exists() passes on any handle. */
  lemma ExistsExclusive(h: SelectorHandle)
    ensures Exists(h).Pass? != NotExists(h).Pass?
  {
  }

  /** For the same arguments, not.includes passes exactly when includes
      fails. */
  lemma IncludesComplement(h: SelectorHandle, name: string, value: Option<string>, generate: Generator)
    requires h.rule.Some?
    ensures NotIncludes(h, name, value, generate).Pass? <==> !Includes(h, name, value, generate).Pass?
  {
  }

  /** Passing a value only narrows includes: if includes(name, value)
      passes, so does includes(name). */
  lemma IncludesWithValueImpliesProperty(h: SelectorHandle, name: string, v: string, generate: Generator)
    requires h.rule.Some?
    ensures Includes(h, name, Some(v), generate).Pass? ==> Includes(h, name, None, generate).Pass?
  {
  }

  /** The bound rule is a function of the scope and the label alone:
      any rule with prelude str that comes before every other such rule in
      preorder is the rule selector(str) binds. */
  lemma SelectorBindsFirst(scope: Node, str: string, i: int)
    requires 0 <= i < |Preorder(scope)|
    requires Preorder(scope)[i].Rule? && Preorder(scope)[i].prelude == str
    requires IsFirstAt(Preorder(scope), RuleWithPrelude(str), i)
    ensures Selector(scope, str).rule == Some(Preorder(scope)[i])
  {
    FindUnique(scope, RuleWithPrelude(str), i);
  }
}
