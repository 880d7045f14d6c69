/** The repository's test scenarios, run through the model on the trees the
    parser gives for their stylesheets. The renderer stays a parameter; each
    lemma names only the text it must produce for the one Value node it
    renders. */
module Scenarios {
  import opened Ast
  import opened Text
  import S = SelectorChain
  import A = AtRuleChain

  /** The Value node of `margin: 0` (a single Number child). */
  const ZeroValue: Node := Value([Other("Number", [])])

  /** The Value node of `margin: 0 1rem`. */
  const ZeroRemValue: Node := Value([Other("Number", []), Other("Dimension", [])])

  function MarginDeclaration(value: Node): Node
  {
    Declaration("margin", [value])
  }

  /** `body { margin: <value>; }` as a Rule: its raw prelude, then its block. */
  function BodyRule(value: Node): Node
  {
    Rule("body", [Other("Raw", []), Other("Block", [MarginDeclaration(value)])])
  }

  /** `body { margin: 0; }` */
  const BodySheet: Node := Stylesheet([BodyRule(ZeroValue)])

  /** `body { margin: 0 1rem; }` */
  const BodyRemSheet: Node := Stylesheet([BodyRule(ZeroRemValue)])

  /** The `@media (max-width: 800px) { ... }` at-rule around the body rule. */
  const Media: Node :=
    Atrule("media", Some("(max-width: 800px)"), [Other("Raw", []), Other("Block", [BodyRule(ZeroValue)])])

  /** `@media (max-width: 800px) { body { margin: 0; } }` */
  const MediaSheet: Node := Stylesheet([Media])

  /** The same at-rule around `body { margin: 0 1rem; }`. */
  const MediaRem: Node :=
    Atrule("media", Some("(max-width: 800px)"), [Other("Raw", []), Other("Block", [BodyRule(ZeroRemValue)])])

  /** `@media (max-width: 800px) { body { margin: 0 1rem; } }` */
  const MediaRemSheet: Node := Stylesheet([MediaRem])

  lemma PreorderSingle(n: Node)
    ensures PreorderList([n]) == Preorder(n)
  {
    assert [n][1..] == [];
  }

  lemma PreorderPair(a: Node, b: Node)
    ensures PreorderList([a, b]) == Preorder(a) + Preorder(b)
  {
    assert [a, b][1..] == [b];
    PreorderSingle(b);
  }

  lemma LeafPreorder(kind: string)
    ensures Preorder(Other(kind, [])) == [Other(kind, [])]
  {
  }

  lemma BodyRulePreorder(value: Node)
    requires value.Value? && forall c :: c in value.children ==> c.Other? && c.children == []
    ensures Preorder(BodyRule(value)) ==
      [BodyRule(value), Other("Raw", []), Other("Block", [MarginDeclaration(value)]),
       MarginDeclaration(value)] + Preorder(value)
  {
    var block := Other("Block", [MarginDeclaration(value)]);
    PreorderSingle(value);
    PreorderSingle(MarginDeclaration(value));
    PreorderSingle(block);
    PreorderPair(Other("Raw", []), block);
    LeafPreorder("Raw");
  }

  /** The first Value node under a margin declaration is its value. */
  lemma MarginValueNode(value: Node)
    requires value.Value?
    ensures Find(MarginDeclaration(value), S.IsValue) == Some(value)
  {
    assert FindList([value], S.IsValue) == Some(value);
  }

  lemma BodySheetPreorder()
    ensures Preorder(BodySheet) ==
      [BodySheet, BodyRule(ZeroValue), Other("Raw", []), Other("Block", [MarginDeclaration(ZeroValue)]),
       MarginDeclaration(ZeroValue), ZeroValue, Other("Number", [])]
  {
    LeafPreorder("Number");
    PreorderSingle(Other("Number", []));
    BodyRulePreorder(ZeroValue);
    PreorderSingle(BodyRule(ZeroValue));
  }

  lemma BodySelectorFound()
    ensures S.Selector(BodySheet, "body").rule == Some(BodyRule(ZeroValue))
  {
    BodySheetPreorder();
  }

  lemma BodySelectorMissing(str: string)
    requires str != "body"
    ensures S.Selector(BodySheet, str).rule == None
  {
    BodySheetPreorder();
  }

  lemma BodyRulePreorderZero()
    ensures Preorder(BodyRule(ZeroValue)) ==
      [BodyRule(ZeroValue), Other("Raw", []), Other("Block", [MarginDeclaration(ZeroValue)]),
       MarginDeclaration(ZeroValue), ZeroValue, Other("Number", [])]
  {
    LeafPreorder("Number");
    PreorderSingle(Other("Number", []));
    BodyRulePreorder(ZeroValue);
  }

  lemma BodyMarginDeclared(generate: S.Generator)
    ensures S.DeclaredValue(BodyRule(ZeroValue), "margin", generate) == Some(generate(Some(ZeroValue)))
  {
    BodyRulePreorderZero();
    MarginValueNode(ZeroValue);
  }

  lemma BodyOtherUndeclared(name: string, generate: S.Generator)
    requires name != "margin"
    ensures S.DeclaredValue(BodyRule(ZeroValue), name, generate) == None
  {
    BodyRulePreorderZero();
  }

  /** Root styles, test/assert-css.test.js:4-39: a present selector exists,
      an absent one does not, and the property and value checks pass as the
      tests expect when the value renders as "0". The property name is
      compared case-sensitively. */
  lemma RootStyles(generate: S.Generator)
    requires generate(Some(ZeroValue)) == "0"
    ensures S.Exists(S.Selector(BodySheet, "body")).Pass?
    ensures S.NotExists(S.Selector(BodySheet, "html")).Pass?
    ensures S.Exists(S.Selector(BodySheet, "html")).Fail?
    ensures var body := S.Selector(BodySheet, "body");
      && body.rule.Some?
      && S.Includes(body, "margin", None, generate).Pass?
      && S.NotIncludes(body, "font-family", None, generate).Pass?
      && S.Includes(body, "margin", Some("0"), generate).Pass?
      && S.NotIncludes(body, "margin", Some("auto"), generate).Pass?
      && S.Includes(body, "Margin", None, generate).Fail?
  {
    BodySelectorFound();
    BodySelectorMissing("html");
    BodyMarginDeclared(generate);
    BodyOtherUndeclared("font-family", generate);
    BodyOtherUndeclared("Margin", generate);
  }

  /** A function passed as the value is turned into its source text and
      compared with the rendered value, never applied: the predicate of
      test/assert-css.test.js:41-45 makes includes fail, while the rendered
      text itself passes and a part of it does not. */
  lemma FunctionValueComparedAsText(generate: S.Generator)
    requires generate(Some(ZeroRemValue)) == "0 1rem"
    ensures var body := S.Selector(BodyRemSheet, "body");
      && body.rule.Some?
      && S.Includes(body, "margin", Some("(actual) => actual.includes('1rem')"), generate).Fail?
      && S.Includes(body, "margin", Some("0 1rem"), generate).Pass?
      && S.Includes(body, "margin", Some("0"), generate).Fail?
  {
    BodyRemSelectorFound();
    BodyRemMarginDeclared(generate);
  }

  lemma BodyRulePreorderZeroRem()
    ensures Preorder(BodyRule(ZeroRemValue)) ==
      [BodyRule(ZeroRemValue), Other("Raw", []), Other("Block", [MarginDeclaration(ZeroRemValue)]),
       MarginDeclaration(ZeroRemValue), ZeroRemValue, Other("Number", []), Other("Dimension", [])]
  {
    LeafPreorder("Number");
    LeafPreorder("Dimension");
    PreorderPair(Other("Number", []), Other("Dimension", []));
    BodyRulePreorder(ZeroRemValue);
  }

  lemma MediaPreorder()
    ensures Preorder(Media) ==
      [Media, Other("Raw", []), Other("Block", [BodyRule(ZeroValue)]), BodyRule(ZeroValue),
       Other("Raw", []), Other("Block", [MarginDeclaration(ZeroValue)]),
       MarginDeclaration(ZeroValue), ZeroValue, Other("Number", [])]
  {
    var block := Other("Block", [BodyRule(ZeroValue)]);
    BodyRulePreorderZero();
    PreorderSingle(BodyRule(ZeroValue));
    PreorderPair(Other("Raw", []), block);
    LeafPreorder("Raw");
  }

  lemma MediaSheetPreorder()
    ensures Preorder(MediaSheet) == [MediaSheet] + Preorder(Media)
  {
    PreorderSingle(Media);
  }

  lemma MediaFound()
    ensures A.AtRule(MediaSheet, "@media").atRule == Some(Media)
  {
    MediaSheetPreorder();
    MediaPreorder();
  }

  lemma MediaMissing(str: string)
    requires str != "@media"
    ensures A.AtRule(MediaSheet, str).atRule == None
  {
    MediaSheetPreorder();
    MediaPreorder();
  }

  lemma MediaConditionText()
    ensures Contains("(max-width: 800px)", "max-width: 800px")
    ensures !Contains("(max-width: 800px)", "min-width: 700px")
  {
    assert OccursAt("(max-width: 800px)", "max-width: 800px", 1);
    forall i | 0 <= i <= 2 ensures !OccursAt("(max-width: 800px)", "min-width: 700px", i) {
      assert "(max-width: 800px)"[i..i + 16][1] != "min-width: 700px"[1];
    }
  }

  /** The only at-rule below Media is Media itself. */
  lemma MediaOnlyAtRule(x: Node)
    requires x in Preorder(Media) && x.Atrule?
    ensures x == Media
  {
    MediaPreorder();
  }

  lemma MediaCondition()
    ensures A.AtRuleIncludes(Media, "max-width: 800px")
    ensures !A.AtRuleIncludes(Media, "min-width: 700px")
  {
    MediaConditionText();
    forall x | x in Preorder(Media) && x.Atrule?
      ensures x == Media
    {
      MediaOnlyAtRule(x);
    }
  }

  lemma MediaBodyFound()
    ensures S.Selector(Media, "body").rule == Some(BodyRule(ZeroValue))
  {
    MediaPreorder();
  }

  lemma MediaSelectorMissing(str: string)
    requires str != "body"
    ensures S.Selector(Media, str).rule == None
  {
    MediaPreorder();
  }

  /** At-rule styles, test/assert-css.test.js:52-71. The label must carry
      the '@': "media" binds nothing. */
  lemma AtRuleStyles()
    ensures A.Exists(A.AtRule(MediaSheet, "@media")).Pass?
    ensures A.NotExists(A.AtRule(MediaSheet, "@font-face")).Pass?
    ensures A.NotExists(A.AtRule(MediaSheet, "media")).Pass?
    ensures var media := A.AtRule(MediaSheet, "@media");
      && media.atRule.Some?
      && A.Includes(media, "max-width: 800px").Pass?
      && A.NotIncludes(media, "min-width: 700px").Pass?
  {
    MediaFound();
    MediaMissing("@font-face");
    MediaMissing("media");
    MediaCondition();
  }

  /** Selectors scoped to the at-rule, test/assert-css.test.js:73-113:
      `body` is found inside `@media` and `html` is not; not.selector looks
      up the same rule as selector. */
  lemma ScopedStyles(generate: S.Generator)
    requires generate(Some(ZeroValue)) == "0"
    ensures var media := A.AtRule(MediaSheet, "@media");
      && media.atRule.Some?
      && S.Exists(A.Selector(media, "body")).Pass?
      && S.NotExists(A.Selector(media, "html")).Pass?
      && S.NotExists(A.NotSelector(media, "html")).Pass?
      && var body := A.Selector(media, "body");
      && body.rule.Some?
      && S.Includes(body, "margin", None, generate).Pass?
      && S.NotIncludes(body, "font-size", None, generate).Pass?
      && S.Includes(body, "margin", Some("0"), generate).Pass?
      && S.NotIncludes(body, "margin", Some("auto"), generate).Pass?
  {
    MediaFound();
    MediaBodyFound();
    MediaSelectorMissing("html");
    BodyMarginDeclared(generate);
    BodyOtherUndeclared("font-size", generate);
  }

  lemma MediaRemFound()
    ensures A.AtRule(MediaRemSheet, "@media").atRule == Some(MediaRem)
  {
    assert Find(MediaRem, A.AtRuleNamed("@media")) == Some(MediaRem);
    assert FindList([MediaRem], A.AtRuleNamed("@media")) == Some(MediaRem);
  }

  lemma MediaRemBodyFound()
    ensures S.Selector(MediaRem, "body").rule == Some(BodyRule(ZeroRemValue))
  {
    var p := S.RuleWithPrelude("body");
    var block := Other("Block", [BodyRule(ZeroRemValue)]);
    assert Find(Other("Raw", []), p) == None;
    assert Find(block, p) == Some(BodyRule(ZeroRemValue)) by {
      assert FindList([BodyRule(ZeroRemValue)], p) == Some(BodyRule(ZeroRemValue));
    }
    assert [Other("Raw", []), block][1..] == [block];
    assert FindList([Other("Raw", []), block], p) == FindList([block], p);
    assert Find(MediaRem, p) == FindList([Other("Raw", []), block], p);
  }

  /** `body` is the first rule of the `0 1rem` sheet. */
  lemma BodyRemSelectorFound()
    ensures S.Selector(BodyRemSheet, "body").rule == Some(BodyRule(ZeroRemValue))
  {
    assert FindList([BodyRule(ZeroRemValue)], S.RuleWithPrelude("body")) == Some(BodyRule(ZeroRemValue));
  }

  lemma BodyRemMarginDeclared(generate: S.Generator)
    ensures S.DeclaredValue(BodyRule(ZeroRemValue), "margin", generate) == Some(generate(Some(ZeroRemValue)))
  {
    BodyRulePreorderZeroRem();
    MarginValueNode(ZeroRemValue);
  }

  /** The value-validator test inside `@media`,
      test/assert-css.test.js:115-120: as at the root, the function is
      compared through its source text, so includes fails, while the
      rendered text itself passes. */
  lemma ScopedFunctionValueComparedAsText(generate: S.Generator)
    requires generate(Some(ZeroRemValue)) == "0 1rem"
    ensures var media := A.AtRule(MediaRemSheet, "@media");
      && media.atRule.Some?
      && var body := A.Selector(media, "body");
      && body.rule.Some?
      && S.Includes(body, "margin", Some("(actual) => actual.includes('1rem')"), generate).Fail?
      && S.Includes(body, "margin", Some("0 1rem"), generate).Pass?
  {
    MediaRemFound();
    MediaRemBodyFound();
    BodyRemMarginDeclared(generate);
  }
}
