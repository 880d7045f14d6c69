/** The CSS syntax tree the assertion chain queries, and the library's
    first-match preorder search over it (csstree.find). */
module Ast {

  datatype Option<+T> = None | Some(value: T)

  /** A node of the tree produced by the parser with rule and at-rule
      preludes left as raw text. Every kind has ordered children; node kinds
      this core never inspects (Block, Raw, Identifier, ...) are Other. An
      at-rule's prelude is optional (`@font-face` has none) and is called its
      condition here. */
  datatype Node =
    | Stylesheet(children: seq<Node>)
    | Rule(prelude: string, children: seq<Node>)
    | Atrule(name: string, condition: Option<string>, children: seq<Node>)
    | Declaration(property: string, children: seq<Node>)
    | Value(children: seq<Node>)
    | Other(kind: string, children: seq<Node>)

  /** The nodes of the subtree rooted at n in the order the walker visits
      them: the node, then each child's subtree in document order. */
  function Preorder(n: Node): (r: seq<Node>)
    ensures |r| > 0 && r[0] == n
    decreases n
  {
    [n] + PreorderList(n.children)
  }

  function PreorderList(ns: seq<Node>): seq<Node>
    decreases ns
  {
    if ns == [] then [] else Preorder(ns[0]) + PreorderList(ns[1..])
  }

  /** The first element of s that p accepts: a plain linear search, the
      reference against which the tree search is proved. */
  function First(s: seq<Node>, p: Node -> bool): (r: Option<Node>)
    ensures r.None? <==> forall i :: 0 <= i < |s| ==> !p(s[i])
    ensures r.Some? ==> exists i :: 0 <= i < |s| && s[i] == r.value && p(s[i]) && IsFirstAt(s, p, i)
  {
    if s == [] then None
    else if p(s[0]) then (assert IsFirstAt(s, p, 0); Some(s[0]))
    else
      var rest := First(s[1..], p);
      if rest.Some? then
        (var i :| 0 <= i < |s[1..]| && s[1..][i] == rest.value && p(s[1..][i]) && IsFirstAt(s[1..], p, i);
         assert IsFirstAt(s, p, i + 1);
         rest)
      else rest
  }

  /** No element of s before index i is accepted by p. */
  predicate IsFirstAt(s: seq<Node>, p: Node -> bool, i: int)
    requires 0 <= i <= |s|
  {
    forall j :: 0 <= j < i ==> !p(s[j])
  }

  /** csstree.find: visit n, then its children in document order, and
      return the first node p accepts, or nothing. */
  function Find(n: Node, p: Node -> bool): (r: Option<Node>)
    ensures r.Some? ==> p(r.value)
    ensures p(n) ==> r == Some(n)
    decreases n
  {
    if p(n) then Some(n) else FindList(n.children, p)
  }

  function FindList(ns: seq<Node>, p: Node -> bool): (r: Option<Node>)
    ensures r.Some? ==> p(r.value)
    ensures ns == [] ==> r.None?
    decreases ns
  {
    if ns == [] then None
    else
      match Find(ns[0], p)
      case Some(x) => Some(x)
      case None => FindList(ns[1..], p)
  }

  /** Searching a concatenation finds in the first part if anything there
      matches, otherwise in the second. */
  lemma {:induction false} FirstAppend(a: seq<Node>, b: seq<Node>, p: Node -> bool)
    ensures First(a + b, p) == if First(a, p).Some? then First(a, p) else First(b, p)
    decreases |a|
  {
    if a == [] {
      assert a + b == b;
    } else {
      assert (a + b)[1..] == a[1..] + b;
      if !p(a[0]) {
        FirstAppend(a[1..], b, p);
      }
    }
  }

  /** The tree search is exactly the first match of the preorder listing. */
  lemma {:induction false} FindIsFirstInPreorder(n: Node, p: Node -> bool)
    ensures Find(n, p) == First(Preorder(n), p)
    decreases n
  {
    FirstAppend([n], PreorderList(n.children), p);
    FindListIsFirstInPreorder(n.children, p);
  }

  lemma {:induction false} FindListIsFirstInPreorder(ns: seq<Node>, p: Node -> bool)
    ensures FindList(ns, p) == First(PreorderList(ns), p)
    decreases ns
  {
    if ns != [] {
      FindIsFirstInPreorder(ns[0], p);
      FindListIsFirstInPreorder(ns[1..], p);
      FirstAppend(Preorder(ns[0]), PreorderList(ns[1..]), p);
    }
  }

  /** What the search returns: the node p accepts that comes first in
      preorder within n's subtree, and nothing exactly when no node of the
      subtree is accepted. */
  lemma FindSpec(n: Node, p: Node -> bool)
    ensures Find(n, p).None? <==> forall x :: x in Preorder(n) ==> !p(x)
    ensures Find(n, p).Some? ==>
      var s := Preorder(n);
      exists i :: 0 <= i < |s| && s[i] == Find(n, p).value && p(s[i]) && IsFirstAt(s, p, i)
  {
    FindIsFirstInPreorder(n, p);
  }

  /** A found node is accepted by the predicate and lies in n's subtree. */
  lemma FindSound(n: Node, p: Node -> bool)
    requires Find(n, p).Some?
    ensures p(Find(n, p).value) && Find(n, p).value in Preorder(n)
  {
    FindSpec(n, p);
  }

  /** The search is determined by its specification: a node of the subtree
      that p accepts, with no accepted node before it in preorder, is the
      node Find returns. */
  lemma FindUnique(n: Node, p: Node -> bool, i: int)
    requires 0 <= i < |Preorder(n)| && p(Preorder(n)[i])
    requires IsFirstAt(Preorder(n), p, i)
    ensures Find(n, p) == Some(Preorder(n)[i])
  {
    FindSpec(n, p);
    var s := Preorder(n);
    var k :| 0 <= k < |s| && s[k] == Find(n, p).value && p(s[k]) && IsFirstAt(s, p, k);
    assert k == i;
  }

  /** Every node of a child's subtree is in its parent's subtree. */
  lemma {:induction false} PreorderListContains(ns: seq<Node>, i: int, x: Node)
    requires 0 <= i < |ns| && x in Preorder(ns[i])
    ensures x in PreorderList(ns)
    decreases ns
  {
    if i > 0 {
      PreorderListContains(ns[1..], i - 1, x);
    }
  }

  /** Membership in a forest's listing comes from one of its trees. */
  lemma {:induction false} PreorderListMember(ns: seq<Node>, x: Node)
    requires x in PreorderList(ns)
    ensures exists i :: 0 <= i < |ns| && x in Preorder(ns[i])
    decreases ns
  {
    if x !in Preorder(ns[0]) {
      PreorderListMember(ns[1..], x);
      var i :| 0 <= i < |ns[1..]| && x in Preorder(ns[1..][i]);
      assert x in Preorder(ns[i + 1]);
    }
  }

  /** Subtrees nest: a node in the subtree of a node in n's subtree is in
      n's subtree. */
  lemma {:induction false} SubtreeTransitive(n: Node, y: Node, x: Node)
    requires y in Preorder(n) && x in Preorder(y)
    ensures x in Preorder(n)
    decreases n
  {
    if y != n {
      PreorderListMember(n.children, y);
      var i :| 0 <= i < |n.children| && y in Preorder(n.children[i]);
      SubtreeTransitive(n.children[i], y, x);
      PreorderListContains(n.children, i, x);
    }
  }
}
