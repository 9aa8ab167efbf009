/** Documents as the XPath engine of pugixml walks them. A node is named by its path: the position of its document in
    memory, then one child index a level; the node links are functions of the path. */
module XPathTree {
  import opened Bytes

  type path = seq<nat>

  datatype Kind = Document | Element | Pcdata | Cdata | Comment | Pi | Declaration | Doctype

  /** A null name is an empty one. */
  datatype Tree = Node(kind: Kind, name: bytes, attributes: seq<bytes>, children: seq<Tree>)

  /** The documents in memory, by address. */
  type forest = seq<Tree>

  predicate Inside(t: Tree, q: path) {
    q == [] || (q[0] < |t.children| && Inside(t.children[q[0]], q[1..]))
  }

  predicate Valid(f: forest, p: path) {
    p != [] && p[0] < |f| && Inside(f[p[0]], p[1..])
  }

  function Below(t: Tree, q: path): Tree
    requires Inside(t, q)
  {
    if q == [] then t else Below(t.children[q[0]], q[1..])
  }

  function Subtree(f: forest, p: path): Tree
    requires Valid(f, p)
  {
    Below(f[p[0]], p[1..])
  }

  // ----- links -----

  datatype Link = Null | To(node: path)

  function Parent(p: path): Link
    requires p != []
  {
    if |p| == 1 then Null else To(p[..|p| - 1])
  }

  function FirstChild(f: forest, p: path): Link
    requires Valid(f, p)
  {
    if Subtree(f, p).children == [] then Null else To(p + [0])
  }

  /** How many nodes share the parent of `p`; a document has no siblings. */
  function Siblings(f: forest, p: path): (n: nat)
    requires Valid(f, p) && |p| > 1
    ensures p[|p| - 1] < n
  {
    ParentValid(f, p);
    |Subtree(f, p[..|p| - 1]).children|
  }

  function NextSibling(f: forest, p: path): Link
    requires Valid(f, p)
  {
    if |p| == 1 || p[|p| - 1] + 1 == Siblings(f, p) then Null else To(p[..|p| - 1] + [p[|p| - 1] + 1])
  }

  /** `prev_sibling_c`: the previous sibling, or the last one of the list. */
  function PrevSiblingC(f: forest, p: path): path
    requires Valid(f, p)
  {
    if |p| == 1 then p
    else p[..|p| - 1] + [if p[|p| - 1] == 0 then Siblings(f, p) - 1 else p[|p| - 1] - 1]
  }

  lemma {:induction false} InsideExtend(t: Tree, q: path, r: path)
    ensures Inside(t, q + r) <==> Inside(t, q) && Inside(Below(t, q), r)
    ensures Inside(t, q) && Inside(Below(t, q), r) ==> Below(t, q + r) == Below(Below(t, q), r)
    decreases |q|
  {
    if q == [] {
      assert [] + r == r;
    } else {
      assert (q + r)[1..] == q[1..] + r;
      if q[0] < |t.children| {
        InsideExtend(t.children[q[0]], q[1..], r);
      }
    }
  }

  lemma ValidExtend(f: forest, p: path, r: path)
    requires p != []
    ensures Valid(f, p + r) <==> Valid(f, p) && Inside(Subtree(f, p), r)
    ensures Valid(f, p + r) ==> Subtree(f, p + r) == Below(Subtree(f, p), r)
  {
    assert (p + r)[1..] == p[1..] + r;
    if p[0] < |f| {
      InsideExtend(f[p[0]], p[1..], r);
    }
  }

  lemma PrefixValid(f: forest, p: path, k: nat)
    requires Valid(f, p) && 0 < k <= |p|
    ensures Valid(f, p[..k])
    ensures k < |p| ==> p[k] < |Subtree(f, p[..k]).children|
  {
    assert p == p[..k] + p[k..];
    ValidExtend(f, p[..k], p[k..]);
  }

  lemma ParentValid(f: forest, p: path)
    requires Valid(f, p) && |p| > 1
    ensures Valid(f, p[..|p| - 1]) && p[|p| - 1] < |Subtree(f, p[..|p| - 1]).children|
  {
    PrefixValid(f, p, |p| - 1);
  }

  lemma ChildValid(f: forest, p: path, i: nat)
    requires p != []
    ensures Valid(f, p + [i]) <==> Valid(f, p) && i < |Subtree(f, p).children|
    ensures (p + [i])[..|p|] == p && (p + [i])[|p|] == i
  {
    ValidExtend(f, p, [i]);
    if Valid(f, p) {
      var t := Subtree(f, p);
      assert Inside(t, [i]) <==> i < |t.children|;
    }
  }

  /** The links stay inside the document. */
  lemma LinksValid(f: forest, p: path)
    requires Valid(f, p)
    ensures FirstChild(f, p).To? ==> Valid(f, FirstChild(f, p).node)
    ensures NextSibling(f, p).To? ==> Valid(f, NextSibling(f, p).node)
    ensures Valid(f, PrevSiblingC(f, p))
    ensures Parent(p).To? ==> Valid(f, Parent(p).node)
  {
    ChildValid(f, p, 0);
    if |p| > 1 {
      var u := p[..|p| - 1];
      ParentValid(f, p);
      forall i: nat ensures Valid(f, u + [i]) <==> i < |Subtree(f, u).children| {
        ChildValid(f, u, i);
      }
    }
  }

  // ----- document order -----

  /** The length of the common prefix. */
  function Common(a: path, b: path): (k: nat)
    ensures k <= |a| && k <= |b| && a[..k] == b[..k]
    ensures k < |a| && k < |b| ==> a[k] != b[k]
  {
    if a == [] || b == [] || a[0] != b[0] then 0 else
    var k := Common(a[1..], b[1..]);
    assert a[..k + 1] == [a[0]] + a[1..][..k] && b[..k + 1] == [b[0]] + b[1..][..k];
    k + 1
  }

  /** Document order: an ancestor comes before its descendants, and below the last common ancestor the child index
      decides. */
  predicate Before(a: path, b: path) {
    var k := Common(a, b);
    k < |b| && (k == |a| || a[k] < b[k])
  }

  lemma SameAt(a: path, b: path, k: nat, i: nat)
    requires i < k <= |a| && k <= |b| && a[..k] == b[..k]
    ensures a[i] == b[i]
  {
    assert a[..k][i] == b[..k][i];
  }

  lemma SameWhole(a: path, b: path)
    requires |a| == |b| && a[..|a|] == b[..|a|]
    ensures a == b
  {
    assert a[..|a|] == a && b[..|b|] == b;
  }

  lemma CommonIs(a: path, b: path, k: nat)
    requires k <= |a| && k <= |b| && a[..k] == b[..k] && (k < |a| && k < |b| ==> a[k] != b[k])
    ensures Common(a, b) == k
  {
    var c := Common(a, b);
    if c < k {
      SameAt(a, b, k, c);
    } else if k < c {
      SameAt(a, b, c, k);
    }
  }

  /** Deciding the order at the first difference. */
  lemma BeforeAt(a: path, b: path, k: nat)
    requires k <= |a| && k <= |b| && a[..k] == b[..k] && (k < |a| && k < |b| ==> a[k] != b[k])
    ensures Before(a, b) <==> k < |b| && (k == |a| || a[k] < b[k])
  {
    CommonIs(a, b, k);
  }

  predicate IsPrefix(a: path, b: path) {
    |a| <= |b| && b[..|a|] == a
  }

  lemma PrefixBefore(a: path, b: path)
    requires IsPrefix(a, b)
    ensures Before(a, b) <==> a != b
    ensures !Before(b, a)
  {
    assert a[..|a|] == a;
    BeforeAt(a, b, |a|);
    BeforeAt(b, a, |a|);
  }

  lemma BeforeIsAsymmetric(a: path, b: path)
    ensures Before(a, b) ==> !Before(b, a) && a != b
    ensures a != b ==> Before(a, b) || Before(b, a)
  {
    var k := Common(a, b);
    BeforeAt(b, a, k);
    if k == |a| == |b| {
      SameWhole(a, b);
    }
    if a == b {
      BeforeAt(a, b, |a|);
    }
  }

  lemma BeforeIsTransitive(a: path, b: path, c: path)
    requires Before(a, b) && Before(b, c)
    ensures Before(a, c)
  {
    var k, m := Common(a, b), Common(b, c);
    var n := if k < m then k else m;
    assert a[..n] == a[..k][..n] == b[..n] == b[..m][..n] == c[..n];
    if k < m {
      assert b[k] == b[..m][k] == c[..m][k] == c[k];
    } else if m < k {
      assert a[m] == a[..k][m] == b[..k][m] == b[m];
    }
    BeforeAt(a, c, n);
  }

  /** Document order is a strict total order on the nodes of all documents. */
  lemma DocumentOrderIsStrictTotal(a: path, b: path, c: path)
    ensures !Before(a, a)
    ensures Before(a, b) && Before(b, c) ==> Before(a, c)
    ensures a != b ==> (Before(a, b) <==> !Before(b, a))
  {
    BeforeIsAsymmetric(a, a);
    BeforeIsAsymmetric(a, b);
    if Before(a, b) && Before(b, c) {
      BeforeIsTransitive(a, b, c);
    }
  }

  // ----- node_is_before -----

  /** Children of one parent, or two documents: the nodes decide for everything below them. */
  lemma SiblingsDecide(a: path, b: path, x: path, y: path)
    requires |a| == |b| > 0 && a != b && a[..|a| - 1] == b[..|b| - 1] && IsPrefix(a, x) && IsPrefix(b, y)
    ensures Before(x, y) <==> a[|a| - 1] < b[|b| - 1]
  {
    var k := |a| - 1;
    assert a == a[..k] + [a[k]] && b == b[..k] + [b[k]];
    assert x[..k] == x[..k + 1][..k] && y[..k] == y[..k + 1][..k];
    assert x[k] == x[..k + 1][k] && y[k] == y[..k + 1][k];
    BeforeAt(x, y, k);
  }

  /** `node_is_before_sibling`: documents by address, siblings by walking both chains in step. */
  method NodeIsBeforeSibling(f: forest, ln: path, rn: path) returns (r: bool)
    requires Valid(f, ln) && Valid(f, rn) && Parent(ln) == Parent(rn) && ln != rn
    ensures r <==> ln[|ln| - 1] < rn[|rn| - 1]
  {
    assert |ln| == |rn| && ln[..|ln| - 1] == rn[..|ln| - 1];
    assert ln == ln[..|ln| - 1] + [ln[|ln| - 1]] && rn == rn[..|ln| - 1] + [rn[|ln| - 1]];
    if Parent(ln) == Null {
      return ln[0] < rn[0];
    }
    ParentValid(f, ln);
    ParentValid(f, rn);
    r := WalkInStep(f, ln, rn, ln[..|ln| - 1], ln[|ln| - 1], rn[|rn| - 1]);
  }

  /** The link to child `i` of `u`, which has `n` of them. */
  function Chain(u: path, i: nat, n: nat): Link {
    if i < n then To(u + [i]) else Null
  }

  lemma ChainIndex(u: path, i: nat, j: nat)
    ensures u + [i] == u + [j] <==> i == j
  {
    assert (u + [i])[|u|] == i && (u + [j])[|u|] == j;
  }

  method WalkInStep(f: forest, ln: path, rn: path, ghost u: path, ghost a: nat, ghost b: nat) returns (r: bool)
    requires Valid(f, u) && a < |Subtree(f, u).children| && b < |Subtree(f, u).children| && a != b
    requires ln == u + [a] && rn == u + [b]
    ensures r <==> a < b
  {
    hide Valid, Subtree, NextSibling;
    ghost var n, i := |Subtree(f, u).children|, 0;
    var ls, rs := To(ln), To(rn);
    while ls.To? && rs.To?
      invariant a + i <= n && b + i <= n
      invariant ls == Chain(u, a + i, n) && rs == Chain(u, b + i, n)
      invariant (a < b ==> a + i <= b) && (b < a ==> b + i <= a)
      decreases n - i
    {
      ChainIndex(u, a + i, b);
      ChainIndex(u, b + i, a);
      if ls.node == rn { return true; }
      if rs.node == ln { return false; }
      StepRight(f, u, a + i, n);
      StepRight(f, u, b + i, n);
      ls, rs := NextSibling(f, ls.node), NextSibling(f, rs.node);
      i := i + 1;
    }
    r := rs == Null;
  }

  lemma StepRight(f: forest, u: path, i: nat, n: nat)
    requires Valid(f, u) && n == |Subtree(f, u).children| && i < n
    ensures Valid(f, u + [i])
    ensures NextSibling(f, u + [i]) == Chain(u, i + 1, n)
  {
    ChildValid(f, u, i);
  }

  /** The link to the ancestor `i` levels up. */
  function Up(p: path, i: nat): Link
    requires i <= |p|
  {
    if i == |p| then Null else To(p[..|p| - i])
  }

  lemma UpStep(p: path, i: nat)
    requires i < |p|
    ensures Parent(Up(p, i).node) == Up(p, i + 1)
  {
    assert p[..|p| - i][..|p| - i - 1] == p[..|p| - i - 1];
  }

  lemma UpAtZero(p: path)
    requires p != []
    ensures Up(p, 0) == To(p)
  {
    assert p[..|p|] == p;
  }

  /** Climb until the parents agree. */
  method ClimbToSiblings(f: forest, ln: path, rn: path) returns (r: bool)
    requires Valid(f, ln) && Valid(f, rn) && |ln| == |rn| && ln != rn
    ensures r <==> Before(ln, rn)
  {
    var lp, rp := ln, rn;
    ghost var i := 0;
    UpAtZero(ln);
    UpAtZero(rn);
    while Parent(lp) != Parent(rp)
      invariant i < |ln| && lp == ln[..|ln| - i] && rp == rn[..|ln| - i] && lp != rp
      decreases |ln| - i
    {
      UpStep(ln, i);
      UpStep(rn, i);
      lp, rp := Parent(lp).node, Parent(rp).node;
      i := i + 1;
    }
    PrefixValid(f, ln, |lp|);
    PrefixValid(f, rn, |rp|);
    SiblingsDecide(lp, rp, ln, rn);
    r := NodeIsBeforeSibling(f, lp, rp);
  }

  /** `node_is_before`: both chains are climbed at once, then once more from the same height. */
  method NodeIsBefore(f: forest, left: path, right: path) returns (r: bool)
    requires Valid(f, left) && Valid(f, right) && left != right
    ensures r <==> Before(left, right)
  {
    var ln, rn := left, right;
    var lp, rp := To(ln), To(rn);
    ghost var i := 0;
    UpAtZero(ln);
    UpAtZero(rn);
    while lp.To? && rp.To? && Parent(lp.node) != Parent(rp.node)
      invariant i <= |ln| && i <= |rn| && lp == Up(ln, i) && rp == Up(rn, i) && lp != rp
      decreases |ln| - i
    {
      UpStep(ln, i);
      UpStep(rn, i);
      lp, rp := Parent(lp.node), Parent(rp.node);
      i := i + 1;
    }
    if lp.To? && rp.To? {
      PrefixValid(f, ln, |lp.node|);
      PrefixValid(f, rn, |rp.node|);
      SameHeight(lp.node, rp.node);
      SiblingsDecide(lp.node, rp.node, ln, rn);
      r := NodeIsBeforeSibling(f, lp.node, rp.node);
      return;
    }
    var leftHigher := lp == Null;
    ln := Normalize(ln, lp, i);
    rn := Normalize(rn, rp, i);
    if ln == rn {
      PrefixBefore(ln, left);
      PrefixBefore(rn, right);
      return leftHigher;
    }
    PrefixValid(f, left, |ln|);
    PrefixValid(f, right, |rn|);
    r := ClimbToSiblings(f, ln, rn);
    PrefixesDecide(ln, rn, left, right);
  }

  lemma SameHeight(a: path, b: path)
    requires a != [] && b != [] && Parent(a) == Parent(b)
    ensures |a| == |b| && a[..|a| - 1] == b[..|b| - 1]
  {
  }

  /** Neither of two nodes of one height is above the other, so they decide for everything below them. */
  lemma PrefixesDecide(a: path, b: path, x: path, y: path)
    requires |a| == |b| && a != b && IsPrefix(a, x) && IsPrefix(b, y)
    ensures Before(x, y) <==> Before(a, b)
  {
    hide Before, Common;
    var k := FirstDifference(a, b);
    SameAt(a, x[..|a|], |a|, k);
    SameAt(b, y[..|b|], |b|, k);
    assert x[..k] == x[..|a|][..k] && y[..k] == y[..|b|][..k];
    BeforeAt(a, b, k);
    BeforeAt(x, y, k);
  }

  lemma FirstDifference(a: path, b: path) returns (k: nat)
    requires |a| == |b| && a != b
    ensures k < |a| && a[..k] == b[..k] && a[k] != b[k]
  {
    k := Common(a, b);
    if k == |a| {
      SameWhole(a, b);
    }
  }

  /** `while (p) { p = p->parent; n = n->parent; }` */
  method Normalize(n: path, p: Link, ghost i: nat) returns (m: path)
    requires n != [] && 0 < i <= |n| && p == Up(n, i)
    ensures m == n[..i]
  {
    var lp := p;
    m := n;
    ghost var j := i;
    while lp.To?
      invariant i <= j <= |n| && lp == Up(n, j) && m == n[..|n| - (j - i)]
      decreases |n| - j
    {
      UpStep(n, j);
      UpStep(n, j - i);
      lp, m := Parent(lp.node), Parent(m).node;
      j := j + 1;
    }
  }

  /** `node_is_ancestor` */
  method NodeIsAncestor(parent: path, node: path) returns (r: bool)
    requires parent != [] && node != []
    ensures r <==> IsPrefix(parent, node)
  {
    var n := To(node);
    ghost var i := 0;
    UpAtZero(node);
    while n.To? && n.node != parent
      invariant i <= |node| && n == Up(node, i)
      invariant forall j :: |node| - i < j <= |node| ==> node[..j] != parent
      decreases |node| - i
    {
      UpStep(node, i);
      n := Parent(n.node);
      i := i + 1;
    }
    r := n == To(parent);
  }

  // ----- nodes and attributes -----

  /** An `xpath_node` that is not null. */
  datatype XNode = Elem(node: path) | Attr(parent: path, index: nat)
  {
    function Home(): path {
      if Elem? then node else parent
    }

    predicate In(f: forest) {
      Valid(f, Home()) && (Attr? ==> index < |Subtree(f, parent).attributes|)
    }
  }

  /** Attributes follow their element, in their own order, and come before its children. */
  predicate BeforeX(a: XNode, b: XNode) {
    Before(a.Home(), b.Home())
    || (a.Home() == b.Home() && b.Attr? && (a.Elem? || a.index < b.index))
  }

  lemma BeforeXIsStrictTotal(a: XNode, b: XNode, c: XNode)
    ensures !BeforeX(a, a)
    ensures BeforeX(a, b) && BeforeX(b, c) ==> BeforeX(a, c)
    ensures a != b ==> (BeforeX(a, b) <==> !BeforeX(b, a))
  {
    DocumentOrderIsStrictTotal(a.Home(), b.Home(), c.Home());
    BeforeIsAsymmetric(a.Home(), a.Home());
    BeforeIsAsymmetric(b.Home(), c.Home());
  }
}
