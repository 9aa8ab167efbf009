/** The nodes of a document in document order, and the steps from one to the next that the axis walks are made of. */
module XPathOrder {
  import opened XPathTree

  // ----- the order as a list -----

  function PreOrder(t: Tree, p: path): seq<path>
    decreases t, 0
  {
    [p] + PreOrderList(t.children, p, 0)
  }

  function PreOrderList(ts: seq<Tree>, p: path, i: nat): seq<path>
    requires i <= |ts|
    decreases ts, |ts| - i
  {
    if i == |ts| then [] else PreOrder(ts[i], p + [i]) + PreOrderList(ts, p, i + 1)
  }

  /** All nodes of document `d`. */
  function Order(f: forest, d: nat): seq<path>
    requires d < |f|
  {
    PreOrder(f[d], [d])
  }

  predicate Sorted(s: seq<path>) {
    forall i, j :: 0 <= i < j < |s| ==> Before(s[i], s[j])
  }

  predicate AllBefore(a: seq<path>, b: seq<path>) {
    forall x, y :: x in a && y in b ==> Before(x, y)
  }

  lemma SortedConcat(a: seq<path>, b: seq<path>)
    requires Sorted(a) && Sorted(b) && AllBefore(a, b)
    ensures Sorted(a + b)
  {
    hide Before;
    var s := a + b;
    forall i, j | 0 <= i < j < |s| ensures Before(s[i], s[j]) {
      if i < |a| <= j {
        assert s[i] in a && s[j] in b;
      }
    }
  }

  lemma {:induction false} InPreOrder(t: Tree, p: path, q: path)
    ensures q in PreOrder(t, p) <==> IsPrefix(p, q) && Inside(t, q[|p|..])
    decreases t, 0
  {
    InPreOrderList(t.children, p, 0, q);
    if q == p {
      assert q[|p|..] == [];
    } else if IsPrefix(p, q) {
      if |q| == |p| {
        SameWhole(p, q);
      }
      assert q[|p|..][1..] == q[|p| + 1..];
    }
  }

  lemma {:induction false} InPreOrderList(ts: seq<Tree>, p: path, i: nat, q: path)
    requires i <= |ts|
    ensures q in PreOrderList(ts, p, i)
      <==> IsPrefix(p, q) && |q| > |p| && i <= q[|p|] < |ts| && Inside(ts[q[|p|]], q[|p| + 1..])
    decreases ts, |ts| - i
  {
    if i < |ts| {
      InPreOrder(ts[i], p + [i], q);
      InPreOrderList(ts, p, i + 1, q);
      ChildPrefix(p, i, q);
    }
  }

  lemma ChildPrefix(p: path, i: nat, q: path)
    ensures IsPrefix(p + [i], q) <==> IsPrefix(p, q) && |q| > |p| && q[|p|] == i
  {
    if |q| > |p| {
      assert q[..|p| + 1] == q[..|p|] + [q[|p|]];
      assert (p + [i])[..|p|] == p && (p + [i])[|p|] == i;
    }
  }

  lemma {:induction false} PreOrderSorted(t: Tree, p: path)
    ensures Sorted(PreOrder(t, p))
    decreases t, 0
  {
    var rest := PreOrderList(t.children, p, 0);
    PreOrderListSorted(t.children, p, 0);
    forall x, y | x in [p] && y in rest ensures Before(x, y) {
      InPreOrderList(t.children, p, 0, y);
      PrefixBefore(p, y);
    }
    SortedConcat([p], rest);
  }

  lemma {:induction false} PreOrderListSorted(ts: seq<Tree>, p: path, i: nat)
    requires i <= |ts|
    ensures Sorted(PreOrderList(ts, p, i))
    decreases ts, |ts| - i
  {
    if i < |ts| {
      var a, b := PreOrder(ts[i], p + [i]), PreOrderList(ts, p, i + 1);
      PreOrderSorted(ts[i], p + [i]);
      PreOrderListSorted(ts, p, i + 1);
      forall x, y | x in a && y in b ensures Before(x, y) {
        InPreOrder(ts[i], p + [i], x);
        InPreOrderList(ts, p, i + 1, y);
        ChildPrefix(p, i, x);
        BeforeAt(x, y, |p|);
      }
      SortedConcat(a, b);
    }
  }

  /** The list holds every node of the document once, in document order. */
  lemma OrderIsExact(f: forest, d: nat)
    requires d < |f|
    ensures Sorted(Order(f, d))
    ensures forall q :: q in Order(f, d) <==> Valid(f, q) && q[0] == d
  {
    PreOrderSorted(f[d], [d]);
    forall q ensures q in Order(f, d) <==> Valid(f, q) && q[0] == d {
      InPreOrder(f[d], [d], q);
      if q != [] {
        assert q[..1] == [q[0]];
      }
    }
  }

  // ----- prefixes and order -----

  /** `z` comes after the whole subtree of `x`. */
  predicate After(x: path, z: path) {
    Before(x, z) && !IsPrefix(x, z)
  }

  lemma PrefixTransitive(a: path, b: path, c: path)
    requires IsPrefix(a, b) && IsPrefix(b, c)
    ensures IsPrefix(a, c)
  {
    assert c[..|a|] == c[..|b|][..|a|];
  }

  /** The nodes below `n` are an interval of document order. */
  lemma SubtreeIsConvex(n: path, y: path, z: path)
    requires IsPrefix(n, z) && (Before(n, y) || n == y) && Before(y, z)
    ensures IsPrefix(n, y)
  {
    var k := Common(y, z);
    BeforeIsAsymmetric(n, y);
    if k >= |n| {
      assert y[..|n|] == y[..k][..|n|] == z[..k][..|n|] == z[..|n|];
    } else {
      assert z[..k] == z[..|n|][..k] == n[..k];
      assert z[k] == z[..|n|][k] == n[k];
      BeforeAt(y, n, k);
    }
  }

  /** What is after `x` and below the parent of `x` is below a later sibling. */
  lemma AfterSibling(u: path, i: nat, z: path)
    requires Before(u + [i], z) && IsPrefix(u, z) && !IsPrefix(u + [i], z)
    ensures |z| > |u| && z[|u|] > i
  {
    var x := u + [i];
    assert x[..|u|] == u && x[|u|] == i;
    if |z| == |u| {
      SameWhole(u, z);
      PrefixBefore(u, x);
    } else {
      ChildPrefix(u, i, z);
      BeforeAt(x, z, |u|);
    }
  }

  /** Nothing but the subtree of a child lies between it and the next child. */
  lemma BetweenSiblings(u: path, i: nat, z: path)
    requires Before(u + [i], z) && Before(z, u + [i + 1])
    ensures IsPrefix(u + [i], z)
  {
    var x, y := u + [i], u + [i + 1];
    assert x[..|u|] == u && y[..|u|] == u && y[|u|] == i + 1;
    PrefixBefore(u, x);
    BeforeIsTransitive(u, x, z);
    SubtreeIsConvex(u, z, y);
    if !IsPrefix(x, z) {
      AfterSibling(u, i, z);
      NotBeforeNext(u, i, z);
    }
  }

  lemma NotBeforeNext(u: path, i: nat, z: path)
    requires IsPrefix(u, z) && |z| > |u| && z[|u|] > i
    ensures !Before(z, u + [i + 1])
  {
    var y := u + [i + 1];
    assert y[..|u|] == u && y[|u|] == i + 1;
    if z[|u|] == i + 1 {
      ChildPrefix(u, i + 1, z);
      PrefixBefore(y, z);
    } else {
      BeforeAt(z, y, |u|);
    }
  }

  lemma BelowIsAfter(x0: path, u: path, i: nat)
    requires IsPrefix(u + [i], x0)
    ensures After(x0, u + [i + 1])
  {
    var x, y := u + [i], u + [i + 1];
    ChildPrefix(u, i, x0);
    assert y[..|u|] == u && y[|u|] == i + 1;
    BeforeAt(x0, y, |u|);
    if IsPrefix(x0, y) {
      ChildPrefix(u, i, y);
      PrefixTransitive(x, x0, y);
    }
  }

  // ----- the next node -----

  /** Everything below `top` comes before, or is below, `x0`. */
  ghost predicate Exhausted(f: forest, top: path, x0: path) {
    forall z :: Valid(f, z) && IsPrefix(top, z) ==> !After(x0, z)
  }

  /** `y` is the first node after the subtree of `x0`. */
  ghost predicate FirstAfter(f: forest, x0: path, y: path) {
    Valid(f, y) && After(x0, y) && forall z :: Valid(f, z) && After(x0, z) ==> !Before(z, y)
  }

  lemma ExhaustedUp(f: forest, x: path, x0: path)
    requires Valid(f, x) && |x| > 1 && IsPrefix(x, x0) && Exhausted(f, x, x0) && NextSibling(f, x) == Null
    ensures Exhausted(f, x[..|x| - 1], x0)
  {
    var u, i := x[..|x| - 1], x[|x| - 1];
    assert x == u + [i];
    ParentValid(f, x);
    forall z | Valid(f, z) && IsPrefix(u, z) ensures !After(x0, z) {
      if After(x0, z) {
        PrefixBefore(x, x0);
        if x != x0 {
          BeforeIsTransitive(x, x0, z);
        }
        AfterSibling(u, i, z);
        PrefixValid(f, z, |u|);
      }
    }
  }

  lemma FirstAfterSibling(f: forest, x: path, x0: path)
    requires Valid(f, x) && IsPrefix(x, x0) && Exhausted(f, x, x0) && NextSibling(f, x).To?
    ensures FirstAfter(f, x0, NextSibling(f, x).node)
  {
    hide Before, IsPrefix, PrevSiblingC, FirstChild, Inside;
    var u, i := x[..|x| - 1], x[|x| - 1];
    var y := u + [i + 1];
    assert x == u + [i];
    LinksValid(f, x);
    BelowIsAfter(x0, u, i);
    forall z | Valid(f, z) && After(x0, z) ensures !Before(z, y) {
      if Before(z, y) {
        PrefixBefore(x, x0);
        if x != x0 {
          BeforeIsTransitive(x, x0, z);
        }
        BetweenSiblings(u, i, z);
      }
    }
  }

  /** The root of the walk: `stop`, or the document. */
  function Top(x: path, stop: Link): path
    requires x != []
  {
    if stop.To? then stop.node else x[..1]
  }

  /** Leave the subtree of `x0`: climb while there is no next sibling, but not to `stop`. */
  method ClimbRight(f: forest, x0: path, stop: Link) returns (r: Link)
    requires Valid(f, x0) && (stop.To? ==> stop.node != [] && IsPrefix(stop.node, x0) && stop.node != x0)
    ensures r.Null? ==> Exhausted(f, Top(x0, stop), x0)
    ensures r.To? ==> FirstAfter(f, x0, r.node) && r.node[0] == x0[0]
    ensures r.To? && stop.To? ==> IsPrefix(stop.node, r.node) && r.node != stop.node
  {
    hide Valid, NextSibling, Before, Exhausted, FirstAfter, PrevSiblingC;
    var x := x0;
    assert x0[..|x0|] == x0;
    ValidNotEmpty(f, x0);
    ExhaustedSelf(f, x0);
    while NextSibling(f, x) == Null
      invariant Valid(f, x) && x != [] && IsPrefix(x, x0) && Exhausted(f, x, x0)
      invariant stop.To? ==> IsPrefix(stop.node, x) && stop.node != x
      decreases |x|
    {
      var up := Parent(x);
      if up == Null {
        return Null;
      }
      ExhaustedUp(f, x, x0);
      ParentValid(f, x);
      assert IsPrefix(up.node, x);
      PrefixTransitive(up.node, x, x0);
      if stop.To? {
        ProperPrefixUp(stop.node, x);
      }
      x := up.node;
      if stop == To(x) {
        return Null;
      }
    }
    r := NextSibling(f, x);
    FirstAfterSibling(f, x, x0);
    NextSiblingShares(f, x);
    if stop.To? {
      ProperPrefixUp(stop.node, x);
      PrefixTransitive(stop.node, x[..|x| - 1], r.node);
    }
    assert x[0] == x0[..|x|][0];
    assert r.node[..|x| - 1][0] == r.node[0];
  }

  lemma ValidNotEmpty(f: forest, p: path)
    requires Valid(f, p)
    ensures p != [] && p[0] < |f|
  {
  }

  lemma ExhaustedSelf(f: forest, x0: path)
    ensures Exhausted(f, x0, x0)
  {
  }

  lemma ProperPrefixUp(s: path, x: path)
    requires IsPrefix(s, x) && s != x
    ensures IsPrefix(s, x[..|x| - 1])
  {
    if |s| == |x| {
      SameWhole(s, x);
    }
    assert x[..|x| - 1][..|s|] == x[..|s|];
  }

  lemma NextSiblingShares(f: forest, x: path)
    requires Valid(f, x) && NextSibling(f, x).To?
    ensures var y := NextSibling(f, x).node;
      |x| > 1 && |y| == |x| && y != x && IsPrefix(x[..|x| - 1], y) && y[..|x| - 1] == x[..|x| - 1]
  {
  }

  /** `y` is the node right after `x`. */
  ghost predicate Follows(f: forest, x: path, y: path) {
    Valid(f, y) && Before(x, y) && forall z :: Valid(f, z) && Before(x, z) ==> !Before(z, y)
  }

  ghost predicate LastBelow(f: forest, top: path, x: path) {
    forall z :: Valid(f, z) && IsPrefix(top, z) ==> !Before(x, z)
  }

  /** One step of a walk in document order below `stop`, or through the whole document. */
  method NextInOrder(f: forest, cur: path, stop: Link) returns (r: Link)
    requires Valid(f, cur) && (stop.To? ==> stop.node != [] && IsPrefix(stop.node, cur) && stop.node != cur)
    ensures r.Null? ==> LastBelow(f, Top(cur, stop), cur)
    ensures r.To? ==> Follows(f, cur, r.node) && r.node[0] == cur[0]
    ensures r.To? && stop.To? ==> IsPrefix(stop.node, r.node) && r.node != stop.node
  {
    hide Valid, Before, Exhausted, FirstAfter, Follows, LastBelow;
    ValidNotEmpty(f, cur);
    r := FirstChild(f, cur);
    if r.To? {
      FirstChildFollows(f, cur);
      assert IsPrefix(cur, r.node);
      if stop.To? {
        PrefixTransitive(stop.node, cur, r.node);
      }
    } else {
      r := ClimbRight(f, cur, stop);
      if r.To? {
        LeafFollows(f, cur, r.node);
      } else {
        LeafLast(f, Top(cur, stop), cur);
      }
    }
  }

  lemma FirstChildFollows(f: forest, cur: path)
    requires Valid(f, cur) && FirstChild(f, cur).To?
    ensures Follows(f, cur, cur + [0])
  {
    var y := cur + [0];
    ChildValid(f, cur, 0);
    PrefixBefore(cur, y);
    forall z | Valid(f, z) && Before(cur, z) ensures !Before(z, y) {
      if Before(z, y) {
        SubtreeIsConvex(cur, z, y);
        BeforeIsAsymmetric(cur, z);
        if |z| == |cur| {
          SameWhole(cur, z);
        }
        BeforeIsAsymmetric(y, z);
        assert z[..|cur|] == cur;
        if z[|cur|] == 0 {
          ChildPrefix(cur, 0, z);
          PrefixBefore(y, z);
        } else {
          BeforeAt(y, z, |cur|);
        }
      }
    }
  }

  lemma LeafHasNothingBelow(f: forest, cur: path, z: path)
    requires Valid(f, cur) && FirstChild(f, cur) == Null && Valid(f, z) && Before(cur, z)
    ensures After(cur, z)
  {
    BeforeIsAsymmetric(cur, z);
    if IsPrefix(cur, z) {
      if |z| == |cur| {
        SameWhole(cur, z);
      }
      PrefixValid(f, z, |cur|);
    }
  }

  lemma LeafFollows(f: forest, cur: path, y: path)
    requires Valid(f, cur) && FirstChild(f, cur) == Null && FirstAfter(f, cur, y)
    ensures Follows(f, cur, y)
  {
    hide Valid, Before, FirstChild;
    forall z | Valid(f, z) && Before(cur, z) ensures !Before(z, y) {
      LeafHasNothingBelow(f, cur, z);
    }
  }

  lemma LeafLast(f: forest, top: path, cur: path)
    requires Valid(f, cur) && FirstChild(f, cur) == Null && Exhausted(f, top, cur)
    ensures LastBelow(f, top, cur)
  {
    hide Valid, Before, FirstChild;
    forall z | Valid(f, z) && IsPrefix(top, z) ensures !Before(cur, z) {
      if Before(cur, z) {
        LeafHasNothingBelow(f, cur, z);
      }
    }
  }

  // ----- positions in the list -----

  lemma PositionOf(f: forest, p: path) returns (k: nat)
    requires Valid(f, p)
    ensures k < |Order(f, p[0])| && Order(f, p[0])[k] == p
  {
    OrderIsExact(f, p[0]);
    assert p in Order(f, p[0]);
    k :| 0 <= k < |Order(f, p[0])| && Order(f, p[0])[k] == p;
  }

  lemma BeforeIsPosition(f: forest, d: nat, j: nat, k: nat)
    requires d < |f| && j < |Order(f, d)| && k < |Order(f, d)|
    ensures Before(Order(f, d)[j], Order(f, d)[k]) <==> j < k
  {
    hide Before, Order;
    OrderIsExact(f, d);
    BeforeIsAsymmetric(Order(f, d)[j], Order(f, d)[k]);
    BeforeIsAsymmetric(Order(f, d)[k], Order(f, d)[k]);
  }

  /** The node right after the `k`-th is the next one in the list. */
  lemma FollowsIsNext(f: forest, d: nat, k: nat, y: path)
    requires d < |f| && k < |Order(f, d)| && Follows(f, Order(f, d)[k], y) && y[0] == d
    ensures k + 1 < |Order(f, d)| && Order(f, d)[k + 1] == y
  {
    hide Before, Order, Valid;
    OrderIsExact(f, d);
    var j := PositionOf(f, y);
    BeforeIsPosition(f, d, k, j);
    if j > k + 1 {
      OneBetween(f, d, k, j);
    }
  }

  lemma OneBetween(f: forest, d: nat, k: nat, j: nat)
    requires d < |f| && k + 1 < j < |Order(f, d)|
    ensures !Follows(f, Order(f, d)[k], Order(f, d)[j])
  {
    hide Before, Order, Valid;
    OrderIsExact(f, d);
    assert Order(f, d)[k + 1] in Order(f, d);
    BeforeIsPosition(f, d, k, k + 1);
    BeforeIsPosition(f, d, k + 1, j);
  }
}
