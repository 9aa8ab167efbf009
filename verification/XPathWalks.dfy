/** `step_fill`: the loops that walk the links along an axis and push the nodes that pass the test. Each pushes what the
    axis enumerates, all of it or only the first hit. */
module XPathWalks {
  import opened XPathTree
  import opened XPathOrder
  import opened XPathAxes

  // ----- progress of a walk -----

  /** The walk has visited `v`, a prefix of the axis, and pushed `got`. */
  ghost predicate Walking(f: forest, axis: Axis, test: NodeTest, x: XNode, once: bool, v: seq<path>, got: seq<XNode>) {
    && x.In(f) && v <= AxisNodes(f, axis, x) && (forall p :: p in v ==> Valid(f, p))
    && got == AttributePart(f, axis, test, x) + Hits(f, test, v) && (once ==> got == [])
  }

  ghost predicate Done(f: forest, axis: Axis, test: NodeTest, x: XNode, once: bool, got: seq<XNode>) {
    x.In(f) && got == Take(once, Enumeration(f, axis, test, x))
  }

  lemma Finished(f: forest, axis: Axis, test: NodeTest, x: XNode, once: bool, got: seq<XNode>)
    requires x.In(f) && Walking(f, axis, test, x, once, AxisNodes(f, axis, x), got)
    ensures Done(f, axis, test, x, once, got)
  {
    hide AttributePart, AxisNodes, Hits;
  }

  lemma Begin(f: forest, axis: Axis, test: NodeTest, x: XNode, once: bool)
    requires x.In(f) && axis != Attribute && (x.Attr? ==> !SelfAttribute(axis, test))
    ensures Walking(f, axis, test, x, once, [], [])
  {
    hide AxisNodes;
  }

  /** One node of a walk is pushed if it passes the test, and with `once` the walk then stops. */
  method Visit(f: forest, axis: Axis, test: NodeTest, x: XNode, once: bool, cur: path, ghost v: seq<path>,
               got: seq<XNode>)
    returns (got': seq<XNode>, stop: bool)
    requires Walking(f, axis, test, x, once, v, got) && v + [cur] <= AxisNodes(f, axis, x)
    ensures stop ==> Done(f, axis, test, x, once, got')
    ensures !stop ==> Walking(f, axis, test, x, once, v + [cur], got')
  {
    hide AxisNodes, AttributePart, PassesNode, Enumeration, Valid;
    AxisNodesValid(f, axis, x);
    ghost var all := AxisNodes(f, axis, x);
    assert all[|v|] == cur;
    assert cur in all && forall p :: p in v + [cur] ==> p in all;
    assert (v + [cur])[..|v|] == v;
    var pass := PassesNode(Subtree(f, cur), test);
    got' := got + if pass then [Elem(cur)] else [];
    stop := pass && once;
    ghost var part := AttributePart(f, axis, test, x);
    assert part + Hits(f, test, v + [cur]) == got' by {
      hide Hits;
      HitsStep(f, test, v, cur);
      Associative(part, Hits(f, test, v), if pass then [Elem(cur)] else []);
    }
    if stop {
      FirstHit(f, axis, test, x, v + [cur], got');
    }
  }

  lemma HitsStep(f: forest, test: NodeTest, v: seq<path>, cur: path)
    requires forall p :: p in v + [cur] ==> Valid(f, p)
    ensures Valid(f, cur) && forall p :: p in v ==> Valid(f, p)
    ensures Hits(f, test, v + [cur]) == Hits(f, test, v) + if PassesNode(Subtree(f, cur), test) then [Elem(cur)] else []
  {
    assert (v + [cur])[..|v|] == v && (v + [cur])[|v|] == cur;
    assert cur in v + [cur] && forall p :: p in v ==> p in v + [cur];
  }

  lemma Associative<T>(a: seq<T>, b: seq<T>, c: seq<T>)
    ensures a + b + c == a + (b + c)
  {
  }

  lemma FirstHit(f: forest, axis: Axis, test: NodeTest, x: XNode, w: seq<path>, got: seq<XNode>)
    requires x.In(f) && w <= AxisNodes(f, axis, x) && forall p :: p in w ==> Valid(f, p)
    requires AttributePart(f, axis, test, x) + Hits(f, test, w) == got && |got| == 1
    ensures Done(f, axis, test, x, true, got)
  {
    hide AxisNodes, AttributePart, Hits, Valid;
    AxisNodesValid(f, axis, x);
    var all := AxisNodes(f, axis, x);
    var rest := all[|w|..];
    assert all == w + rest;
    HitsAppends(f, test, w, rest);
    Associative(AttributePart(f, axis, test, x), Hits(f, test, w), Hits(f, test, rest));
    assert (got + Hits(f, test, rest))[..1] == got;
  }

  // ----- lists of an axis -----

  /** An axis is determined by a sorted list of its nodes. */
  lemma AxisIs(f: forest, axis: Axis, x: XNode, s: seq<path>)
    requires x.In(f) && Sorted(s)
    requires forall p :: p in s <==> Valid(f, p) && p[0] == x.Home()[0] && Related(axis, x, p)
    ensures AxisNodes(f, axis, x) == if Reverse(axis) then Rev(s) else s
  {
    hide Related, Before;
    var order := Order(f, x.Home()[0]);
    OrderIsExact(f, x.Home()[0]);
    PickSorted(axis, x, order);
    forall p ensures p in s <==> p in Pick(axis, x, order) {
      InPick(axis, x, order, p);
    }
    SortedUnique(s, Pick(axis, x, order));
  }

  /** The children `lo`, …, `hi - 1` of `u`. */
  function ChildList(u: path, lo: nat, hi: nat): (s: seq<path>)
    requires lo <= hi
    ensures |s| == hi - lo && forall i :: 0 <= i < hi - lo ==> s[i] == u + [lo + i]
  {
    seq(hi - lo, i requires 0 <= i < hi - lo => u + [lo + i])
  }

  lemma ChildListSorted(u: path, lo: nat, hi: nat)
    requires lo <= hi
    ensures Sorted(ChildList(u, lo, hi))
    ensures forall p :: p in ChildList(u, lo, hi) <==> |p| == |u| + 1 && p[..|u|] == u && lo <= p[|u|] < hi
  {
    var s := ChildList(u, lo, hi);
    forall i, j | 0 <= i < j < |s| ensures Before(s[i], s[j]) {
      var a, b := u + [lo + i], u + [lo + j];
      assert a[..|u|] == u && b[..|u|] == u;
      BeforeAt(a, b, |u|);
    }
    forall p ensures p in s <==> |p| == |u| + 1 && p[..|u|] == u && lo <= p[|u|] < hi {
      if |p| == |u| + 1 && p[..|u|] == u && lo <= p[|u|] < hi {
        assert p == u + [p[|u|]];
        assert s[p[|u|] - lo] == p;
      }
    }
  }

  /** The proper prefixes of `p` of at most `k` elements. */
  function PrefixList(p: path, k: nat): (s: seq<path>)
    requires k <= |p|
    ensures |s| == k && forall i :: 0 <= i < k ==> s[i] == p[..i + 1]
  {
    seq(k, i requires 0 <= i < k => p[..i + 1])
  }

  lemma PrefixListSorted(p: path, k: nat)
    requires k <= |p|
    ensures Sorted(PrefixList(p, k))
    ensures forall q :: q in PrefixList(p, k) <==> 0 < |q| <= k && IsPrefix(q, p)
  {
    var s := PrefixList(p, k);
    forall i, j | 0 <= i < j < |s| ensures Before(s[i], s[j]) {
      assert p[..j + 1][..i + 1] == p[..i + 1];
      PrefixBefore(s[i], s[j]);
    }
    forall q ensures q in s <==> 0 < |q| <= k && IsPrefix(q, p) {
      if 0 < |q| <= k && IsPrefix(q, p) {
        assert s[|q| - 1] == q;
      }
    }
  }

  lemma ChildAxis(f: forest, p: path)
    requires Valid(f, p)
    ensures AxisNodes(f, Child, Elem(p)) == ChildList(p, 0, |Subtree(f, p).children|)
  {
    var s := ChildList(p, 0, |Subtree(f, p).children|);
    ChildListSorted(p, 0, |Subtree(f, p).children|);
    forall q ensures q in s <==> Valid(f, q) && q[0] == p[0] && Related(Child, Elem(p), q) {
      if |q| == |p| + 1 && q[..|p|] == p {
        assert q == p + [q[|p|]];
        ChildValid(f, p, q[|p|]);
      }
    }
    AxisIs(f, Child, Elem(p), s);
  }

  lemma SiblingAxes(f: forest, p: path)
    requires Valid(f, p) && |p| > 1
    ensures var u, i := p[..|p| - 1], p[|p| - 1];
      && AxisNodes(f, FollowingSibling, Elem(p)) == ChildList(u, i + 1, Siblings(f, p))
      && AxisNodes(f, PrecedingSibling, Elem(p)) == Rev(ChildList(u, 0, i))
  {
    var u, i, n := p[..|p| - 1], p[|p| - 1], Siblings(f, p);
    ChildListSorted(u, i + 1, n);
    ChildListSorted(u, 0, i);
    forall q ensures q in ChildList(u, i + 1, n)
      <==> Valid(f, q) && q[0] == p[0] && Related(FollowingSibling, Elem(p), q)
    {
      InSiblings(f, p, q);
    }
    forall q ensures q in ChildList(u, 0, i) <==> Valid(f, q) && q[0] == p[0] && Related(PrecedingSibling, Elem(p), q) {
      InSiblings(f, p, q);
    }
    hide Related, ChildList, Sorted, AxisNodes, Rev;
    AxisIs(f, FollowingSibling, Elem(p), ChildList(u, i + 1, n));
    AxisIs(f, PrecedingSibling, Elem(p), ChildList(u, 0, i));
  }

  lemma InSiblings(f: forest, p: path, q: path)
    requires Valid(f, p) && |p| > 1
    ensures var u, i := p[..|p| - 1], p[|p| - 1];
      && (q in ChildList(u, i + 1, Siblings(f, p))
        <==> Valid(f, q) && q[0] == p[0] && Related(FollowingSibling, Elem(p), q))
      && (q in ChildList(u, 0, i) <==> Valid(f, q) && q[0] == p[0] && Related(PrecedingSibling, Elem(p), q))
  {
    var u, i, n := p[..|p| - 1], p[|p| - 1], Siblings(f, p);
    hide ChildList, Sorted, Valid, Siblings;
    InChildList(u, i + 1, n, q);
    InChildList(u, 0, i, q);
    SiblingValid(f, p, q);
    assert |u| == |p| - 1;
  }

  lemma InChildList(u: path, lo: nat, hi: nat, q: path)
    requires lo <= hi
    ensures q in ChildList(u, lo, hi) <==> |q| == |u| + 1 && q[..|u|] == u && lo <= q[|u|] < hi
  {
    ChildListSorted(u, lo, hi);
  }

  lemma SiblingValid(f: forest, p: path, q: path)
    requires Valid(f, p) && |p| > 1
    ensures |q| == |p| && q[..|p| - 1] == p[..|p| - 1]
      ==> (Valid(f, q) <==> q[|p| - 1] < Siblings(f, p)) && q[0] == p[0]
  {
    var u := p[..|p| - 1];
    ParentValid(f, p);
    if |q| == |p| && q[..|u|] == u {
      assert q == u + [q[|u|]];
      assert q[0] == q[..|u|][0] && p[0] == p[..|u|][0];
      ChildValid(f, u, q[|u|]);
    }
  }

  lemma AncestorAxes(f: forest, x: XNode)
    requires x.In(f)
    ensures var p := x.Home();
      && AxisNodes(f, Ancestor, x) == Rev(PrefixList(p, if x.Elem? then |p| - 1 else |p|))
      && AxisNodes(f, AncestorOrSelf, x) == Rev(PrefixList(p, |p|))
  {
    hide AxisNodes;
    AncestorAxis(f, x);
    AncestorOrSelfAxis(f, x);
  }

  lemma PrefixesValid(f: forest, p: path)
    requires Valid(f, p)
    ensures forall q :: 0 < |q| && IsPrefix(q, p) ==> Valid(f, q) && q[0] == p[0] && (q == p <==> |q| == |p|)
  {
    forall q | 0 < |q| && IsPrefix(q, p) ensures Valid(f, q) && q[0] == p[0] && (q == p <==> |q| == |p|) {
      PrefixValid(f, p, |q|);
      assert p[..|p|] == p;
    }
  }

  lemma AncestorAxis(f: forest, x: XNode)
    requires x.In(f)
    ensures var p := x.Home();
      AxisNodes(f, Ancestor, x) == Rev(PrefixList(p, if x.Elem? then |p| - 1 else |p|))
  {
    hide AxisNodes, Inside;
    var p := x.Home();
    var k := if x.Elem? then |p| - 1 else |p|;
    PrefixListSorted(p, k);
    PrefixesValid(f, p);
    AxisIs(f, Ancestor, x, PrefixList(p, k));
  }

  lemma AncestorOrSelfAxis(f: forest, x: XNode)
    requires x.In(f)
    ensures AxisNodes(f, AncestorOrSelf, x) == Rev(PrefixList(x.Home(), |x.Home()|))
  {
    hide AxisNodes, Inside;
    var p := x.Home();
    PrefixListSorted(p, |p|);
    PrefixesValid(f, p);
    AxisIs(f, AncestorOrSelf, x, PrefixList(p, |p|));
  }

  lemma SingleAxes(f: forest, x: XNode)
    requires x.In(f)
    ensures var p := x.Home();
      && AxisNodes(f, Self, x) == (if x.Elem? then [p] else [])
      && AxisNodes(f, ParentAxis, x) == (if x.Attr? then [p] else if |p| > 1 then [p[..|p| - 1]] else [])
  {
    hide AxisNodes;
    SelfAxis(f, x);
    ParentAxisIs(f, x);
  }

  lemma SelfAxis(f: forest, x: XNode)
    requires x.In(f)
    ensures AxisNodes(f, Self, x) == if x.Elem? then [x.Home()] else []
  {
    AxisIs(f, Self, x, if x.Elem? then [x.Home()] else []);
  }

  lemma ParentAxisIs(f: forest, x: XNode)
    requires x.In(f)
    ensures var p := x.Home();
      AxisNodes(f, ParentAxis, x) == if x.Attr? then [p] else if |p| > 1 then [p[..|p| - 1]] else []
  {
    var p := x.Home();
    if x.Elem? && |p| > 1 {
      ParentValid(f, p);
    }
    AxisIs(f, ParentAxis, x, if x.Attr? then [p] else if |p| > 1 then [p[..|p| - 1]] else []);
  }

  // ----- attribute and child axes, siblings -----

  method AttributeWalk(f: forest, test: NodeTest, n: path, once: bool) returns (got: seq<XNode>)
    requires Valid(f, n)
    ensures got == Take(once, Enumeration(f, Attribute, test, Elem(n)))
  {
    hide PassesAttribute, Valid, Enumeration;
    AttributeEnumeration(f, test, n);
    var count := |Subtree(f, n).attributes|;
    got := [];
    var a := 0;
    while a < count
      invariant a <= count && got == AttributeHits(f, test, n, a) && (once ==> got == [])
    {
      if PassesAttribute(Subtree(f, n).attributes[a], test) {
        got := got + [Attr(n, a)];
        if once {
          AttributeHitsPrefix(f, test, n, a + 1, count);
          return;
        }
      }
      a := a + 1;
    }
  }

  /** An element has attributes on the axis and nothing else. */
  lemma AttributeEnumeration(f: forest, test: NodeTest, n: path)
    requires Valid(f, n)
    ensures Enumeration(f, Attribute, test, Elem(n)) == AttributeHits(f, test, n, |Subtree(f, n).attributes|)
  {
    hide PassesAttribute, Valid, AxisNodes, AttributeHits;
    AxisNodesValid(f, Attribute, Elem(n));
    var hits := AttributeHits(f, test, n, |Subtree(f, n).attributes|);
    assert hits + [] == hits;
  }

  lemma {:induction false} AttributeHitsPrefix(f: forest, test: NodeTest, p: path, j: nat, k: nat)
    requires Valid(f, p) && j <= k <= |Subtree(f, p).attributes|
    ensures AttributeHits(f, test, p, j) <= AttributeHits(f, test, p, k)
    decreases k
  {
    hide PassesAttribute, Valid;
    if j < k {
      AttributeHitsPrefix(f, test, p, j, k - 1);
    }
  }

  /** `for (c = first; c; c = c->next_sibling)` over the children of `u` from index `lo` on. */
  method SiblingWalk(f: forest, axis: Axis, test: NodeTest, x: XNode, once: bool, first: Link, ghost u: path,
                     ghost lo: nat)
    returns (got: seq<XNode>)
    requires x.In(f) && axis != Attribute && x.Elem?
    requires Valid(f, u) && lo <= |Subtree(f, u).children| && first == Chain(u, lo, |Subtree(f, u).children|)
    requires AxisNodes(f, axis, x) == ChildList(u, lo, |Subtree(f, u).children|)
    ensures Done(f, axis, test, x, once, got)
  {
    hide Valid, NextSibling, Walking, Done, AxisNodes;
    ghost var n, i := |Subtree(f, u).children|, lo;
    var c := first;
    got := [];
    Begin(f, axis, test, x, once);
    assert ChildList(u, lo, n)[..0] == [];
    while c.To?
      invariant lo <= i <= n && c == Chain(u, i, n)
      invariant Walking(f, axis, test, x, once, ChildList(u, lo, n)[..i - lo], got)
      decreases n - i
    {
      ghost var all := ChildList(u, lo, n);
      assert all[..i - lo] + [c.node] == all[..i - lo + 1];
      var stop;
      got, stop := Visit(f, axis, test, x, once, c.node, all[..i - lo], got);
      if stop { return; }
      StepRight(f, u, i, n);
      c := NextSibling(f, c.node);
      i := i + 1;
    }
    assert ChildList(u, lo, n)[..n - lo] == ChildList(u, lo, n);
    Finished(f, axis, test, x, once, got);
  }

  method ChildWalk(f: forest, test: NodeTest, n: path, once: bool) returns (got: seq<XNode>)
    requires Valid(f, n)
    ensures Done(f, Child, test, Elem(n), once, got)
  {
    ChildAxis(f, n);
    got := SiblingWalk(f, Child, test, Elem(n), once, FirstChild(f, n), n, 0);
  }

  method FollowingSiblingWalk(f: forest, test: NodeTest, n: path, once: bool) returns (got: seq<XNode>)
    requires Valid(f, n)
    ensures Done(f, FollowingSibling, test, Elem(n), once, got)
  {
    if |n| == 1 {
      NoSiblings(f, n);
      Begin(f, FollowingSibling, test, Elem(n), once);
      Finished(f, FollowingSibling, test, Elem(n), once, []);
      return [];
    }
    ParentValid(f, n);
    SiblingAxes(f, n);
    got := SiblingWalk(f, FollowingSibling, test, Elem(n), once, NextSibling(f, n), n[..|n| - 1], n[|n| - 1] + 1);
  }

  lemma NoSiblings(f: forest, n: path)
    requires Valid(f, n) && |n| == 1
    ensures AxisNodes(f, FollowingSibling, Elem(n)) == [] && AxisNodes(f, PrecedingSibling, Elem(n)) == []
  {
    AxisIs(f, FollowingSibling, Elem(n), []);
    AxisIs(f, PrecedingSibling, Elem(n), []);
  }

  /** The circular backward links, followed until the last child is reached. */
  method PrecedingSiblingWalk(f: forest, test: NodeTest, n: path, once: bool) returns (got: seq<XNode>)
    requires Valid(f, n)
    ensures Done(f, PrecedingSibling, test, Elem(n), once, got)
  {
    hide Walking, Done, AxisNodes, Subtree, NextSibling, PrevSiblingC, ChildList, Inside;
    var x := Elem(n);
    if |n| == 1 {
      got := [];
      Begin(f, PrecedingSibling, test, x, once);
      NoSiblings(f, n);
      Finished(f, PrecedingSibling, test, x, once, got);
      return;
    }
    LeftwardStart(f, n);
    got := WalkLeft(f, test, x, once, PrevSiblingC(f, n), n[..|n| - 1], n[|n| - 1], Siblings(f, n));
  }

  /** Where the walk to the left begins */
  lemma LeftwardStart(f: forest, n: path)
    requires Valid(f, n) && |n| > 1
    ensures var u, i, count := n[..|n| - 1], n[|n| - 1], Siblings(f, n);
      && Valid(f, u) && count == |Subtree(f, u).children| && i < count
      && PrevSiblingC(f, n) == u + [if i == 0 then count - 1 else i - 1] && Valid(f, PrevSiblingC(f, n))
      && NextSibling(f, PrevSiblingC(f, n)) == (if i == 0 then Null else To(u + [i]))
      && AxisNodes(f, PrecedingSibling, Elem(n)) == Rev(ChildList(u, 0, i))
  {
    hide AxisNodes, PrevSiblingC, NextSibling, ChildList;
    SiblingAxes(f, n);
    ParentValid(f, n);
    var u, i := n[..|n| - 1], n[|n| - 1];
    assert n == u + [i];
    StepLeft(f, u, i, Siblings(f, n));
  }

  method WalkLeft(f: forest, test: NodeTest, x: XNode, once: bool, first: path, ghost u: path, ghost i: nat,
                  ghost count: nat)
    returns (got: seq<XNode>)
    requires x.In(f) && x.Elem? && Valid(f, u) && count == |Subtree(f, u).children| && i < count
    requires first == u + [if i == 0 then count - 1 else i - 1] && Valid(f, first)
    requires NextSibling(f, first) == (if i == 0 then Null else To(u + [i]))
    requires AxisNodes(f, PrecedingSibling, x) == Rev(ChildList(u, 0, i))
    ensures Done(f, PrecedingSibling, test, x, once, got)
  {
    hide Walking, Done, AxisNodes, Valid, Subtree, NextSibling, PrevSiblingC;
    ghost var j: nat := i;
    ghost var all := Rev(ChildList(u, 0, i));
    assert all[..0] == [];
    var c := first;
    got := [];
    Begin(f, PrecedingSibling, test, x, once);
    while NextSibling(f, c).To?
      invariant j <= i && c == u + [if j == 0 then count - 1 else j - 1] && Valid(f, c)
      invariant NextSibling(f, c) == (if j == 0 then Null else To(u + [j]))
      invariant Walking(f, PrecedingSibling, test, x, once, all[..i - j], got)
      decreases j
    {
      assert all[i - j] == c && all[..i - j] + [c] == all[..i - j + 1];
      var stop;
      got, stop := Visit(f, PrecedingSibling, test, x, once, c, all[..i - j], got);
      if stop { return; }
      StepLeft(f, u, j - 1, count);
      c := PrevSiblingC(f, c);
      j := j - 1;
    }
    assert all[..i] == all;
    Finished(f, PrecedingSibling, test, x, once, got);
  }

  lemma StepLeft(f: forest, u: path, i: nat, n: nat)
    requires Valid(f, u) && n == |Subtree(f, u).children| && i < n
    ensures Valid(f, u + [i])
    ensures PrevSiblingC(f, u + [i]) == u + [if i == 0 then n - 1 else i - 1]
    ensures Valid(f, PrevSiblingC(f, u + [i]))
    ensures NextSibling(f, PrevSiblingC(f, u + [i])) == if i == 0 then Null else To(u + [i])
  {
    ChildValid(f, u, i);
    ChildValid(f, u, if i == 0 then n - 1 else i - 1);
    StepRight(f, u, if i == 0 then n - 1 else i - 1, n);
  }

  // ----- ancestors, parent, self -----

  /** `while (cur) { push cur; cur = cur->parent; }` over the prefixes of `p`. */
  method AncestorWalk(f: forest, axis: Axis, test: NodeTest, x: XNode, once: bool, ghost p: path, start: Link,
                      ghost v: seq<path>, got: seq<XNode>)
    returns (got': seq<XNode>)
    requires x.In(f) && |v| <= |p| && start == Up(p, |v|)
    requires AxisNodes(f, axis, x) == Rev(PrefixList(p, |p|)) && Walking(f, axis, test, x, once, v, got)
    ensures Done(f, axis, test, x, once, got')
  {
    hide Walking, Done, AxisNodes;
    ghost var all, i := Rev(PrefixList(p, |p|)), |v|;
    WalkedPrefix(f, axis, test, x, once, v, got, all);
    var cur := start;
    got' := got;
    while cur.To?
      invariant i <= |p| && cur == Up(p, i) && Walking(f, axis, test, x, once, all[..i], got')
      decreases |p| - i
    {
      assert all[i] == cur.node && all[..i] + [cur.node] == all[..i + 1];
      var stop;
      got', stop := Visit(f, axis, test, x, once, cur.node, all[..i], got');
      if stop { return; }
      UpStep(p, i);
      cur := Parent(cur.node);
      i := i + 1;
    }
    assert all[..|p|] == all;
    Finished(f, axis, test, x, once, got');
  }

  lemma WalkedPrefix(f: forest, axis: Axis, test: NodeTest, x: XNode, once: bool, v: seq<path>, got: seq<XNode>,
                     all: seq<path>)
    requires x.In(f) && Walking(f, axis, test, x, once, v, got) && AxisNodes(f, axis, x) == all
    ensures |v| <= |all| && v == all[..|v|]
  {
  }

  method SingleWalk(f: forest, axis: Axis, test: NodeTest, x: XNode, once: bool) returns (got: seq<XNode>)
    requires x.In(f) && (axis == ParentAxis || (axis == Self && x.Elem?))
    ensures Done(f, axis, test, x, once, got)
  {
    hide Walking, Done, AxisNodes;
    SingleAxes(f, x);
    got := [];
    Begin(f, axis, test, x, once);
    var p := x.Home();
    var target := if axis == Self || x.Attr? then To(p) else Parent(p);
    if target.To? {
      var stop;
      assert [] + [target.node] == AxisNodes(f, axis, x);
      got, stop := Visit(f, axis, test, x, once, target.node, [], got);
      if stop { return; }
    }
    Finished(f, axis, test, x, once, got);
  }

  // ----- descendant and following -----

  /** The nodes before position `k` have been visited as far as they are on the axis. */
  lemma PickPrefix(f: forest, axis: Axis, x: XNode, k: nat)
    requires x.In(f) && !Reverse(axis) && k < |Order(f, x.Home()[0])|
    ensures var all := Order(f, x.Home()[0]);
      && Pick(axis, x, all[..k]) <= AxisNodes(f, axis, x) && Pick(axis, x, all[..k + 1]) <= AxisNodes(f, axis, x)
      && Pick(axis, x, all[..k + 1]) == Pick(axis, x, all[..k]) + (if Related(axis, x, all[k]) then [all[k]] else [])
  {
    hide Order, Related;
    var all := Order(f, x.Home()[0]);
    assert all == all[..k] + all[k..] && all == all[..k + 1] + all[k + 1..];
    PickAppends(axis, x, all[..k], all[k..]);
    PickAppends(axis, x, all[..k + 1], all[k + 1..]);
    assert all[..k + 1][..k] == all[..k];
  }

  /** If no later node is on the axis, the visited ones are all of it. */
  lemma PickWhole(f: forest, axis: Axis, x: XNode, k: nat)
    requires x.In(f) && !Reverse(axis) && k <= |Order(f, x.Home()[0])|
    requires forall j :: k <= j < |Order(f, x.Home()[0])| ==> !Related(axis, x, Order(f, x.Home()[0])[j])
    ensures Pick(axis, x, Order(f, x.Home()[0])[..k]) == AxisNodes(f, axis, x)
  {
    hide Order, Related;
    var all := Order(f, x.Home()[0]);
    assert all == all[..k] + all[k..];
    PickAppends(axis, x, all[..k], all[k..]);
    PickNone(axis, x, all[k..]);
  }

  lemma NotOnAxis(f: forest, axis: Axis, x: XNode, k: nat)
    requires x.In(f) && k <= |Order(f, x.Home()[0])|
    requires forall j :: 0 <= j < k ==> !Related(axis, x, Order(f, x.Home()[0])[j])
    ensures Pick(axis, x, Order(f, x.Home()[0])[..k]) == []
  {
    hide Order, Related;
    PickNone(axis, x, Order(f, x.Home()[0])[..k]);
  }

  /** Where a forward walk in document order stands: `cur` is the next node to visit. */
  ghost predicate Forward(f: forest, axis: Axis, test: NodeTest, x: XNode, once: bool, cur: Link, k: nat,
                          got: seq<XNode>)
  {
    && x.In(f) && k <= |Order(f, x.Home()[0])|
    && Walking(f, axis, test, x, once, Pick(axis, x, Order(f, x.Home()[0])[..k]), got)
    && (cur.To? ==> k < |Order(f, x.Home()[0])| && Order(f, x.Home()[0])[k] == cur.node && Related(axis, x, cur.node))
    && (cur.Null? ==> Pick(axis, x, Order(f, x.Home()[0])[..k]) == AxisNodes(f, axis, x))
  }

  /** The loop of the descendant and following axes: push, then step to the next node in document order. */
  method ForwardWalk(f: forest, axis: Axis, test: NodeTest, x: XNode, once: bool, start: Link, stop: Link,
                     ghost from: nat, pushed: seq<XNode>)
    returns (got: seq<XNode>)
    requires axis == Following || ((axis == Descendant || axis == DescendantOrSelf) && x.Elem? && stop == To(x.node))
    requires axis == Following ==> stop == Null
    requires start.To? && stop.To? ==> start.node != x.Home()
    requires Forward(f, axis, test, x, once, start, from, pushed)
    ensures Done(f, axis, test, x, once, got)
  {
    hide Walking, Done, AxisNodes, Related, Order, Forward, Pick, LastBelow, Follows;
    var cur := start;
    got := pushed;
    ghost var k := from;
    ForwardParts(f, axis, test, x, once, cur, k, got);
    while cur.To?
      invariant Forward(f, axis, test, x, once, cur, k, got)
      invariant cur.To? && stop.To? ==> cur.node != x.Home()
      decreases |Order(f, x.Home()[0])| - k, if cur.To? then 1 else 0
    {
      ForwardParts(f, axis, test, x, once, cur, k, got);
      PickPrefix(f, axis, x, k);
      ghost var v := Pick(axis, x, Order(f, x.Home()[0])[..k]);
      var halt;
      got, halt := Visit(f, axis, test, x, once, cur.node, v, got);
      if halt { return; }
      OnOrder(f, x.Home()[0], k);
      StopAbove(axis, x, cur.node);
      var next := NextInOrder(f, cur.node, stop);
      ForwardStep(f, axis, x, cur.node, next, stop, k);
      cur := next;
      k := k + 1;
      ForwardIf(f, axis, test, x, once, cur, k, got);
    }
    ForwardParts(f, axis, test, x, once, cur, k, got);
    Finished(f, axis, test, x, once, got);
  }

  lemma ForwardParts(f: forest, axis: Axis, test: NodeTest, x: XNode, once: bool, cur: Link, k: nat, got: seq<XNode>)
    requires Forward(f, axis, test, x, once, cur, k, got)
    ensures x.In(f) && k <= |Order(f, x.Home()[0])|
    ensures Walking(f, axis, test, x, once, Pick(axis, x, Order(f, x.Home()[0])[..k]), got)
    ensures cur.To? ==> k < |Order(f, x.Home()[0])| && Order(f, x.Home()[0])[k] == cur.node
    ensures cur.To? ==> Related(axis, x, cur.node)
    ensures cur.Null? ==> Pick(axis, x, Order(f, x.Home()[0])[..k]) == AxisNodes(f, axis, x)
  {
    hide Walking, AxisNodes, Related, Order, Pick;
  }

  lemma ForwardIf(f: forest, axis: Axis, test: NodeTest, x: XNode, once: bool, cur: Link, k: nat, got: seq<XNode>)
    requires x.In(f) && k <= |Order(f, x.Home()[0])|
    requires Walking(f, axis, test, x, once, Pick(axis, x, Order(f, x.Home()[0])[..k]), got)
    requires cur.To? ==> k < |Order(f, x.Home()[0])| && Order(f, x.Home()[0])[k] == cur.node
    requires cur.To? ==> Related(axis, x, cur.node)
    requires cur.Null? ==> Pick(axis, x, Order(f, x.Home()[0])[..k]) == AxisNodes(f, axis, x)
    ensures Forward(f, axis, test, x, once, cur, k, got)
  {
    hide Walking, AxisNodes, Related, Order, Pick;
  }

  lemma OnOrder(f: forest, d: nat, k: nat)
    requires d < |f| && k < |Order(f, d)|
    ensures Valid(f, Order(f, d)[k]) && Order(f, d)[k][0] == d
  {
    OrderIsExact(f, d);
    assert Order(f, d)[k] in Order(f, d);
  }

  lemma StopAbove(axis: Axis, x: XNode, m: path)
    requires Related(axis, x, m)
    ensures axis == Descendant || axis == DescendantOrSelf ==> x.Elem? && IsPrefix(x.node, m)
  {
  }

  lemma ForwardStep(f: forest, axis: Axis, x: XNode, cur: path, next: Link, stop: Link, k: nat)
    requires axis == Following
      || ((axis == Descendant || axis == DescendantOrSelf) && x.Elem? && stop == To(x.node) && cur != x.node)
    requires axis == Following ==> stop == Null
    requires x.In(f) && k < |Order(f, x.Home()[0])| && Order(f, x.Home()[0])[k] == cur && Related(axis, x, cur)
    requires Valid(f, cur) && cur[0] == x.Home()[0]
    requires next.Null? ==> LastBelow(f, Top(cur, stop), cur)
    requires next.To? ==> Follows(f, cur, next.node) && next.node[0] == cur[0]
    requires next.To? && stop.To? ==> IsPrefix(stop.node, next.node) && next.node != stop.node
    ensures next.To? ==> k + 1 < |Order(f, x.Home()[0])| && Order(f, x.Home()[0])[k + 1] == next.node
    ensures next.To? ==> Related(axis, x, next.node)
    ensures next.Null? ==> Pick(axis, x, Order(f, x.Home()[0])[..k + 1]) == AxisNodes(f, axis, x)
  {
    hide AxisNodes, Order, Before;
    var d := x.Home()[0];
    if next.To? {
      FollowsIsNext(f, d, k, next.node);
      if axis == Following {
        FollowingIsUpward(x, cur, next.node);
      }
    } else {
      forall j | k + 1 <= j < |Order(f, d)| ensures !Related(axis, x, Order(f, d)[j]) {
        OnOrder(f, d, j);
        BeforeIsPosition(f, d, k, j);
        assert Order(f, d)[j][..1] == cur[..1];
      }
      PickWhole(f, axis, x, k + 1);
    }
  }

  lemma FollowingIsUpward(x: XNode, a: path, b: path)
    requires Related(Following, x, a) && Before(a, b)
    ensures Related(Following, x, b)
  {
    BeforeIsTransitive(x.Home(), a, b);
    if x.Elem? && IsPrefix(x.node, b) {
      SubtreeIsConvex(x.node, a, b);
    }
  }

  method DescendantWalk(f: forest, axis: Axis, test: NodeTest, n: path, once: bool) returns (got: seq<XNode>)
    requires Valid(f, n) && (axis == Descendant || axis == DescendantOrSelf)
    ensures Done(f, axis, test, Elem(n), once, got)
  {
    hide Walking, Done, AxisNodes, Order, Related;
    var x := Elem(n);
    ghost var k := PositionOf(f, n);
    NothingAbove(f, axis, x, k);
    got := [];
    Begin(f, axis, test, x, once);
    PickPrefix(f, axis, x, k);
    SelfRelated(x, n);
    if axis == DescendantOrSelf {
      var halt;
      assert [] + [n] == [n];
      got, halt := Visit(f, axis, test, x, once, n, [], got);
      if halt { return; }
    }
    DescendantStart(f, axis, x, k);
    got := ForwardWalk(f, axis, test, x, once, FirstChild(f, n), To(n), k + 1, got);
  }

  lemma SelfRelated(x: XNode, n: path)
    requires x == Elem(n)
    ensures Related(DescendantOrSelf, x, n) && !Related(Descendant, x, n)
  {
    assert n[..|n|] == n;
  }

  lemma NothingAbove(f: forest, axis: Axis, x: XNode, k: nat)
    requires x.In(f) && x.Elem? && (axis == Descendant || axis == DescendantOrSelf)
    requires k < |Order(f, x.node[0])| && Order(f, x.node[0])[k] == x.node
    ensures Pick(axis, x, Order(f, x.node[0])[..k]) == []
  {
    hide Order;
    var d := x.node[0];
    forall j | 0 <= j < k ensures !Related(axis, x, Order(f, d)[j]) {
      BeforeIsPosition(f, d, j, k);
      var q := Order(f, d)[j];
      if IsPrefix(x.node, q) {
        PrefixBefore(x.node, q);
      }
    }
    NotOnAxis(f, axis, x, k);
  }

  lemma DescendantStart(f: forest, axis: Axis, x: XNode, k: nat)
    requires x.In(f) && x.Elem? && (axis == Descendant || axis == DescendantOrSelf)
    requires k < |Order(f, x.node[0])| && Order(f, x.node[0])[k] == x.node
    ensures var c := FirstChild(f, x.node);
      && (c.To? ==>
           && k + 1 < |Order(f, x.node[0])| && Order(f, x.node[0])[k + 1] == c.node
           && Related(axis, x, c.node) && c.node != x.node)
      && (c.Null? ==> Pick(axis, x, Order(f, x.node[0])[..k + 1]) == AxisNodes(f, axis, x))
  {
    hide Order, Before, AxisNodes;
    var d, c := x.node[0], FirstChild(f, x.node);
    if c.To? {
      FirstChildFollows(f, x.node);
      FollowsIsNext(f, d, k, c.node);
      assert c.node[..|x.node|] == x.node;
    } else {
      forall j | k + 1 <= j < |Order(f, d)| ensures !Related(axis, x, Order(f, d)[j]) {
        OnOrder(f, d, j);
        BeforeIsPosition(f, d, k, j);
        LeafHasNothingBelow(f, x.node, Order(f, d)[j]);
      }
      PickWhole(f, axis, x, k + 1);
    }
  }

  method FollowingWalk(f: forest, test: NodeTest, x: XNode, once: bool) returns (got: seq<XNode>)
    requires x.In(f)
    ensures Done(f, Following, test, x, once, got)
  {
    hide Walking, Done, AxisNodes, Order, Related, LastBelow, Exhausted, Before;
    var p := x.Home();
    var start;
    if x.Elem? {
      start := ClimbRight(f, p, Null);
    } else {
      start := NextInOrder(f, p, Null);
    }
    Begin(f, Following, test, x, once);
    ghost var k := FollowingStart(f, x, start);
    got := ForwardWalk(f, Following, test, x, once, start, Null, k, []);
  }

  lemma FollowingStart(f: forest, x: XNode, start: Link) returns (k: nat)
    requires x.In(f)
    requires start.To? ==> Valid(f, start.node) && start.node[0] == x.Home()[0]
    requires start.To? ==> if x.Elem? then FirstAfter(f, x.node, start.node) else Follows(f, x.parent, start.node)
    requires start.Null?
      ==> if x.Elem? then Exhausted(f, x.node[..1], x.node) else LastBelow(f, x.parent[..1], x.parent)
    ensures k <= |Order(f, x.Home()[0])| && Pick(Following, x, Order(f, x.Home()[0])[..k]) == []
    ensures start.To?
      ==> k < |Order(f, x.Home()[0])| && Order(f, x.Home()[0])[k] == start.node && Related(Following, x, start.node)
    ensures start.Null? ==> AxisNodes(f, Following, x) == []
  {
    hide Order, Before, AxisNodes, Pick;
    var d := x.Home()[0];
    OrderIsExact(f, d);
    if start.To? {
      k := PositionOf(f, start.node);
      forall j | 0 <= j < k ensures !Related(Following, x, Order(f, d)[j]) {
        OnOrder(f, d, j);
        BeforeIsPosition(f, d, j, k);
      }
    } else {
      k := |Order(f, d)|;
      forall j | 0 <= j < k ensures !Related(Following, x, Order(f, d)[j]) {
        OnOrder(f, d, j);
        assert Order(f, d)[j][..1] == x.Home()[..1];
      }
      PickWhole(f, Following, x, k);
    }
    NotOnAxis(f, Following, x, k);
  }

  // ----- preceding -----

  /** The nodes from position `k` on have been visited as far as they are on the axis. */
  lemma PickSuffix(f: forest, axis: Axis, x: XNode, k: nat)
    requires x.In(f) && Reverse(axis) && 0 < k <= |Order(f, x.Home()[0])|
    ensures var all := Order(f, x.Home()[0]);
      && Rev(Pick(axis, x, all[k..])) <= AxisNodes(f, axis, x)
        && Rev(Pick(axis, x, all[k - 1..])) <= AxisNodes(f, axis, x)
      && Rev(Pick(axis, x, all[k - 1..]))
        == Rev(Pick(axis, x, all[k..])) + (if Related(axis, x, all[k - 1]) then [all[k - 1]] else [])
  {
    hide Order, Related;
    var all := Order(f, x.Home()[0]);
    assert all == all[..k] + all[k..] && all == all[..k - 1] + all[k - 1..] && all[k - 1..] == [all[k - 1]] + all[k..];
    PickAppends(axis, x, all[..k], all[k..]);
    PickAppends(axis, x, all[..k - 1], all[k - 1..]);
    PickAppends(axis, x, [all[k - 1]], all[k..]);
    RevAppends(Pick(axis, x, all[..k]), Pick(axis, x, all[k..]));
    RevAppends(Pick(axis, x, all[..k - 1]), Pick(axis, x, all[k - 1..]));
    PickOne(axis, x, all[k - 1]);
    RevAppends(Pick(axis, x, [all[k - 1]]), Pick(axis, x, all[k..]));
  }

  lemma PickOne(axis: Axis, x: XNode, p: path)
    ensures Pick(axis, x, [p]) == if Related(axis, x, p) then [p] else []
    ensures Rev(Pick(axis, x, [p])) == Pick(axis, x, [p])
  {
    hide Related;
    assert [p][..0] == [];
  }

  lemma RevAppends<T>(a: seq<T>, b: seq<T>)
    ensures Rev(a + b) == Rev(b) + Rev(a)
  {
  }

  /** Every node below `cur` that comes before `p` is an ancestor of `p`. */
  ghost predicate Opening(f: forest, cur: path, p: path) {
    forall z :: Valid(f, z) && IsPrefix(cur, z) && Before(z, p) ==> IsPrefix(z, p)
  }

  lemma OpeningUp(f: forest, cur: path, p: path)
    requires |cur| > 1 && cur[|cur| - 1] == 0 && IsPrefix(cur, p) && Opening(f, cur, p)
    ensures Opening(f, cur[..|cur| - 1], p)
  {
    var u := cur[..|cur| - 1];
    assert cur == u + [0];
    PrefixTransitive(u, cur, p);
    forall z | Valid(f, z) && IsPrefix(u, z) && Before(z, p) ensures IsPrefix(z, p) {
      if z != u && !IsPrefix(cur, z) {
        LaterSiblingAfter(u, z, p);
      }
    }
  }

  /** What is below `u` but not below its first child, which holds `p`, comes after `p`. */
  lemma LaterSiblingAfter(u: path, z: path, p: path)
    requires IsPrefix(u, z) && z != u && !IsPrefix(u + [0], z) && IsPrefix(u + [0], p)
    ensures !Before(z, p)
  {
    if |z| == |u| {
      SameWhole(u, z);
    }
    ChildPrefix(u, 0, z);
    ChildPrefix(u, 0, p);
    BeforeAt(z, p, |u|);
  }

  /** A first child, or a document, has no previous sibling. */
  lemma PrevIsLast(f: forest, p: path)
    requires Valid(f, p)
    ensures Valid(f, PrevSiblingC(f, p))
    ensures NextSibling(f, PrevSiblingC(f, p)) == if |p| == 1 || p[|p| - 1] == 0 then Null else To(p)
    ensures |p| > 1 && p[|p| - 1] > 0 ==> PrevSiblingC(f, p) == p[..|p| - 1] + [p[|p| - 1] - 1]
  {
    LinksValid(f, p);
    if |p| > 1 {
      ParentValid(f, p);
      assert p == p[..|p| - 1] + [p[|p| - 1]];
      StepLeft(f, p[..|p| - 1], p[|p| - 1], Siblings(f, p));
    }
  }

  method PrecedingWalk(f: forest, test: NodeTest, x: XNode, once: bool) returns (got: seq<XNode>)
    requires x.In(f)
    ensures Done(f, Preceding, test, x, once, got)
  {
    hide Walking, Done, AxisNodes, Order, Related, Valid, NextSibling, PrevSiblingC, Opening;
    var p := x.Home();
    var cur := p;
    got := [];
    Begin(f, Preceding, test, x, once);
    OpeningSelf(f, p);
    ValidNotEmpty(f, p);
    PrevIsLast(f, cur);
    while NextSibling(f, PrevSiblingC(f, cur)) == Null
      invariant Valid(f, cur) && cur != [] && IsPrefix(cur, p) && Opening(f, cur, p)
      invariant Valid(f, PrevSiblingC(f, cur))
      invariant NextSibling(f, PrevSiblingC(f, cur)) == if |cur| == 1 || cur[|cur| - 1] == 0 then Null else To(cur)
      decreases |cur|
    {
      var up := Parent(cur);
      if up == Null {
        NothingPrecedes(f, x, cur);
        Finished(f, Preceding, test, x, once, got);
        return;
      }
      OpeningUp(f, cur, p);
      PrefixTransitive(up.node, cur, p);
      ParentValid(f, cur);
      cur := up.node;
      PrevIsLast(f, cur);
    }
    ghost var k := PositionOf(f, cur);
    PrecedingStart(f, x, cur, k);
    var start := PrevSiblingC(f, cur);
    PrevIsLast(f, cur);
    EmptySuffix(f, test, x, once, k);
    got := BackwardWalk(f, test, x, once, start, k);
  }

  lemma OpeningSelf(f: forest, p: path)
    ensures Opening(f, p, p) && IsPrefix(p, p)
  {
    assert p[..|p|] == p;
    forall z | Valid(f, z) && IsPrefix(p, z) ensures !Before(z, p) {
      PrefixBefore(p, z);
    }
  }

  lemma NothingPrecedes(f: forest, x: XNode, cur: path)
    requires x.In(f) && |cur| == 1 && IsPrefix(cur, x.Home()) && Opening(f, cur, x.Home())
    ensures AxisNodes(f, Preceding, x) == []
  {
    hide Order, Before;
    var d := x.Home()[0];
    var all := Order(f, d);
    forall q | q in all ensures !Related(Preceding, x, q) {
      OrderIsExact(f, d);
      assert q[..1] == [q[0]] && cur == [x.Home()[..1][0]];
    }
    PickNone(Preceding, x, all);
  }

  lemma PrecedingStart(f: forest, x: XNode, cur: path, k: nat)
    requires x.In(f) && Valid(f, cur) && |cur| > 1 && cur[|cur| - 1] > 0
    requires IsPrefix(cur, x.Home()) && Opening(f, cur, x.Home()) && k < |Order(f, cur[0])|
      && Order(f, cur[0])[k] == cur
    ensures cur[0] == x.Home()[0] && Pick(Preceding, x, Order(f, cur[0])[k..]) == []
    ensures var w := cur[..|cur| - 1] + [cur[|cur| - 1] - 1];
      Valid(f, w) && FirstAfter(f, w, cur) && w[0] == cur[0] && AtMost(cur, x.Home())
  {
    hide Order, NextSibling, PrevSiblingC, FirstAfter, Opening, Exhausted;
    var u, i := cur[..|cur| - 1], cur[|cur| - 1];
    var w := u + [i - 1];
    assert cur == u + [i];
    assert cur[0] == x.Home()[..|cur|][0] by {
      assert x.Home()[..|cur|] == cur;
    }
    ParentValid(f, cur);
    StepRight(f, u, i - 1, |Subtree(f, u).children|);
    IsPrefixSelf(w);
    ExhaustedSelf(f, w);
    FirstAfterSibling(f, w, w);
    PrefixBefore(cur, x.Home());
    assert w[0] == cur[0] by {
      assert w[..|u|][0] == u[0] == cur[..|u|][0];
    }
    NothingFrom(f, x, cur, k);
  }

  lemma EmptySuffix(f: forest, test: NodeTest, x: XNode, once: bool, k: nat)
    requires x.In(f) && k <= |Order(f, x.Home()[0])| && Pick(Preceding, x, Order(f, x.Home()[0])[k..]) == []
    requires Walking(f, Preceding, test, x, once, [], [])
    ensures Walking(f, Preceding, test, x, once, Rev(Pick(Preceding, x, Order(f, x.Home()[0])[k..])), [])
  {
    hide Order, Walking;
    assert Rev(Pick(Preceding, x, Order(f, x.Home()[0])[k..])) == [];
  }

  lemma IsPrefixSelf(p: path)
    ensures IsPrefix(p, p)
  {
    assert p[..|p|] == p;
  }

  lemma NothingFrom(f: forest, x: XNode, cur: path, k: nat)
    requires x.In(f) && Valid(f, cur) && cur[0] == x.Home()[0]
    requires IsPrefix(cur, x.Home()) && Opening(f, cur, x.Home()) && k < |Order(f, cur[0])|
      && Order(f, cur[0])[k] == cur
    ensures Pick(Preceding, x, Order(f, cur[0])[k..]) == []
  {
    hide Order, Before, Inside;
    var d, p := cur[0], x.Home();
    var rest := Order(f, d)[k..];
    forall q | q in rest ensures !Related(Preceding, x, q) {
      var j :| 0 <= j < |rest| && rest[j] == q;
      assert q == Order(f, d)[k + j];
      OnOrder(f, d, k + j);
      BeforeIsPosition(f, d, k, k + j);
      if Before(q, p) {
        if q == cur {
          IsPrefixSelf(cur);
        } else {
          SubtreeIsConvex(cur, q, p);
        }
      }
    }
    PickNone(Preceding, x, rest);
  }

  predicate AtMost(a: path, b: path) {
    a == b || Before(a, b)
  }

  /** The walk is about to enter the subtree of `cur`; everything after it has been visited. */
  ghost predicate Entering(f: forest, test: NodeTest, x: XNode, once: bool, cur: path, k: nat, got: seq<XNode>) {
    && x.In(f) && Valid(f, cur) && cur[0] == x.Home()[0]
    && k < |Order(f, x.Home()[0])| && FirstAfter(f, cur, Order(f, x.Home()[0])[k])
    && AtMost(Order(f, x.Home()[0])[k], x.Home())
    && Walking(f, Preceding, test, x, once, Rev(Pick(Preceding, x, Order(f, x.Home()[0])[k..])), got)
  }

  /** The walk has visited `cur` and everything after it. */
  ghost predicate Leaving(f: forest, test: NodeTest, x: XNode, once: bool, cur: path, k: nat, got: seq<XNode>) {
    && x.In(f) && Valid(f, cur) && cur[0] == x.Home()[0] && Before(cur, x.Home())
    && k < |Order(f, x.Home()[0])| && Order(f, x.Home()[0])[k] == cur
    && Walking(f, Preceding, test, x, once, Rev(Pick(Preceding, x, Order(f, x.Home()[0])[k..])), got)
  }

  method BackwardWalk(f: forest, test: NodeTest, x: XNode, once: bool, start: path, ghost from: nat)
    returns (got: seq<XNode>)
    requires Entering(f, test, x, once, start, from, [])
    ensures Done(f, Preceding, test, x, once, got)
  {
    hide Walking, Done, AxisNodes, Order, Related, FirstAfter, PrevSiblingC, Before, Inside;
    var cur := start;
    got := [];
    ghost var k := from;
    while true
      invariant Entering(f, test, x, once, cur, k, got)
      decreases k, Subtree(f, cur)
    {
      var first := FirstChild(f, cur);
      if first.To? {
        LinksValid(f, cur);
        LastChild(f, x, cur, k);
        cur := PrevSiblingC(f, first.node);
      } else {
        LeafPosition(f, x, cur, k);
        PickSuffix(f, Preceding, x, k);
        var stop;
        got, stop := Visit(f, Preceding, test, x, once, cur, Rev(Pick(Preceding, x, Order(f, x.Home()[0])[k..])), got);
        if stop { return; }
        var next;
        got, next, k := ClimbLeft(f, test, x, once, cur, k - 1, got);
        if next.Null? { return; }
        cur := next.node;
      }
    }
  }

  lemma LastChild(f: forest, x: XNode, cur: path, k: nat)
    requires x.In(f) && Valid(f, cur) && FirstChild(f, cur).To?
    requires k < |Order(f, x.Home()[0])| && FirstAfter(f, cur, Order(f, x.Home()[0])[k])
    ensures Valid(f, cur + [0])
    ensures var w := PrevSiblingC(f, cur + [0]);
      && Valid(f, w) && w[0] == cur[0] && Subtree(f, w) < Subtree(f, cur)
      && FirstAfter(f, w, Order(f, x.Home()[0])[k])
  {
    hide Order, NextSibling, FirstAfter;
    var n := |Subtree(f, cur).children|;
    StepLeft(f, cur, 0, n);
    ValidExtend(f, cur, [n - 1]);
    assert Below(Subtree(f, cur), [n - 1]) == Subtree(f, cur).children[n - 1] by {
      assert [n - 1][1..] == [];
    }
    LastChildAfter(f, cur, n, Order(f, x.Home()[0])[k]);
  }

  lemma BelowAfter(c: path, w: path, y: path)
    requires IsPrefix(c, w) && After(c, y)
    ensures After(w, y)
  {
    var k := Common(c, y);
    assert c[..|c|] == c;
    assert w[..k] == w[..|c|][..k] == c[..k] && w[k] == w[..|c|][k];
    BeforeAt(w, y, k);
    if IsPrefix(w, y) {
      PrefixTransitive(c, w, y);
    }
  }

  lemma LastChildAfter(f: forest, cur: path, n: nat, y: path)
    requires Valid(f, cur) && n == |Subtree(f, cur).children| > 0 && FirstAfter(f, cur, y)
    ensures FirstAfter(f, cur + [n - 1], y)
  {
    var w := cur + [n - 1];
    assert w[..|cur|] == cur;
    BelowAfter(cur, w, y);
    PrefixBefore(cur, w);
    hide Before, Inside;
    forall z | Valid(f, z) && After(w, z) ensures !Before(z, y) {
      BeforeIsTransitive(cur, w, z);
      if IsPrefix(cur, z) {
        AfterSibling(cur, n - 1, z);
        PrefixValid(f, z, |cur|);
      }
    }
  }

  lemma LeafPosition(f: forest, x: XNode, cur: path, k: nat)
    requires x.In(f) && Valid(f, cur) && cur[0] == x.Home()[0] && FirstChild(f, cur).Null?
    requires k < |Order(f, x.Home()[0])| && FirstAfter(f, cur, Order(f, x.Home()[0])[k])
    requires AtMost(Order(f, x.Home()[0])[k], x.Home())
    ensures k > 0 && Order(f, x.Home()[0])[k - 1] == cur && Before(cur, x.Home()) && Related(Preceding, x, cur)
  {
    hide Order, Before, FirstChild;
    var d, y := x.Home()[0], Order(f, x.Home()[0])[k];
    OnOrder(f, d, k);
    LeafFollows(f, cur, y);
    var j := PositionOf(f, cur);
    FollowsIsNext(f, d, j, y);
    BeforeIsPosition(f, d, j + 1, k);
    BeforeIsPosition(f, d, k, j + 1);
    BeforeIsAsymmetric(y, y);
    if y != x.Home() {
      BeforeIsTransitive(cur, y, x.Home());
    }
    LeafHasNothingBelow(f, cur, x.Home());
  }

  /** After the visit of `cur`: while it has no previous sibling, climb and visit the parents that are not ancestors of
      the context node; then step to the previous sibling. */
  method ClimbLeft(f: forest, test: NodeTest, x: XNode, once: bool, from: path, ghost at: nat, pushed: seq<XNode>)
    returns (got: seq<XNode>, next: Link, ghost k: nat)
    requires Leaving(f, test, x, once, from, at, pushed)
    ensures next.Null? ==> Done(f, Preceding, test, x, once, got)
    ensures next.To? ==> k <= at && Entering(f, test, x, once, next.node, k, got)
  {
    hide Walking, Done, AxisNodes, Order, Related, FirstAfter, PrevSiblingC, Before, Inside, NextSibling;
    var cur := from;
    got, k := pushed, at;
    PrevIsLast(f, cur);
    while NextSibling(f, PrevSiblingC(f, cur)) == Null
      invariant Leaving(f, test, x, once, cur, k, got) && k <= at
      invariant Valid(f, PrevSiblingC(f, cur))
      invariant NextSibling(f, PrevSiblingC(f, cur)) == if |cur| == 1 || cur[|cur| - 1] == 0 then Null else To(cur)
      decreases |cur|
    {
      var up := Parent(cur);
      if up == Null {
        RootIsFirst(f, x, cur, k);
        Finished(f, Preceding, test, x, once, got);
        return got, Null, k;
      }
      UpPosition(f, x, cur, k);
      PickSuffix(f, Preceding, x, k);
      cur := up.node;
      var ancestor := NodeIsAncestor(cur, x.Home());
      if !ancestor {
        var stop;
        got, stop := Visit(f, Preceding, test, x, once, cur, Rev(Pick(Preceding, x, Order(f, x.Home()[0])[k..])), got);
        if stop { return got, Null, k; }
      } else {
        ghost var v := Rev(Pick(Preceding, x, Order(f, x.Home()[0])[k..]));
        assert v + [] == v;
      }
      k := k - 1;
      PrevIsLast(f, cur);
    }
    next := To(PrevSiblingC(f, cur));
    EnterPrevious(f, x, cur);
  }

  lemma RootIsFirst(f: forest, x: XNode, cur: path, k: nat)
    requires x.In(f) && Valid(f, cur) && |cur| == 1 && cur[0] == x.Home()[0]
    requires k < |Order(f, x.Home()[0])| && Order(f, x.Home()[0])[k] == cur
    ensures Rev(Pick(Preceding, x, Order(f, x.Home()[0])[k..])) == AxisNodes(f, Preceding, x)
  {
    var d := x.Home()[0];
    assert Order(f, d)[0] == [d];
    hide Order, Before;
    assert cur == [d];
    BeforeIsPosition(f, d, 0, k);
    BeforeIsAsymmetric(cur, cur);
    assert Order(f, d)[0..] == Order(f, d);
  }

  lemma UpPosition(f: forest, x: XNode, cur: path, k: nat)
    requires x.In(f) && Valid(f, cur) && cur[0] == x.Home()[0] && |cur| > 1 && cur[|cur| - 1] == 0
    requires k < |Order(f, x.Home()[0])| && Order(f, x.Home()[0])[k] == cur && Before(cur, x.Home())
    ensures var q := cur[..|cur| - 1];
      && k > 0 && Valid(f, q) && q[0] == cur[0] && Order(f, x.Home()[0])[k - 1] == q && Before(q, x.Home())
      && (Related(Preceding, x, q) <==> !IsPrefix(q, x.Home()))
  {
    hide Order, Before, Inside;
    var d, q := x.Home()[0], cur[..|cur| - 1];
    assert cur == q + [0];
    ParentValid(f, cur);
    FirstChildFollows(f, q);
    var j := PositionOf(f, q);
    FollowsIsNext(f, d, j, cur);
    BeforeIsPosition(f, d, j + 1, k);
    BeforeIsPosition(f, d, k, j + 1);
    BeforeIsAsymmetric(cur, cur);
    BeforeIsTransitive(q, cur, x.Home());
  }

  lemma EnterPrevious(f: forest, x: XNode, cur: path)
    requires x.In(f) && Valid(f, cur) && Valid(f, PrevSiblingC(f, cur))
      && NextSibling(f, PrevSiblingC(f, cur)) == To(cur)
    requires |cur| > 1 && cur[|cur| - 1] > 0
    ensures var w := PrevSiblingC(f, cur);
      FirstAfter(f, w, cur) && w[0] == cur[0]
  {
    hide FirstAfter, NextSibling;
    var w := PrevSiblingC(f, cur);
    IsPrefixSelf(w);
    ExhaustedSelf(f, w);
    FirstAfterSibling(f, w, w);
    PrevIsLast(f, cur);
    assert w[..|cur| - 1] == cur[..|cur| - 1];
    assert w[0] == w[..|cur| - 1][0];
  }

  // ----- all axes -----

  /** An attribute pushed first on its own self axes. */
  lemma SelfPushed(f: forest, axis: Axis, test: NodeTest, x: XNode, once: bool)
    requires x.In(f) && x.Attr? && SelfAttribute(axis, test)
    ensures var got := if Passes(f, x, test) then [x] else [];
      && (!(once && got != []) ==> Walking(f, axis, test, x, once, [], got))
      && (once && got != [] ==> Done(f, axis, test, x, once, got))
      && (axis != AncestorOrSelf ==> Done(f, axis, test, x, once, got))
  {
    hide Passes;
    var got := if Passes(f, x, test) then [x] else [];
    assert got + [] == got;
    AxisNodesValid(f, axis, x);
    assert Enumeration(f, axis, test, x) == got + Hits(f, test, AxisNodes(f, axis, x));
    assert axis != AncestorOrSelf ==> AxisNodes(f, axis, x) == [] by {
      if axis != AncestorOrSelf {
        hide Pick;
        AttributeOnly(f, axis, x);
      }
    }
    if got != [] {
      assert (got + Hits(f, test, AxisNodes(f, axis, x)))[..1] == got;
    }
  }

  lemma AttributeOnly(f: forest, axis: Axis, x: XNode)
    requires x.In(f) && x.Attr?
    requires axis in {DescendantOrSelf, Self, Child, Descendant, FollowingSibling, PrecedingSibling, Namespace,
                      Attribute}
    ensures AxisNodes(f, axis, x) == []
  {
    AxisIs(f, axis, x, []);
  }

  /** `step_fill` on a node. */
  method StepFillNode(f: forest, axis: Axis, test: NodeTest, n: path, once: bool) returns (got: seq<XNode>)
    requires Valid(f, n) && axis != Namespace
    ensures got == Take(once, Enumeration(f, axis, test, Elem(n)))
  {
    hide Walking, AxisNodes, Enumeration, Related, Inside;
    var x := Elem(n);
    match axis {
      case Attribute => got := AttributeWalk(f, test, n, once);
      case Child => got := ChildWalk(f, test, n, once);
      case Descendant => got := DescendantWalk(f, axis, test, n, once);
      case DescendantOrSelf => got := DescendantWalk(f, axis, test, n, once);
      case FollowingSibling => got := FollowingSiblingWalk(f, test, n, once);
      case PrecedingSibling => got := PrecedingSiblingWalk(f, test, n, once);
      case Following => got := FollowingWalk(f, test, x, once);
      case Preceding => got := PrecedingWalk(f, test, x, once);
      case Self => got := SingleWalk(f, axis, test, x, once);
      case ParentAxis => got := SingleWalk(f, axis, test, x, once);
      case Ancestor => got := AncestorsOfNode(f, axis, test, n, once);
      case AncestorOrSelf => got := AncestorsOfNode(f, axis, test, n, once);
      case Namespace =>
    }
  }

  method AncestorsOfNode(f: forest, axis: Axis, test: NodeTest, n: path, once: bool) returns (got: seq<XNode>)
    requires Valid(f, n) && (axis == Ancestor || axis == AncestorOrSelf)
    ensures Done(f, axis, test, Elem(n), once, got)
  {
    hide Walking, Done, AxisNodes;
    var x := Elem(n);
    AncestorAxes(f, x);
    got := [];
    Begin(f, axis, test, x, once);
    if axis == AncestorOrSelf {
      var stop;
      ghost var all := Rev(PrefixList(n, |n|));
      assert all[0] == n[..|n|] == n;
      assert [n] == [] + [n] == all[..1];
      got, stop := Visit(f, axis, test, x, once, n, [], got);
      if stop { return; }
      got := AncestorWalk(f, axis, test, x, once, n, Parent(n), [n], got);
    } else {
      got := ProperAncestors(f, test, n, once, got);
    }
  }

  /** The ancestor axis of a node is the ancestor-or-self axis of its parent. */
  method ProperAncestors(f: forest, test: NodeTest, n: path, once: bool, pushed: seq<XNode>) returns (got: seq<XNode>)
    requires Valid(f, n) && Walking(f, Ancestor, test, Elem(n), once, [], pushed)
    requires AxisNodes(f, Ancestor, Elem(n)) == Rev(PrefixList(n, |n| - 1))
    ensures Done(f, Ancestor, test, Elem(n), once, got)
  {
    hide Walking, Done, AxisNodes;
    ghost var p := n[..|n| - 1];
    PrefixListPrefix(n, |n| - 1);
    assert Parent(n) == Up(p, 0) by {
      if |n| > 1 {
        UpAtZero(p);
      }
    }
    got := AncestorWalk(f, Ancestor, test, Elem(n), once, p, Parent(n), [], pushed);
  }

  lemma PrefixListPrefix(n: path, k: nat)
    requires k <= |n|
    ensures PrefixList(n, k) == PrefixList(n[..k], k)
  {
    forall i | 0 <= i < k ensures PrefixList(n, k)[i] == PrefixList(n[..k], k)[i] {
      assert n[..k][..i + 1] == n[..i + 1];
    }
  }

  /** `step_fill` on an attribute. */
  method StepFillAttribute(f: forest, axis: Axis, test: NodeTest, x: XNode, once: bool) returns (got: seq<XNode>)
    requires x.In(f) && x.Attr? && axis != Namespace
    ensures got == Take(once, Enumeration(f, axis, test, x))
  {
    hide Walking, AxisNodes, Enumeration, Related, Passes;
    var p := x.parent;
    match axis {
      case Ancestor =>
        got := AncestorsOfAttribute(f, axis, test, x, once, []);
      case AncestorOrSelf =>
        got := [];
        if test == TypeNode {
          SelfPushed(f, axis, test, x, once);
          got := if Passes(f, x, test) then [x] else [];
          if once && got != [] { return; }
        }
        got := AncestorsOfAttribute(f, axis, test, x, once, got);
      case DescendantOrSelf => got := SelfOfAttribute(f, axis, test, x, once);
      case Self => got := SelfOfAttribute(f, axis, test, x, once);
      case Following => got := FollowingWalk(f, test, x, once);
      case ParentAxis => got := SingleWalk(f, axis, test, x, once);
      case Preceding => got := PrecedingWalk(f, test, x, once);
      case _ =>
        NothingFromAttribute(f, axis, test, x);
        got := [];
    }
  }

  method SelfOfAttribute(f: forest, axis: Axis, test: NodeTest, x: XNode, once: bool) returns (got: seq<XNode>)
    requires x.In(f) && x.Attr? && (axis == DescendantOrSelf || axis == Self)
    ensures Done(f, axis, test, x, once, got)
  {
    hide Walking, Done, AxisNodes, Passes;
    if test == TypeNode {
      SelfPushed(f, axis, test, x, once);
      got := if Passes(f, x, test) then [x] else [];
    } else {
      got := [];
      Begin(f, axis, test, x, once);
      AttributeOnly(f, axis, x);
      Finished(f, axis, test, x, once, got);
    }
  }

  method AncestorsOfAttribute(f: forest, axis: Axis, test: NodeTest, x: XNode, once: bool, pushed: seq<XNode>)
    returns (got: seq<XNode>)
    requires x.In(f) && x.Attr? && (axis == Ancestor || axis == AncestorOrSelf)
    requires axis == AncestorOrSelf && test == TypeNode ==> Walking(f, axis, test, x, once, [], pushed)
    requires axis == Ancestor || test != TypeNode ==> pushed == []
    ensures Done(f, axis, test, x, once, got)
  {
    hide Walking, Done, AxisNodes;
    AncestorAxes(f, x);
    if axis == Ancestor || test != TypeNode {
      Begin(f, axis, test, x, once);
    }
    UpAtZero(x.parent);
    got := AncestorWalk(f, axis, test, x, once, x.parent, To(x.parent), [], pushed);
  }

  lemma NothingFromAttribute(f: forest, axis: Axis, test: NodeTest, x: XNode)
    requires x.In(f) && x.Attr? && axis in {Child, Descendant, FollowingSibling, PrecedingSibling, Namespace, Attribute}
    ensures Enumeration(f, axis, test, x) == []
  {
    hide AxisNodes;
    AttributeOnly(f, axis, x);
  }

  /** `step_fill`: the nodes one step pushes for one context node. */
  method StepFill(f: forest, axis: Axis, test: NodeTest, x: XNode, once: bool) returns (got: seq<XNode>)
    requires x.In(f) && axis != Namespace
    ensures got == Take(once, Enumeration(f, axis, test, x))
  {
    hide Enumeration;
    if x.Elem? {
      got := StepFillNode(f, axis, test, x.node, once);
    } else {
      got := StepFillAttribute(f, axis, test, x, once);
    }
  }
}
