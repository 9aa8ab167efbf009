/** The axis walks of the XPath engine: what each axis means, and that the walks over the links enumerate it in the
    right order, without repeats. */
module XPathAxes {
  import opened Bytes
  import opened XPathTree
  import opened XPathOrder

  datatype Axis =
    | Ancestor | AncestorOrSelf | Attribute | Child | Descendant | DescendantOrSelf | Following | FollowingSibling
    | Namespace | ParentAxis | Preceding | PrecedingSibling | Self

  predicate Reverse(axis: Axis) {
    axis in {Ancestor, AncestorOrSelf, Preceding, PrecedingSibling}
  }

  // ----- node tests -----

  datatype NodeTest =
    | Name(name: bytes) | TypeNode | TypeComment | TypeText | TypePi | PiNamed(name: bytes) | All
    | AllInNamespace(prefix: bytes)

  predicate StartsWith(s: bytes, prefix: bytes) {
    |prefix| <= |s| && s[..|prefix|] == prefix
  }

  /** Namespace declarations are not attributes of the data model. */
  predicate IsXPathAttribute(name: bytes) {
    !(StartsWith(name, "xmlns") && (|name| == 5 || name[5] == ':'))
  }

  /** A node without a name has none that fits, not even an empty one. */
  predicate PassesNode(t: Tree, test: NodeTest) {
    match test
    case Name(name) => t.kind == Element && t.name != [] && t.name == name
    case TypeNode => true
    case TypeComment => t.kind == Kind.Comment
    case TypeText => t.kind == Kind.Pcdata || t.kind == Kind.Cdata
    case TypePi => t.kind == Pi
    case PiNamed(name) => t.kind == Pi && t.name != [] && t.name == name
    case All => t.kind == Element
    case AllInNamespace(prefix) => t.kind == Element && t.name != [] && StartsWith(t.name, prefix)
  }

  predicate PassesAttribute(name: bytes, test: NodeTest) {
    match test
    case Name(n) => name == n && IsXPathAttribute(name)
    case TypeNode => IsXPathAttribute(name)
    case All => IsXPathAttribute(name)
    case AllInNamespace(prefix) => StartsWith(name, prefix) && IsXPathAttribute(name)
    case _ => false
  }

  predicate Passes(f: forest, x: XNode, test: NodeTest)
    requires x.In(f)
  {
    if x.Elem? then PassesNode(Subtree(f, x.node), test)
    else PassesAttribute(Subtree(f, x.parent).attributes[x.index], test)
  }

  // ----- the axes of section 2.2 of XPath 1.0 -----

  /** Node `m` of the same document is on the axis of `x`. */
  predicate Related(axis: Axis, x: XNode, m: path) {
    var p := x.Home();
    match axis
    case Ancestor => IsPrefix(m, p) && (x.Elem? ==> m != p)
    case AncestorOrSelf => IsPrefix(m, p)
    case Attribute => false
    case Child => x.Elem? && |m| == |p| + 1 && IsPrefix(p, m)
    case Descendant => x.Elem? && IsPrefix(p, m) && m != p
    case DescendantOrSelf => x.Elem? && IsPrefix(p, m)
    case Following => Before(p, m) && (x.Elem? ==> !IsPrefix(p, m))
    case FollowingSibling =>
      x.Elem? && |p| > 1 && |m| == |p| && m[..|p| - 1] == p[..|p| - 1] && p[|p| - 1] < m[|p| - 1]
    case Namespace => false
    case ParentAxis => if x.Elem? then |p| > 1 && m == p[..|p| - 1] else m == p
    case Preceding => Before(m, p) && !IsPrefix(m, p)
    case PrecedingSibling =>
      x.Elem? && |p| > 1 && |m| == |p| && m[..|p| - 1] == p[..|p| - 1] && m[|p| - 1] < p[|p| - 1]
    case Self => x.Elem? && m == p
  }

  /** An attribute is on its own self axes, but only `node()` has attributes in its principal node type there. */
  predicate SelfAttribute(axis: Axis, test: NodeTest) {
    axis in {AncestorOrSelf, DescendantOrSelf, Self} && test.TypeNode?
  }

  /** What a step from `x` selects. */
  ghost predicate Selected(f: forest, axis: Axis, test: NodeTest, x: XNode, m: XNode) {
    && x.In(f) && m.In(f) && Passes(f, m, test)
    && match m
       case Elem(q) => q[0] == x.Home()[0] && Related(axis, x, q)
       case Attr(q, _) =>
         if axis == Attribute then x.Elem? && q == x.node else SelfAttribute(axis, test) && m == x
  }

  // ----- the same as lists -----

  /** The nodes of `s` that are on the axis. */
  function Pick(axis: Axis, x: XNode, s: seq<path>): seq<path> {
    if s == [] then [] else
    Pick(axis, x, s[..|s| - 1]) + if Related(axis, x, s[|s| - 1]) then [s[|s| - 1]] else []
  }

  function Rev<T>(s: seq<T>): (r: seq<T>)
    ensures |r| == |s|
  {
    seq(|s|, i requires 0 <= i < |s| => s[|s| - 1 - i])
  }

  /** The nodes on the axis, in axis order. */
  function AxisNodes(f: forest, axis: Axis, x: XNode): seq<path>
    requires x.In(f)
  {
    var nodes := Pick(axis, x, Order(f, x.Home()[0]));
    if Reverse(axis) then Rev(nodes) else nodes
  }

  /** The nodes of `s` that pass the test. */
  function Hits(f: forest, test: NodeTest, s: seq<path>): seq<XNode>
    requires forall p :: p in s ==> Valid(f, p)
  {
    if s == [] then [] else
    var p := s[|s| - 1];
    assert p in s;
    Hits(f, test, s[..|s| - 1]) + if PassesNode(Subtree(f, p), test) then [Elem(p)] else []
  }

  function AttributeHits(f: forest, test: NodeTest, p: path, k: nat): seq<XNode>
    requires Valid(f, p) && k <= |Subtree(f, p).attributes|
  {
    if k == 0 then [] else
    AttributeHits(f, test, p, k - 1)
      + if PassesAttribute(Subtree(f, p).attributes[k - 1], test) then [Attr(p, k - 1)] else []
  }

  function AttributePart(f: forest, axis: Axis, test: NodeTest, x: XNode): seq<XNode>
    requires x.In(f)
  {
    if x.Elem? then
      if axis == Attribute then AttributeHits(f, test, x.node, |Subtree(f, x.node).attributes|) else []
    else if SelfAttribute(axis, test) && Passes(f, x, test) then [x] else []
  }

  lemma AxisNodesValid(f: forest, axis: Axis, x: XNode)
    requires x.In(f)
    ensures forall p :: p in AxisNodes(f, axis, x) <==> Valid(f, p) && p[0] == x.Home()[0] && Related(axis, x, p)
    ensures axis.Attribute? ==> AxisNodes(f, axis, x) == []
  {
    var order := Order(f, x.Home()[0]);
    OrderIsExact(f, x.Home()[0]);
    var nodes := Pick(axis, x, order);
    hide Related, Order, Valid;
    forall p ensures p in AxisNodes(f, axis, x) <==> p in order && Related(axis, x, p) {
      InPick(axis, x, order, p);
      InRev(nodes, p);
    }
    if axis.Attribute? {
      PickNone(axis, x, order) by {
        AttributeRelatesNothing(x);
      }
    }
  }

  lemma AttributeRelatesNothing(x: XNode)
    ensures forall p :: !Related(Attribute, x, p)
  {
  }

  lemma InRev<T>(s: seq<T>, x: T)
    ensures x in Rev(s) <==> x in s
  {
    if x in s {
      var i :| 0 <= i < |s| && s[i] == x;
      assert Rev(s)[|s| - 1 - i] == x;
    }
  }

  lemma {:induction false} InPick(axis: Axis, x: XNode, s: seq<path>, p: path)
    ensures p in Pick(axis, x, s) <==> p in s && Related(axis, x, p)
    decreases |s|
  {
    hide Related;
    if s != [] {
      InPick(axis, x, s[..|s| - 1], p);
      assert s == s[..|s| - 1] + [s[|s| - 1]];
    }
  }

  lemma {:induction false} PickNone(axis: Axis, x: XNode, s: seq<path>)
    requires forall p :: p in s ==> !Related(axis, x, p)
    ensures Pick(axis, x, s) == []
    decreases |s|
  {
    hide Related;
    if s != [] {
      PickNone(axis, x, s[..|s| - 1]);
      assert s[|s| - 1] in s;
    }
  }

  lemma {:induction false} PickAppends(axis: Axis, x: XNode, a: seq<path>, b: seq<path>)
    ensures Pick(axis, x, a + b) == Pick(axis, x, a) + Pick(axis, x, b)
    decreases |b|
  {
    hide Related;
    if b == [] {
      assert a + b == a;
    } else {
      PickAppends(axis, x, a, b[..|b| - 1]);
      assert (a + b)[..|a + b| - 1] == a + b[..|b| - 1];
    }
  }

  lemma {:induction false} PickSorted(axis: Axis, x: XNode, s: seq<path>)
    requires Sorted(s)
    ensures Sorted(Pick(axis, x, s))
    decreases |s|
  {
    hide Related, Before;
    if s != [] {
      var front, last := s[..|s| - 1], s[|s| - 1];
      PickSorted(axis, x, front);
      forall y | y in Pick(axis, x, front) ensures Before(y, last) {
        InPick(axis, x, front, y);
      }
      SortedConcat(Pick(axis, x, front), if Related(axis, x, last) then [last] else []);
    }
  }

  lemma {:induction false} HitsAppends(f: forest, test: NodeTest, a: seq<path>, b: seq<path>)
    requires forall p :: p in a + b ==> Valid(f, p)
    ensures forall p :: p in a ==> Valid(f, p)
    ensures forall p :: p in b ==> Valid(f, p)
    ensures Hits(f, test, a + b) == Hits(f, test, a) + Hits(f, test, b)
    decreases |b|
  {
    hide Valid, PassesNode;
    assert forall p :: p in a || p in b ==> p in a + b;
    if b == [] {
      assert a + b == a;
    } else {
      assert (a + b)[..|a + b| - 1] == a + b[..|b| - 1];
      HitsAppends(f, test, a, b[..|b| - 1]);
    }
  }

  /** Everything the step selects from `x`, in axis order. */
  function Enumeration(f: forest, axis: Axis, test: NodeTest, x: XNode): seq<XNode>
    requires x.In(f)
  {
    AxisNodesValid(f, axis, x);
    AttributePart(f, axis, test, x) + Hits(f, test, AxisNodes(f, axis, x))
  }

  /** With `once` a walk may stop at its first hit. */
  function Take(once: bool, s: seq<XNode>): seq<XNode> {
    if once && s != [] then s[..1] else s
  }

  // ----- sorted lists are determined by their members -----

  lemma {:induction false} SortedUnique(a: seq<path>, b: seq<path>)
    requires Sorted(a) && Sorted(b) && forall p :: p in a <==> p in b
    ensures a == b
    decreases |a|
  {
    hide Before;
    if a == [] {
      if b != [] {
        FirstsAgree(b, a);
      }
    } else {
      assert a[0] in a;
      FirstsAgree(a, b);
      forall p ensures p in a[1..] <==> p in b[1..] {
        NotFirst(a, p);
        NotFirst(b, p);
      }
      SortedUnique(a[1..], b[1..]);
      assert a == [a[0]] + a[1..] && b == [b[0]] + b[1..];
    }
  }

  lemma FirstsAgree(a: seq<path>, b: seq<path>)
    requires Sorted(a) && Sorted(b) && a != [] && forall p :: p in a <==> p in b
    ensures b != [] && a[0] == b[0]
  {
    hide Before;
    assert a[0] in a && a[0] in b;
    assert b[0] in b;
    BeforeIsAsymmetric(a[0], b[0]);
  }

  lemma NotFirst(a: seq<path>, p: path)
    requires Sorted(a) && a != []
    ensures p in a[1..] <==> p in a && p != a[0]
  {
    hide Before;
    if p in a[1..] {
      var i :| 0 <= i < |a| - 1 && a[1..][i] == p;
      assert a[i + 1] == p;
      BeforeIsAsymmetric(a[0], p);
    }
    if p in a && p != a[0] {
      var i :| 0 <= i < |a| && a[i] == p;
      assert a[1..][i - 1] == p;
    }
  }

  // ----- the lists mean what the relations say -----

  lemma {:induction false} InHits(f: forest, test: NodeTest, s: seq<path>, m: XNode)
    requires forall p :: p in s ==> Valid(f, p)
    ensures m in Hits(f, test, s) <==> m.Elem? && m.node in s && PassesNode(Subtree(f, m.node), test)
    decreases |s|
  {
    hide Valid, PassesNode;
    if s != [] {
      var front, last := s[..|s| - 1], s[|s| - 1];
      assert last in s && forall p :: p in front ==> p in s;
      InHits(f, test, front, m);
      assert m.Elem? ==> (m.node in s <==> m.node in front || m.node == last);
    }
  }

  lemma {:induction false} InAttributeHits(f: forest, test: NodeTest, p: path, k: nat, m: XNode)
    requires Valid(f, p) && k <= |Subtree(f, p).attributes|
    ensures m in AttributeHits(f, test, p, k)
      <==> m.Attr? && m.parent == p && m.index < k && PassesAttribute(Subtree(f, p).attributes[m.index], test)
  {
    hide Valid, PassesAttribute;
    if k > 0 {
      InAttributeHits(f, test, p, k - 1, m);
    }
  }

  /** Document order, or its reverse, without repeats. */
  predicate Ordered(reverse: bool, s: seq<XNode>) {
    forall i, j :: 0 <= i < j < |s| ==> if reverse then BeforeX(s[j], s[i]) else BeforeX(s[i], s[j])
  }

  lemma OrderedAppend(reverse: bool, s: seq<XNode>, x: XNode)
    requires Ordered(reverse, s) && forall y :: y in s ==> if reverse then BeforeX(x, y) else BeforeX(y, x)
    ensures Ordered(reverse, s + [x])
  {
    hide BeforeX;
    forall i, j | 0 <= i < j < |s| + 1
      ensures if reverse then BeforeX((s + [x])[j], (s + [x])[i]) else BeforeX((s + [x])[i], (s + [x])[j])
    {
      if j == |s| {
        assert s[i] in s;
      }
    }
  }

  predicate OrderedPaths(reverse: bool, s: seq<path>) {
    forall i, j :: 0 <= i < j < |s| ==> if reverse then Before(s[j], s[i]) else Before(s[i], s[j])
  }

  lemma {:induction false} HitsOrdered(f: forest, test: NodeTest, s: seq<path>, reverse: bool)
    requires OrderedPaths(reverse, s) && forall p :: p in s ==> Valid(f, p)
    ensures Ordered(reverse, Hits(f, test, s))
    decreases |s|
  {
    hide Valid, PassesNode, Before;
    if s != [] {
      var front, last := s[..|s| - 1], s[|s| - 1];
      assert last in s && forall p :: p in front ==> p in s;
      HitsOrdered(f, test, front, reverse);
      forall y | y in Hits(f, test, front) ensures if reverse then BeforeX(Elem(last), y) else BeforeX(y, Elem(last)) {
        InHits(f, test, front, y);
        var i :| 0 <= i < |front| && front[i] == y.node;
      }
      if PassesNode(Subtree(f, last), test) {
        OrderedAppend(reverse, Hits(f, test, front), Elem(last));
      }
    }
  }

  lemma {:induction false} AttributeHitsOrdered(f: forest, test: NodeTest, p: path, k: nat)
    requires Valid(f, p) && k <= |Subtree(f, p).attributes|
    ensures Ordered(false, AttributeHits(f, test, p, k))
  {
    hide Valid, PassesAttribute;
    if k > 0 {
      AttributeHitsOrdered(f, test, p, k - 1);
      var front := AttributeHits(f, test, p, k - 1);
      forall y | y in front ensures BeforeX(y, Attr(p, k - 1)) {
        InAttributeHits(f, test, p, k - 1, y);
      }
      if PassesAttribute(Subtree(f, p).attributes[k - 1], test) {
        OrderedAppend(false, front, Attr(p, k - 1));
      }
    }
  }

  lemma AxisNodesOrdered(f: forest, axis: Axis, x: XNode)
    requires x.In(f)
    ensures OrderedPaths(Reverse(axis), AxisNodes(f, axis, x))
  {
    hide Before, Related;
    var order := Order(f, x.Home()[0]);
    OrderIsExact(f, x.Home()[0]);
    PickSorted(axis, x, order);
  }

  /** An axis step enumerates exactly the nodes it selects, forward axes in document order and reverse axes in reverse
      document order, none of them twice. */
  lemma EnumerationIsExact(f: forest, axis: Axis, test: NodeTest, x: XNode)
    requires x.In(f)
    ensures Ordered(Reverse(axis), Enumeration(f, axis, test, x))
    ensures forall m :: m in Enumeration(f, axis, test, x) <==> Selected(f, axis, test, x, m)
  {
    hide Enumeration, Selected, Ordered;
    EnumerationOrdered(f, axis, test, x);
    forall m ensures m in Enumeration(f, axis, test, x) <==> Selected(f, axis, test, x, m) {
      EnumerationMember(f, axis, test, x, m);
    }
  }

  lemma EnumerationOrdered(f: forest, axis: Axis, test: NodeTest, x: XNode)
    requires x.In(f)
    ensures Ordered(Reverse(axis), Enumeration(f, axis, test, x))
  {
    hide Ordered, AxisNodes, Hits, AttributeHits, PassesNode, PassesAttribute;
    var nodes := AxisNodes(f, axis, x);
    AxisNodesValid(f, axis, x);
    AxisNodesOrdered(f, axis, x);
    HitsOrdered(f, test, nodes, Reverse(axis));
    var part, hits := AttributePart(f, axis, test, x), Hits(f, test, nodes);
    if x.Elem? && axis == Attribute {
      AttributeHitsOrdered(f, test, x.node, |Subtree(f, x.node).attributes|);
      assert Hits(f, test, []) == [] by {
        NoHits(f, test);
      }
      assert part + [] == part;
    } else if x.Attr? && part == [x] {
      SelfAttributeFirst(f, axis, test, x, nodes);
    } else {
      assert [] + hits == hits;
    }
  }

  lemma NoHits(f: forest, test: NodeTest)
    ensures Hits(f, test, []) == []
  {
  }

  lemma InAttributePart(f: forest, axis: Axis, test: NodeTest, x: XNode, m: XNode)
    requires x.In(f)
    ensures m in AttributePart(f, axis, test, x) <==> m.Attr? && Selected(f, axis, test, x, m)
  {
    hide Related, PassesNode, PassesAttribute;
    if x.Elem? {
      InAttributeHits(f, test, x.node, |Subtree(f, x.node).attributes|, m);
    }
  }

  lemma InNodePart(f: forest, axis: Axis, test: NodeTest, x: XNode, m: XNode)
    requires x.In(f) && forall p :: p in AxisNodes(f, axis, x) ==> Valid(f, p)
    ensures m in Hits(f, test, AxisNodes(f, axis, x)) <==> m.Elem? && Selected(f, axis, test, x, m)
  {
    hide Related, PassesNode, PassesAttribute, AxisNodes;
    AxisNodesValid(f, axis, x);
    InHits(f, test, AxisNodes(f, axis, x), m);
  }

  lemma EnumerationMember(f: forest, axis: Axis, test: NodeTest, x: XNode, m: XNode)
    requires x.In(f)
    ensures m in Enumeration(f, axis, test, x) <==> Selected(f, axis, test, x, m)
  {
    hide Selected, AttributePart, AxisNodes, Hits;
    AxisNodesValid(f, axis, x);
    InAttributePart(f, axis, test, x, m);
    InNodePart(f, axis, test, x, m);
  }

  /** On the ancestor-or-self axis an attribute comes before its ancestors; its other self axes hold nothing else. */
  lemma SelfAttributeFirst(f: forest, axis: Axis, test: NodeTest, x: XNode, nodes: seq<path>)
    requires x.In(f) && x.Attr? && SelfAttribute(axis, test) && nodes == AxisNodes(f, axis, x)
    requires forall p :: p in nodes ==> Valid(f, p)
    requires Ordered(Reverse(axis), Hits(f, test, nodes))
    ensures Ordered(Reverse(axis), [x] + Hits(f, test, nodes))
  {
    var hits := Hits(f, test, nodes);
    AxisNodesValid(f, axis, x);
    forall y | y in hits ensures axis == AncestorOrSelf && BeforeX(y, x) {
      InHits(f, test, nodes, y);
      PrefixBefore(y.node, x.parent);
    }
    if hits == [] {
      assert [x] + hits == [x];
    } else {
      assert hits[0] in hits;
      OrderedPrepend(hits, x);
    }
  }

  lemma OrderedPrepend(s: seq<XNode>, x: XNode)
    requires Ordered(true, s) && forall y :: y in s ==> BeforeX(y, x)
    ensures Ordered(true, [x] + s)
  {
    hide BeforeX;
    var all := [x] + s;
    forall i, j | 0 <= i < j < |all| ensures BeforeX(all[j], all[i]) {
      assert all[j] == s[j - 1];
      assert s[j - 1] in s;
    }
  }

  // ----- the axes partition a document -----

  /** Every node of the document is on exactly one of the five axes, and not every relation coincides. */
  lemma AxesPartition(f: forest, p: path, q: path)
    requires Valid(f, p) && Valid(f, q) && p[0] == q[0]
    ensures var on := (a: Axis) => if Related(a, Elem(p), q) then 1 else 0;
      on(Ancestor) + on(Descendant) + on(Self) + on(Following) + on(Preceding) == 1
  {
    BeforeIsAsymmetric(p, q);
    if IsPrefix(p, q) {
      PrefixBefore(p, q);
      if IsPrefix(q, p) {
        SameWhole(p, q);
      }
    } else if IsPrefix(q, p) {
      PrefixBefore(q, p);
    }
  }

  function PartitionAxes(): set<Axis> {
    {Ancestor, Descendant, Self, Following, Preceding}
  }

  /** The five walks together visit every node of the document exactly once. */
  lemma WalksPartition(f: forest, p: path, q: path)
    requires Valid(f, p) && Valid(f, q) && p[0] == q[0]
    ensures exists a :: a in PartitionAxes() && q in AxisNodes(f, a, Elem(p))
    ensures forall a, b | a in PartitionAxes() && b in PartitionAxes() && a != b ::
      !(q in AxisNodes(f, a, Elem(p)) && q in AxisNodes(f, b, Elem(p)))
  {
    hide AxisNodes, Related;
    var x := Elem(p);
    AxisNodesValid(f, Ancestor, x);
    AxisNodesValid(f, Descendant, x);
    AxisNodesValid(f, Self, x);
    AxisNodesValid(f, Following, x);
    AxisNodesValid(f, Preceding, x);
    AxesPartition(f, p, q);
    assert forall a :: a in PartitionAxes() ==> (q in AxisNodes(f, a, x) <==> Related(a, x, q));
  }
}
