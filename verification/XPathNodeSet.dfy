/** The order of node sets: `xpath_get_order`, `xpath_sort`, `xpath_first` and the removal of duplicates. A node set of
    the application may hold a node more than once. */
module XPathNodeSet {
  import opened Bytes
  import opened XPathTree
  import opened XPathPositions
  import opened XPathAxes
  import opened XPathAst
  import opened XPathMeaning
  import XPathSort
  import XPathHash

  /** Document order, or its reverse, with repeats. */
  predicate WeaklyOrdered(reverse: bool, s: seq<XNode>) {
    forall i, j :: 0 <= i < j < |s| ==> if reverse then !BeforeX(s[i], s[j]) else !BeforeX(s[j], s[i])
  }

  predicate WeaklyTrue(ns: NodeSet) {
    match ns.order
    case Unsorted => true
    case SortedOrder => WeaklyOrdered(false, ns.nodes)
    case SortedReverse => WeaklyOrdered(true, ns.nodes)
  }

  lemma OrderedWeakly(reverse: bool, s: seq<XNode>)
    ensures Ordered(reverse, s) ==> WeaklyOrdered(reverse, s)
    ensures WeaklyOrdered(reverse, s) && Distinct(s) ==> Ordered(reverse, s)
  {
    hide BeforeX;
    forall i, j | 0 <= i < j < |s| ensures BeforeX(s[i], s[j]) ==> !BeforeX(s[j], s[i])
      ensures s[i] != s[j] ==> BeforeX(s[i], s[j]) || BeforeX(s[j], s[i])
    {
      BeforeXIsStrictTotal(s[i], s[j], s[i]);
    }
  }

  /** A good set is weakly truthful. */
  lemma TrueWeakly(ns: NodeSet)
    ensures Truthful(ns) ==> WeaklyTrue(ns)
    ensures WeaklyTrue(ns) && Distinct(ns.nodes) ==> Truthful(ns)
  {
    hide Ordered, WeaklyOrdered, Distinct;
    OrderedWeakly(false, ns.nodes);
    OrderedWeakly(true, ns.nodes);
  }

  // ----- the comparator as an order -----

  /** The comparator on nodes of the documents; it is not asked about others. */
  predicate Judged(f: forest, lay: Layout, a: XNode, b: XNode) {
    if a.In(f) && b.In(f) then Compared(lay, a, b) else ByLinks(a, b)
  }

  function Comparator(f: forest, lay: Layout): (XNode, XNode) -> bool {
    (a, b) => Judged(f, lay, a, b)
  }

  lemma FaithfulAnswer(f: forest, lay: Layout, a: XNode, b: XNode)
    requires Faithful(f, lay) && a.In(f) && b.In(f)
    ensures a != b ==> (Compared(lay, a, b) <==> BeforeX(a, b))
  {
    hide Faithful, Compared, BeforeX;
    BeforeXIsStrictTotal(a, b, a);
    if BeforeX(a, b) {
      FaithfulPair(f, lay, a, b);
    } else if a != b {
      FaithfulPair(f, lay, b, a);
    }
  }

  lemma ComparatorIsBefore(f: forest, lay: Layout, a: XNode, b: XNode)
    requires Faithful(f, lay)
    ensures XPathSort.Precedes(Comparator(f, lay), a, b) <==> BeforeX(a, b)
  {
    hide Faithful, Compared, BeforeX;
    BeforeXIsStrictTotal(a, b, a);
    if a.In(f) && b.In(f) {
      FaithfulAnswer(f, lay, a, b);
    }
  }

  /** The comparator orders different nodes. */
  lemma ComparatorOrders(f: forest, lay: Layout)
    requires Faithful(f, lay)
    ensures XPathSort.Orders(Comparator(f, lay))
  {
    hide BeforeX, Faithful, XPathSort.Precedes, Comparator;
    var less := Comparator(f, lay);
    forall a: XNode, b: XNode ensures XPathSort.Precedes(less, a, b) <==> BeforeX(a, b) {
      ComparatorIsBefore(f, lay, a, b);
    }
    forall a: XNode, b: XNode, c: XNode
      ensures !BeforeX(a, a) && (BeforeX(a, b) && BeforeX(b, c) ==> BeforeX(a, c))
        && (a != b ==> BeforeX(a, b) != BeforeX(b, a))
    {
      BeforeXIsStrictTotal(a, b, c);
      BeforeXIsStrictTotal(b, a, b);
    }
  }

  // ----- `xpath_get_order` -----

  predicate Uniform(lay: Layout, s: seq<XNode>, first: bool) {
    forall i :: 0 <= i < |s| - 1 ==> Compared(lay, s[i], s[i + 1]) == first
  }

  /** What `xpath_get_order` finds. */
  function OrderFound(lay: Layout, s: seq<XNode>): SetOrder {
    if |s| < 2 || Uniform(lay, s, true) then SortedOrder
    else if Uniform(lay, s, false) then SortedReverse
    else Unsorted
  }

  /** `xpath_get_order` */
  method GetOrder(f: forest, lay: Layout, s: seq<XNode>) returns (order: SetOrder)
    requires InDocs(f, s)
    ensures order == OrderFound(lay, s)
    ensures Faithful(f, lay) ==> WeaklyTrue(NodeSet(s, order))
  {
    hide Compared, Faithful, WeaklyTrue;
    if Faithful(f, lay) {
      OrderFoundIsTrue(f, lay, s);
    }
    if |s| < 2 {
      return SortedOrder;
    }
    var first := DocumentOrderComparator(f, lay, s[0], s[1]);
    for it := 1 to |s| - 1
      invariant forall i :: 0 <= i < it ==> Compared(lay, s[i], s[i + 1]) == first
    {
      var next := DocumentOrderComparator(f, lay, s[it], s[it + 1]);
      if next != first {
        assert !Uniform(lay, s, first) && !Uniform(lay, s, next);
        return Unsorted;
      }
    }
    order := if first then SortedOrder else SortedReverse;
    assert Uniform(lay, s, first) && !Uniform(lay, s, !first);
  }

  /** The order found is the order of the nodes. */
  lemma OrderFoundIsTrue(f: forest, lay: Layout, s: seq<XNode>)
    requires InDocs(f, s) && Faithful(f, lay)
    ensures WeaklyTrue(NodeSet(s, OrderFound(lay, s)))
  {
    hide Compared, Faithful, BeforeX;
    forall i, j | 0 <= i < j < |s|
      ensures Uniform(lay, s, true) ==> !BeforeX(s[j], s[i])
      ensures Uniform(lay, s, false) ==> !BeforeX(s[i], s[j])
    {
      Stepwise(f, lay, s, true, i, j);
      Stepwise(f, lay, s, false, i, j);
    }
  }

  lemma {:induction false} Stepwise(f: forest, lay: Layout, s: seq<XNode>, first: bool, i: nat, j: nat)
    requires InDocs(f, s) && Faithful(f, lay) && i <= j < |s|
    ensures Uniform(lay, s, first) ==> if first then !BeforeX(s[j], s[i]) else !BeforeX(s[i], s[j])
    decreases j
  {
    hide BeforeX, Compared, Faithful;
    BeforeXIsStrictTotal(s[i], s[i], s[i]);
    if i < j {
      var k := j - 1;
      Stepwise(f, lay, s, first, i, k);
      assert s[k] in s && s[j] in s && s[k + 1] == s[j];
      FaithfulAnswer(f, lay, s[k], s[j]);
      NotBeforeTransitive(s[i], s[k], s[j]);
      NotBeforeTransitive(s[j], s[k], s[i]);
      BeforeXIsStrictTotal(s[k], s[j], s[k]);
    }
  }

  lemma NotBeforeTransitive(a: XNode, b: XNode, c: XNode)
    ensures !BeforeX(b, a) && !BeforeX(c, b) ==> !BeforeX(c, a)
  {
    hide BeforeX;
    BeforeXIsStrictTotal(a, b, c);
    BeforeXIsStrictTotal(c, b, a);
    BeforeXIsStrictTotal(b, c, a);
    BeforeXIsStrictTotal(c, a, b);
  }

  // ----- `xpath_sort` -----

  /** `reverse` */
  method Reversed(s: seq<XNode>) returns (r: seq<XNode>)
    ensures r == Rev(s)
  {
    r := s;
    var begin: nat, end: nat := 0, |s|;
    while end - begin > 1
      invariant begin <= end && begin + end == |s| == |r|
      invariant forall k :: begin <= k < end ==> r[k] == s[k]
      invariant forall k :: 0 <= k < begin || end <= k < |s| ==> r[k] == s[|s| - 1 - k]
      decreases end - begin
    {
      end := end - 1;
      r := XPathSort.Swapped(r, begin, end);
      begin := begin + 1;
    }
  }

  lemma RevOrdered(reverse: bool, s: seq<XNode>)
    ensures WeaklyOrdered(reverse, s) ==> WeaklyOrdered(!reverse, Rev(s))
  {
    hide BeforeX;
  }

  lemma {:induction false} RevElements(s: seq<XNode>)
    ensures multiset(Rev(s)) == multiset(s)
    decreases |s|
  {
    if s != [] {
      var rest := s[1..];
      RevElements(rest);
      assert s == [s[0]] + rest;
      assert Rev(s) == Rev(rest) + [s[0]];
    }
  }

  /** The sort is reached only by a list that is not in order, and then at most 16 of its nodes stand at or before any
      node that is repeated and counts as before itself. */
  ghost predicate Sortable(f: forest, lay: Layout, ns: NodeSet) {
    ns.order == Unsorted && OrderFound(lay, ns.nodes) == Unsorted ==> XPathSort.Sparse(ns.nodes, Comparator(f, lay))
  }

  /** `xpath_sort`: the same nodes, each as often as before, in document order or in reverse. */
  method Sort(f: forest, lay: Layout, ns: NodeSet, rev: bool) returns (r: NodeSet)
    requires InDocs(f, ns.nodes) && WeaklyTrue(ns) && Faithful(f, lay) && Sortable(f, lay, ns)
    ensures multiset(r.nodes) == multiset(ns.nodes)
    ensures r.order == (if rev then SortedReverse else SortedOrder) && WeaklyOrdered(rev, r.nodes)
  {
    hide WeaklyOrdered, InDocs, Faithful, OrderFound, Comparator;
    var order := if rev then SortedReverse else SortedOrder;
    var nodes, found := ns.nodes, ns.order;
    if found == Unsorted {
      found := GetOrder(f, lay, nodes);
      if found == Unsorted {
        nodes := SortNodes(f, lay, nodes);
        found := SortedOrder;
      }
    }
    if found != order {
      RevOrdered(!rev, nodes);
      RevElements(nodes);
      nodes := Reversed(nodes);
    }
    r := NodeSet(nodes, order);
  }

  method SortNodes(f: forest, lay: Layout, s: seq<XNode>) returns (t: seq<XNode>)
    requires InDocs(f, s) && Faithful(f, lay) && XPathSort.Sparse(s, Comparator(f, lay))
    ensures multiset(t) == multiset(s) && WeaklyOrdered(false, t)
  {
    hide InDocs, Faithful, Comparator, XPathSort.Orders, XPathSort.Sparse, WeaklyOrdered, XPathSort.Permuted,
      XPathSort.SortedRange;
    var a := new XNode[|s|](i requires 0 <= i < |s| => s[i]);
    assert a[..] == s == a[0..|s|];
    ComparatorOrders(f, lay);
    ghost var _ := XPathSort.Sort(a, 0, |s|, Comparator(f, lay));
    t := a[..];
    SortedNodes(f, lay, s, t);
  }

  lemma SortedNodes(f: forest, lay: Layout, s: seq<XNode>, t: seq<XNode>)
    requires XPathSort.Permuted(s, t, 0, |s|) && Faithful(f, lay)
    requires XPathSort.SortedRange(t, 0, |s|, Comparator(f, lay))
    ensures multiset(t) == multiset(s) && WeaklyOrdered(false, t)
  {
    hide BeforeX, Faithful, Comparator, XPathSort.Precedes;
    assert s[0..|s|] == s && t[0..|t|] == t;
    forall i, j | 0 <= i < j < |t| ensures !BeforeX(t[j], t[i]) {
      ComparatorIsBefore(f, lay, t[j], t[i]);
    }
  }

  /** `sort_do` on a set without repeats, as the evaluator makes them. */
  method SortDo(f: forest, lay: Layout, ns: NodeSet) returns (r: NodeSet)
    requires GoodSet(f, ns) && Faithful(f, lay)
    ensures GoodSet(f, r) && r.order == SortedOrder && Members(r.nodes) == Members(ns.nodes)
  {
    hide InDocs, Distinct, Truthful, WeaklyOrdered, WeaklyTrue, Faithful, Sortable;
    TrueWeakly(ns);
    DistinctSortable(f, lay, ns);
    r := Sort(f, lay, ns, false);
    SortedGood(f, ns, r);
  }

  lemma DistinctSortable(f: forest, lay: Layout, ns: NodeSet)
    requires Distinct(ns.nodes)
    ensures Sortable(f, lay, ns)
  {
    hide Comparator, OrderFound, Distinct;
    forall x ensures multiset(ns.nodes)[x] <= 1 {
      DistinctCount(ns.nodes, x);
    }
  }

  lemma SortedGood(f: forest, ns: NodeSet, r: NodeSet)
    requires GoodSet(f, ns) && multiset(r.nodes) == multiset(ns.nodes)
    requires r.order == SortedOrder && WeaklyOrdered(false, r.nodes)
    ensures GoodSet(f, r) && Members(r.nodes) == Members(ns.nodes)
  {
    hide InDocs, Distinct, Truthful, WeaklyOrdered;
    SameMembers(ns.nodes, r.nodes);
    DistinctPermuted(ns.nodes, r.nodes);
    SameDocs(f, ns.nodes, r.nodes);
    TrueWeakly(r);
  }

  lemma SameDocs(f: forest, s: seq<XNode>, t: seq<XNode>)
    requires InDocs(f, s) && Members(t) <= Members(s)
    ensures InDocs(f, t)
  {
    forall x | x in t ensures x.In(f) {
      assert x in Members(t);
    }
  }

  lemma SameMembers(s: seq<XNode>, t: seq<XNode>)
    requires multiset(s) == multiset(t)
    ensures Members(s) == Members(t)
  {
    forall x ensures x in s <==> x in t {
      assert x in s <==> x in multiset(s);
      assert x in t <==> x in multiset(t);
    }
  }

  lemma {:induction false} DistinctCount(s: seq<XNode>, x: XNode)
    ensures Distinct(s) ==> multiset(s)[x] <= 1
    ensures x !in s ==> multiset(s)[x] == 0
    decreases |s|
  {
    if s != [] {
      var front, last := s[..|s| - 1], s[|s| - 1];
      assert s == front + [last];
      assert multiset(s) == multiset(front) + multiset{last};
      DistinctCount(front, x);
      if Distinct(s) {
        assert last !in front;
      }
    }
  }

  lemma DistinctPermuted(s: seq<XNode>, t: seq<XNode>)
    requires Distinct(s) && multiset(s) == multiset(t)
    ensures Distinct(t)
  {
    forall i, j | 0 <= i < j < |t| ensures t[i] != t[j] {
      DistinctCount(s, t[i]);
      TwiceCounts(t, i, j);
    }
  }

  lemma TwiceCounts(t: seq<XNode>, i: nat, j: nat)
    requires i < j < |t|
    ensures t[i] == t[j] ==> multiset(t)[t[i]] >= 2
  {
    var a, b, c := t[..i], t[i + 1..j], t[j + 1..];
    assert t == a + [t[i]] + b + [t[j]] + c;
    assert multiset(t) == multiset(a) + multiset{t[i]} + multiset(b) + multiset{t[j]} + multiset(c);
  }

  // ----- duplicates -----

  /** Where the nodes are in order equal nodes stand together. */
  lemma OrderedClustered(reverse: bool, s: seq<XNode>)
    requires WeaklyOrdered(reverse, s)
    ensures XPathHash.Clustered(s)
  {
    hide BeforeX;
    var less := (a: XNode, b: XNode) => if reverse then BeforeX(b, a) else BeforeX(a, b);
    forall a: XNode, b: XNode, c: XNode
      ensures !BeforeX(a, a) && (BeforeX(a, b) && BeforeX(b, c) ==> BeforeX(a, c))
        && (a != b ==> BeforeX(a, b) != BeforeX(b, a))
    {
      BeforeXIsStrictTotal(a, b, c);
      BeforeXIsStrictTotal(b, a, b);
    }
    XPathHash.SortedClustered(s, less);
  }

  /** `remove_duplicates` */
  method RemoveDuplicates(ns: NodeSet, pointer: XNode -> bv32) returns (r: NodeSet)
    requires WeaklyTrue(ns)
    ensures r.order == ns.order && Distinct(r.nodes) && Members(r.nodes) == Members(ns.nodes)
    ensures r.nodes == XPathHash.Dedup(ns.nodes)
  {
    hide WeaklyOrdered, XPathHash.Clustered;
    var s := ns.nodes;
    var a := new XNode[|s|](i requires 0 <= i < |s| => s[i]);
    assert a[..|s|] == s;
    if ns.order != Unsorted {
      OrderedClustered(ns.order == SortedReverse, s);
    }
    var end := XPathHash.RemoveDuplicates(a, |s|, ns.order == Unsorted, pointer);
    r := NodeSet(a[..end], ns.order);
    XPathHash.DedupIsExact(s);
    assert Members(r.nodes) == Members(s);
  }

  // ----- the first node -----

  /** `xpath_first` */
  method FirstNode(f: forest, lay: Layout, ns: NodeSet) returns (r: Option<XNode>)
    requires InDocs(f, ns.nodes) && WeaklyTrue(ns) && Faithful(f, lay)
    ensures r.None? <==> ns.nodes == []
    ensures r.Some? ==> IsFirst(Members(ns.nodes), r.value)
  {
    hide IsFirst, WeaklyOrdered, InDocs, Faithful;
    if ns.nodes == [] {
      return None;
    }
    match ns.order
    case SortedOrder =>
      EndIsFirst(false, ns.nodes);
      r := Some(ns.nodes[0]);
    case SortedReverse =>
      EndIsFirst(true, ns.nodes);
      r := Some(ns.nodes[|ns.nodes| - 1]);
    case Unsorted =>
      var result := MinElement(f, lay, ns.nodes);
      r := Some(result);
  }

  lemma EndIsFirst(reverse: bool, s: seq<XNode>)
    requires WeaklyOrdered(reverse, s) && s != []
    ensures IsFirst(Members(s), s[if reverse then |s| - 1 else 0])
  {
    hide BeforeX;
    var x := s[if reverse then |s| - 1 else 0];
    forall i | 0 <= i < |s| ensures s[i] == x || BeforeX(x, s[i]) {
      BeforeXIsStrictTotal(x, s[i], x);
    }
  }

  method MinElement(f: forest, lay: Layout, s: seq<XNode>) returns (r: XNode)
    requires InDocs(f, s) && s != [] && Faithful(f, lay)
    ensures IsFirst(Members(s), r)
  {
    hide BeforeX, Faithful, Compared;
    r := s[0];
    for it := 1 to |s|
      invariant r in s[..it] && forall i :: 0 <= i < it ==> s[i] == r || BeforeX(r, s[i])
    {
      var less := DocumentOrderComparator(f, lay, s[it], r);
      FaithfulAnswer(f, lay, s[it], r);
      BeforeXIsStrictTotal(s[it], r, s[it]);
      if less {
        forall i | 0 <= i < it ensures s[i] == s[it] || BeforeX(s[it], s[i]) {
          BeforeXIsStrictTotal(s[it], r, s[i]);
        }
        r := s[it];
      }
      assert s[..it + 1] == s[..it] + [s[it]];
    }
  }
}
