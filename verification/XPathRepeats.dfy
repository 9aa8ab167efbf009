/** Sorting a node set of the application that holds nodes more than once. */
module XPathRepeats {
  import opened Bytes
  import opened XPathTree
  import opened XPathPositions
  import opened XPathAxes
  import opened XPathAst
  import opened XPathMeaning
  import opened XPathNodeSet
  import opened XPathSort

  /** A list that begins and ends with one node and holds another one between is in no order. */
  lemma EndsUnordered(f: forest, lay: Layout, t: seq<XNode>, y: XNode)
    requires InDocs(f, t) && Faithful(f, lay) && t != [] && t[0] == t[|t| - 1] && y in t && y != t[0]
    ensures OrderFound(lay, t) == Unsorted
  {
    hide Faithful, BeforeX, InDocs, Compared;
    var n := |t| - 1;
    var i := Place(t, y);
    BeforeXIsStrictTotal(t[0], y, t[0]);
    Stepwise(f, lay, t, true, 0, i);
    Stepwise(f, lay, t, true, i, n);
    Stepwise(f, lay, t, false, 0, i);
    Stepwise(f, lay, t, false, i, n);
  }

  lemma Place(t: seq<XNode>, y: XNode) returns (i: nat)
    requires y in t
    ensures i < |t| && t[i] == y
  {
    i :| 0 <= i < |t| && t[i] == y;
  }

  /** The condition of `Sort` is needed: a list with at least two different nodes that is not sparse can be arranged so
      that the sort is reached and does not end. */
  lemma SortableIsNeeded(f: forest, lay: Layout, s: seq<XNode>, y: XNode, z: XNode)
    returns (t: seq<XNode>, q: nat, x: XNode)
    requires InDocs(f, s) && Faithful(f, lay) && !Sparse(s, Comparator(f, lay)) && y in s && z in s && y != z
    ensures multiset(t) == multiset(s) && OrderFound(lay, t) == Unsorted && Endless(t, q, x, Comparator(f, lay))
    ensures x.Attr? && BufferOrder(lay, x).Nowhere?
  {
    hide Faithful, InDocs, Sparse, Comparator, OrderFound, Endless, Orders;
    ComparatorOrders(f, lay);
    t, q, x := SparseIsNeeded(s, Comparator(f, lay));
    SameMembers(s, t);
    SameDocs(f, s, t);
    assert y in Members(t) && z in Members(t);
    EndsUnordered(f, lay, t, if y == x then z else y);
    SelfPreceding(f, lay, t, q, x);
  }

  lemma SelfPreceding(f: forest, lay: Layout, t: seq<XNode>, q: nat, x: XNode)
    requires Endless(t, q, x, Comparator(f, lay))
    ensures x.Attr?
    ensures x.In(f) ==> BufferOrder(lay, x).Nowhere?
  {
    ComparedWithItself(lay, x);
    BeforeXIsStrictTotal(x, x, x);
  }

  /** A list whose nodes are all the same does not reach the sort. */
  lemma SameNodesAreOrdered(lay: Layout, s: seq<XNode>)
    requires forall i, j :: 0 <= i < |s| && 0 <= j < |s| ==> s[i] == s[j]
    ensures OrderFound(lay, s) != Unsorted
  {
    hide Compared;
    if |s| >= 2 {
      assert Uniform(lay, s, Compared(lay, s[0], s[0]));
    }
  }

  // ----- a document and a list on which the sort does not end -----

  /** The document `<a x=""><z/></a>`. */
  function Parent(): forest {
    [Node(Document, "", [], [Node(Element, "a", ["x"], [Node(Element, "z", [], [])])])]
  }

  const X: XNode := Attr([0, 0], 0)
  const Z: XNode := Elem([0, 0, 0])

  lemma ParentIsInside()
    ensures X.In(Parent()) && Z.In(Parent()) && BeforeX(X, Z)
  {
    var f := Parent();
    assert [0, 0][1..] == [0] && [0, 0, 0][1..] == [0, 0] && [0][1..] == [];
    var z, a := f[0].children[0].children[0], f[0].children[0];
    assert Inside(z, []) && Inside(a, [0]) && Inside(a, []) && Inside(f[0], [0]) && Inside(f[0], [0, 0]);
    assert Below(f[0], [0]) == Below(a, []) == a;
    assert IsPrefix([0, 0], [0, 0, 0]);
  }

  /** The layout after the name and the value of the attribute have been set. */
  function Renamed(base: nat): Layout {
    Layout(x => if x == X then Strings(Elsewhere, Elsewhere)
                else if x == Elem([0, 0]) then Strings(InBuffer(base + 1), Missing)
                else if x == Z then Strings(InBuffer(base + 9), Missing)
                else Strings(Missing, Missing),
           d => false)
  }

  lemma RenamedIsFaithful(base: nat)
    ensures Faithful(Parent(), Renamed(base)) && BufferOrder(Renamed(base), X).Nowhere?
  {
    var f, lay, a := Parent(), Renamed(base), Elem([0, 0]);
    assert WrittenBefore(a, false, Z, false) && !WrittenBefore(Z, false, a, false) by {
      assert IsPrefix([0, 0], [0, 0, 0]);
      BeforeXIsStrictTotal(a, Z, a);
    }
    assert !WrittenBefore(Z, false, Z, false) && !WrittenBefore(a, false, a, false);
    forall x: XNode, v: bool, y: XNode, w: bool
        | WrittenBefore(x, v, y, w) && TextOf(lay, x, v).InBuffer? && TextOf(lay, y, w).InBuffer?
      ensures TextOf(lay, x, v).at < TextOf(lay, y, w).at
    {
      assert (x == a || x == Z) && (y == a || y == Z) && !v && !w;
    }
    forall x: XNode, y: XNode | BufferOrder(lay, x).There? && BufferOrder(lay, y).There?
      ensures DocumentOf(x) == DocumentOf(y)
    {
      assert (x == a || x == Z) && (y == a || y == Z);
    }
  }

  /** The element `z` and `n >= 17` copies of the attribute: the sort is reached, its first turn, with any pivot it can
      choose and any partition, leaves the copies as the left group, and no turn changes that group. */
  lemma RepeatedAttributeNeverSorts(base: nat, n: nat, p: nat, m: nat, l: nat, t: seq<XNode>, eqbeg: nat, eqend: nat)
    requires n >= 17
    ensures var f, lay, s := Parent(), Renamed(base), InFront(Z, X, n);
      && InDocs(f, s) && Faithful(f, lay) && OrderFound(lay, s) == Unsorted && !Sortable(f, lay, NodeSet(s, Unsorted))
      && (Turned(s, t, 0, n + 1, p, m, l, eqbeg, eqend, Comparator(f, lay)) ==>
            eqbeg == eqend == n && Stuck(t, 0, n, Comparator(f, lay)))
  {
    var f, lay, s := Parent(), Renamed(base), InFront(Z, X, n);
    hide Faithful, Compared, Orders, Stuck, Turned, Renamed, Parent, BeforeX, BufferOrder;
    ParentIsInside();
    RenamedIsFaithful(base);
    ComparatorOrders(f, lay);
    ComparatorIsBefore(f, lay, X, Z);
    FaithfulAnswer(f, lay, Z, X);
    BeforeXIsStrictTotal(X, Z, X);
    ComparedWithItself(lay, X);
    assert s[0] == Z && s[1] == X && s[2] == X;
    assert !Uniform(lay, s, true) && !Uniform(lay, s, false);
    CopiesAreNotSparse(Z, X, n, Comparator(f, lay));
    if Turned(s, t, 0, n + 1, p, m, l, eqbeg, eqend, Comparator(f, lay)) {
      CopiesStay(Z, X, n, Comparator(f, lay), p, m, l, t, eqbeg, eqend);
    }
  }

  lemma CopiesAreNotSparse(z: XNode, x: XNode, n: nat, less: (XNode, XNode) -> bool)
    requires n >= 17 && less(x, x)
    ensures !Sparse(InFront(z, x, n), less)
  {
    var s := InFront(z, x, n);
    Twice(s, 0, n + 1, 1, 2);
    assert s[0..n + 1] == s;
    ManyCopies(z, x, n, less);
  }

  lemma {:induction false} ManyCopies(z: XNode, x: XNode, n: nat, less: (XNode, XNode) -> bool)
    ensures AtOrBefore(InFront(z, x, n), x, less) >= n
    decreases n
  {
    if n > 0 {
      ManyCopies(z, x, n - 1, less);
      assert InFront(z, x, n)[..n] == InFront(z, x, n - 1);
    }
  }
}
