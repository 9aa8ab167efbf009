/** `document_order_comparator`. Where both nodes still have a string in the parse buffer, the addresses of the strings
    decide; otherwise the links do. */
module XPathPositions {
  import opened Bytes
  import opened XPathTree

  /** A string of a node: null, in the parse buffer at an address, or in memory of its own or shared with another
      node. */
  datatype Text = Missing | InBuffer(at: nat) | Elsewhere

  /** Where the name and the value of a node or an attribute are. */
  datatype Strings = Strings(name: Text, value: Text)

  /** The strings of every node, and the documents whose strings may be shared or out of order: `shared` stands for the
      flag `xml_memory_page_contents_shared_mask` of the document, which moves and appended buffers set. */
  datatype Layout = Layout(strings: XNode -> Strings, shared: nat -> bool)

  datatype Position = Nowhere | There(at: nat)

  function DocumentOf(x: XNode): nat {
    if x.Home() == [] then 0 else x.Home()[0]
  }

  function PositionOf(t: Text): Position {
    if t.InBuffer? then There(t.at) else Nowhere
  }

  /** `document_buffer_order`. A name of a node that is not in the buffer lets its value answer; a name of an attribute
      does so only if it is somewhere else, not if it is missing. */
  function BufferOrder(lay: Layout, x: XNode): Position {
    var s := lay.strings(x);
    if lay.shared(DocumentOf(x)) then Nowhere
    else if x.Elem? then if s.name.InBuffer? then There(s.name.at) else PositionOf(s.value)
    else if !s.name.Elsewhere? then PositionOf(s.name)
    else PositionOf(s.value)
  }

  /** The comparison of the links alone: document order, except that an attribute counts as before itself. */
  predicate ByLinks(a: XNode, b: XNode) {
    BeforeX(a, b) || (a == b && a.Attr?)
  }

  /** The answer of the comparator. */
  predicate Compared(lay: Layout, a: XNode, b: XNode) {
    var lo, ro := BufferOrder(lay, a), BufferOrder(lay, b);
    if lo.There? && ro.There? then lo.at < ro.at else ByLinks(a, b)
  }

  /** The part of `document_order_comparator` that looks at the links. */
  method CompareLinks(f: forest, lhs: XNode, rhs: XNode) returns (r: bool)
    requires lhs.In(f) && rhs.In(f)
    ensures r <==> ByLinks(lhs, rhs)
  {
    BeforeIsAsymmetric(lhs.Home(), rhs.Home());
    if lhs.Attr? && rhs.Attr? {
      if lhs.parent == rhs.parent {
        var a := lhs.index;
        while a < |Subtree(f, lhs.parent).attributes|
          invariant lhs.index <= rhs.index ==> a <= rhs.index
        {
          if a == rhs.index {
            return true;
          }
          a := a + 1;
        }
        return false;
      }
    } else if lhs.Attr? {
      if lhs.parent == rhs.node {
        return false;
      }
    } else if rhs.Attr? {
      if rhs.parent == lhs.node {
        return true;
      }
    }
    if lhs.Home() == rhs.Home() {
      return false;
    }
    r := NodeIsBefore(f, lhs.Home(), rhs.Home());
  }

  /** `document_order_comparator` */
  method DocumentOrderComparator(f: forest, lay: Layout, lhs: XNode, rhs: XNode) returns (r: bool)
    requires lhs.In(f) && rhs.In(f)
    ensures r <==> Compared(lay, lhs, rhs)
  {
    var lo, ro := BufferOrder(lay, lhs), BufferOrder(lay, rhs);
    if lo.There? && ro.There? {
      return lo.at < ro.at;
    }
    r := CompareLinks(f, lhs, rhs);
  }

  /** A node compared with itself counts as before itself exactly if it is an attribute without a position in the
      buffer. */
  lemma ComparedWithItself(lay: Layout, x: XNode)
    ensures Compared(lay, x, x) <==> x.Attr? && BufferOrder(lay, x).Nowhere?
  {
    BeforeXIsStrictTotal(x, x, x);
  }

  // ----- the layout of a parsed document -----

  function TextOf(lay: Layout, x: XNode, value: bool): Text {
    if value then lay.strings(x).value else lay.strings(x).name
  }

  /** The string of `x` comes before the string of `y` in the text the parser reads: names before values, attributes
      after the name of their element, embedded character data after the attributes and before the children. */
  predicate WrittenBefore(x: XNode, value: bool, y: XNode, value': bool) {
    if x == y then !value && value'
    else if x.Elem? && value && y.Attr? && y.parent == x.node then false
    else if y.Elem? && value' && x.Attr? && x.parent == y.node then true
    else BeforeX(x, y)
  }

  /** The strings that are still in the buffer of a document are in the order in which the parser met them. Renaming
      keeps this: a string stays where it is, leaves the buffer or goes away. */
  ghost predicate ParserOrder(f: forest, lay: Layout) {
    forall x: XNode, v: bool, y: XNode, w: bool ::
      x.In(f) && y.In(f) && DocumentOf(x) == DocumentOf(y) && !lay.shared(DocumentOf(x)) && WrittenBefore(x, v, y, w)
      && TextOf(lay, x, v).InBuffer? && TextOf(lay, y, w).InBuffer?
      ==> TextOf(lay, x, v).at < TextOf(lay, y, w).at
  }

  /** No element whose name has left the buffer is placed by its embedded value while one of its attributes is placed,
      too. */
  ghost predicate NamesKept(f: forest, lay: Layout) {
    forall a: XNode :: a.In(f) && a.Attr? && BufferOrder(lay, a).There? && BufferOrder(lay, Elem(a.parent)).There? ==>
      lay.strings(Elem(a.parent)).name.InBuffer?
  }

  /** The buffers of different documents lie in the order of the documents. */
  ghost predicate BuffersAligned(f: forest, lay: Layout) {
    forall x: XNode, y: XNode ::
      x.In(f) && y.In(f) && DocumentOf(x) < DocumentOf(y) && BufferOrder(lay, x).There? && BufferOrder(lay, y).There?
      ==> BufferOrder(lay, x).at < BufferOrder(lay, y).at
  }

  /** The comparator is document order on different nodes. */
  ghost predicate InDocumentOrder(f: forest, lay: Layout) {
    forall x: XNode, y: XNode :: x.In(f) && y.In(f) && x != y ==> (Compared(lay, x, y) <==> BeforeX(x, y))
  }

  /** What the evaluator needs of the documents. */
  ghost predicate Faithful(f: forest, lay: Layout) {
    ParserOrder(f, lay) && NamesKept(f, lay) && BuffersAligned(f, lay)
  }

  lemma DocumentsDecide(x: XNode, y: XNode)
    requires x.Home() != [] && y.Home() != [] && DocumentOf(x) < DocumentOf(y)
    ensures BeforeX(x, y) && !BeforeX(y, x) && x != y
  {
    BeforeAt(x.Home(), y.Home(), 0);
    BeforeXIsStrictTotal(x, y, x);
  }

  /** Which of its strings places a node */
  function Placing(lay: Layout, x: XNode): bool {
    if x.Elem? then !lay.strings(x).name.InBuffer? else lay.strings(x).name.Elsewhere?
  }

  lemma PlacedBy(lay: Layout, x: XNode)
    requires BufferOrder(lay, x).There?
    ensures !lay.shared(DocumentOf(x)) && TextOf(lay, x, Placing(lay, x)) == InBuffer(BufferOrder(lay, x).at)
  {}

  /** Within a document the addresses are in document order, except between an element and its attributes. */
  lemma SameDocument(f: forest, lay: Layout, x: XNode, y: XNode)
    requires ParserOrder(f, lay) && x.In(f) && y.In(f) && DocumentOf(x) == DocumentOf(y) && BeforeX(x, y)
    requires BufferOrder(lay, x).There? && BufferOrder(lay, y).There?
    ensures x.Elem? && y.Attr? && y.parent == x.node && Placing(lay, x)
      ==> BufferOrder(lay, y).at < BufferOrder(lay, x).at
    ensures !(x.Elem? && y.Attr? && y.parent == x.node && Placing(lay, x))
      ==> BufferOrder(lay, x).at < BufferOrder(lay, y).at
  {
    PlacedBy(lay, x);
    PlacedBy(lay, y);
    BeforeXIsStrictTotal(x, y, x);
    BeforeXIsStrictTotal(x, x, x);
    if x.Elem? && y.Attr? && y.parent == x.node && Placing(lay, x) {
      assert WrittenBefore(y, Placing(lay, y), x, Placing(lay, x));
    } else {
      assert WrittenBefore(x, Placing(lay, x), y, Placing(lay, y));
    }
  }

  lemma FaithfulPair(f: forest, lay: Layout, x: XNode, y: XNode)
    requires Faithful(f, lay) && x.In(f) && y.In(f) && BeforeX(x, y)
    ensures Compared(lay, x, y) && !Compared(lay, y, x)
  {
    hide ParserOrder, BeforeX;
    BeforeXIsStrictTotal(x, y, x);
    BeforeXIsStrictTotal(x, x, x);
    if BufferOrder(lay, x).There? && BufferOrder(lay, y).There? {
      if DocumentOf(x) == DocumentOf(y) {
        SameDocument(f, lay, x, y);
      } else if DocumentOf(y) < DocumentOf(x) {
        DocumentsDecide(y, x);
      }
    }
  }

  /** The comparator of a laid-out document is document order on different nodes exactly if no element has lost its name
      while its embedded value and one of its attributes are still in the buffer, and the buffers are in the order of
      the documents. */
  lemma ComparatorIsExact(f: forest, lay: Layout)
    requires ParserOrder(f, lay)
    ensures InDocumentOrder(f, lay) <==> NamesKept(f, lay) && BuffersAligned(f, lay)
  {
    if NamesKept(f, lay) && BuffersAligned(f, lay) {
      ComparatorOrdersNodes(f, lay);
    }
    if InDocumentOrder(f, lay) {
      OrderKeepsNames(f, lay);
      OrderAlignsBuffers(f, lay);
    }
  }

  lemma ComparatorOrdersNodes(f: forest, lay: Layout)
    requires Faithful(f, lay)
    ensures InDocumentOrder(f, lay)
  {
    hide Faithful, Compared, BeforeX;
    forall x: XNode, y: XNode | x.In(f) && y.In(f) && x != y ensures Compared(lay, x, y) <==> BeforeX(x, y) {
      BeforeXIsStrictTotal(x, y, x);
      if BeforeX(x, y) {
        FaithfulPair(f, lay, x, y);
      } else {
        FaithfulPair(f, lay, y, x);
      }
    }
  }

  lemma OrderKeepsNames(f: forest, lay: Layout)
    requires ParserOrder(f, lay) && InDocumentOrder(f, lay)
    ensures NamesKept(f, lay)
  {
    hide ParserOrder, InDocumentOrder;
    forall a: XNode | a.In(f) && a.Attr? && BufferOrder(lay, a).There? && BufferOrder(lay, Elem(a.parent)).There?
      ensures lay.strings(Elem(a.parent)).name.InBuffer?
    {
      var e := Elem(a.parent);
      SameDocument(f, lay, e, a);
      InOrder(f, lay, e, a);
    }
  }

  lemma InOrder(f: forest, lay: Layout, x: XNode, y: XNode)
    requires InDocumentOrder(f, lay) && x.In(f) && y.In(f) && x != y
    ensures Compared(lay, x, y) <==> BeforeX(x, y)
  {}

  lemma OrderAlignsBuffers(f: forest, lay: Layout)
    requires InDocumentOrder(f, lay)
    ensures BuffersAligned(f, lay)
  {
    hide InDocumentOrder, BeforeX;
    forall x: XNode, y: XNode | x.In(f) && y.In(f) && DocumentOf(x) < DocumentOf(y)
        && BufferOrder(lay, x).There? && BufferOrder(lay, y).There?
      ensures BufferOrder(lay, x).at < BufferOrder(lay, y).at
    {
      DocumentsDecide(x, y);
      InOrder(f, lay, x, y);
    }
  }

  // ----- an element that loses its name -----

  /** `lay` after strings have left the buffer or gone away, and none has come into it. */
  ghost predicate Loses(lay: Layout, after: Layout) {
    && after.shared == lay.shared
    && forall x: XNode, v: bool :: TextOf(after, x, v).InBuffer? ==> TextOf(after, x, v) == TextOf(lay, x, v)
  }

  /** Renaming keeps the strings in the order in which the parser met them. */
  lemma LosingKeepsParserOrder(f: forest, lay: Layout, after: Layout)
    requires ParserOrder(f, lay) && Loses(lay, after)
    ensures ParserOrder(f, after)
  {}

  /** The document `<a b="1">t</a>`, its text embedded in the element. */
  function Small(): forest {
    [Node(Document, "", [], [Node(Element, "a", ["b"], [])])]
  }

  const A: XNode := Elem([0, 0])
  const B: XNode := Attr([0, 0], 0)

  /** Where its strings are when the buffer is at `base`: the name of the element behind `<`, the attribute behind the
      name, the text behind the tag. */
  function SmallLayout(base: nat, name: Text): Layout {
    Layout(x => if x == A then Strings(name, InBuffer(base + 9))
                else if x == B then Strings(InBuffer(base + 3), InBuffer(base + 6))
                else Strings(Missing, Missing),
           d => false)
  }

  lemma SmallNodes(x: XNode)
    requires x.In(Small())
    ensures x == Elem([0]) || x == A || x == B
  {
    var f, p := Small(), x.Home();
    var q := p[1..];
    assert Inside(f[0], q);
    if q == [] {
      assert p == [0];
    } else {
      assert Inside(f[0].children[q[0]], q[1..]) && q[1..] == [];
      assert p == [0] + q && q == [q[0]] + q[1..];
      assert p == [0, 0];
      assert Below(f[0], [0]) == Below(f[0].children[0], [0][1..]);
    }
  }

  lemma SmallIsInside()
    ensures A.In(Small()) && B.In(Small())
  {
    var f := Small();
    assert [0, 0][1..] == [0] && [0][1..] == [];
    assert Inside(f[0], [0]);
    assert Below(f[0], [0]) == Below(f[0].children[0], [0][1..]);
  }

  /** As parsed, the document is compared in document order. After `set_name("")` on the element its embedded text
      places it behind its attribute, which then counts as before it. */
  lemma LostNameMisplaces(base: nat)
    ensures ParserOrder(Small(), SmallLayout(base, InBuffer(base + 1)))
    ensures InDocumentOrder(Small(), SmallLayout(base, InBuffer(base + 1)))
    ensures ParserOrder(Small(), SmallLayout(base, Missing)) && !NamesKept(Small(), SmallLayout(base, Missing))
    ensures BeforeX(A, B) && Compared(SmallLayout(base, Missing), B, A) && !Compared(SmallLayout(base, Missing), A, B)
  {
    var f, lay, after := Small(), SmallLayout(base, InBuffer(base + 1)), SmallLayout(base, Missing);
    SmallIsInside();
    forall x: XNode, v: bool, y: XNode, w: bool
        | x.In(f) && y.In(f) && WrittenBefore(x, v, y, w) && TextOf(lay, x, v).InBuffer? && TextOf(lay, y, w).InBuffer?
      ensures TextOf(lay, x, v).at < TextOf(lay, y, w).at
    {
      SmallNodes(x);
      SmallNodes(y);
      BeforeXIsStrictTotal(A, B, A);
    }
    forall x: XNode, y: XNode | x.In(f) && y.In(f) && x != y ensures DocumentOf(x) == DocumentOf(y) {
      SmallNodes(x);
      SmallNodes(y);
    }
    assert ParserOrder(f, lay) && NamesKept(f, lay) && BuffersAligned(f, lay);
    ComparatorIsExact(f, lay);
    LosingKeepsParserOrder(f, lay, after);
    BeforeXIsStrictTotal(A, B, A);
  }
}
