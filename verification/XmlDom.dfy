/** The DOM operations of pugixml on linked nodes. Every operation performs the edit of the child lists that its name
    says, keeps the document one tree, and no move makes a parent chain cyclic. */
module XmlDom {
  import opened Bytes
  import opened XmlForest
  import opened XmlLinks

  datatype Kind =
    | KindDocument | KindElement | KindPcdata | KindCdata | KindComment | KindPi | KindDeclaration | KindDoctype

  datatype Attribute = Attribute(name: bytes, value: bytes)

  /** `xml_document_struct`, as far as it tells documents apart. */
  class Document {
    constructor () {}
  }

  /** `xml_node_struct`. A null string is an empty one. The document is what the header of the page of the node leads
      to. */
  class Node {
    const kind: Kind
    const document: Document
    var parent: Node?
    var firstChild: Node?
    var prevSiblingC: Node?
    var nextSibling: Node?
    var name: bytes
    var value: bytes
    var attributes: seq<Attribute>

    constructor (kind: Kind, document: Document)
      ensures this.kind == kind && this.document == document
      ensures parent == null && firstChild == null && prevSiblingC == null && nextSibling == null
      ensures name == "" && value == "" && attributes == []
    {
      this.kind, this.document := kind, document;
      name, value, attributes := "", "", [];
      parent, firstChild, prevSiblingC, nextSibling := null, null, null, null;
    }
  }

  function AsRef(n: Node?): Ref<Node> {
    if n == null then Null else
    var m: Node := n;
    To(m)
  }

  ghost function Parents(s: set<Node>): map<Node, Ref<Node>>
    reads s`parent
  {
    map n | n in s :: AsRef(n.parent)
  }

  ghost function Firsts(s: set<Node>): map<Node, Ref<Node>>
    reads s`firstChild
  {
    map n | n in s :: AsRef(n.firstChild)
  }

  ghost function Prevs(s: set<Node>): map<Node, Ref<Node>>
    reads s`prevSiblingC
  {
    map n | n in s :: AsRef(n.prevSiblingC)
  }

  ghost function Nexts(s: set<Node>): map<Node, Ref<Node>>
    reads s`nextSibling
  {
    map n | n in s :: AsRef(n.nextSibling)
  }

  /** The links of the nodes as they are in memory. */
  ghost function Snapshot(s: set<Node>): Links<Node>
    reads s`parent, s`firstChild, s`prevSiblingC, s`nextSibling
  {
    Links(Parents(s), Firsts(s), Prevs(s), Nexts(s))
  }

  lemma SnapshotOf(s: set<Node>, n: Node)
    requires n in s
    ensures var l := Snapshot(s);
      && n in l.parent && l.parent[n] == AsRef(n.parent) && n in l.first && l.first[n] == AsRef(n.firstChild)
      && n in l.prev && l.prev[n] == AsRef(n.prevSiblingC) && n in l.next && l.next[n] == AsRef(n.nextSibling)
  {
  }

  method SetParent(n: Node, v: Node?, ghost s: set<Node>)
    requires n in s
    modifies n`parent
    ensures n.parent == v && Snapshot(s) == old(Snapshot(s)).(parent := old(Snapshot(s)).parent[n := AsRef(v)])
  {
    ghost var was := Parents(s);
    n.parent := v;
    assert Parents(s) == was[n := AsRef(v)];
  }

  method SetFirst(n: Node, v: Node?, ghost s: set<Node>)
    requires n in s
    modifies n`firstChild
    ensures n.firstChild == v && Snapshot(s) == old(Snapshot(s)).(first := old(Snapshot(s)).first[n := AsRef(v)])
  {
    ghost var was := Firsts(s);
    n.firstChild := v;
    assert Firsts(s) == was[n := AsRef(v)];
  }

  method SetPrev(n: Node, v: Node?, ghost s: set<Node>)
    requires n in s
    modifies n`prevSiblingC
    ensures n.prevSiblingC == v && Snapshot(s) == old(Snapshot(s)).(prev := old(Snapshot(s)).prev[n := AsRef(v)])
  {
    ghost var was := Prevs(s);
    n.prevSiblingC := v;
    assert Prevs(s) == was[n := AsRef(v)];
  }

  method SetNext(n: Node, v: Node?, ghost s: set<Node>)
    requires n in s
    modifies n`nextSibling
    ensures n.nextSibling == v && Snapshot(s) == old(Snapshot(s)).(next := old(Snapshot(s)).next[n := AsRef(v)])
  {
    ghost var was := Nexts(s);
    n.nextSibling := v;
    assert Nexts(s) == was[n := AsRef(v)];
  }

  /** `allow_insert_child` */
  predicate AllowInsertChild(parent: Kind, child: Kind) {
    (parent == KindDocument || parent == KindElement) && child != KindDocument
    && (parent != KindDocument ==> child != KindDeclaration && child != KindDoctype)
  }

  /** What a node of each kind may contain: anything but a document in a document, markup and text in an element, and
      nothing elsewhere. */
  predicate MayContain(parent: Kind, child: Kind) {
    match parent
    case KindDocument =>
      child in {KindElement, KindPcdata, KindCdata, KindComment, KindPi, KindDeclaration, KindDoctype}
    case KindElement => child in {KindElement, KindPcdata, KindCdata, KindComment, KindPi}
    case _ => false
  }

  lemma AllowedIff(parent: Kind, child: Kind)
    ensures AllowInsertChild(parent, child) <==> MayContain(parent, child)
  {
  }

  // ----- the list operations -----

  /** `append_node` */
  method AppendLinks(child: Node, node: Node, ghost s: set<Node>)
    requires child in s && node in s && Closed(Snapshot(s), s)
    modifies s`parent, s`firstChild, s`prevSiblingC, s`nextSibling
    ensures Snapshot(s) == AppendEdit(old(Snapshot(s)), child, node)
  {
    hide Snapshot;
    SnapshotOf(s, node);
    SetParent(child, node, s);
    var head := node.firstChild;
    if head != null {
      SnapshotOf(s, head);
      var tail := head.prevSiblingC;
      SetNext(tail, child, s);
      SetPrev(child, tail, s);
      SetPrev(head, child, s);
    } else {
      SetFirst(node, child, s);
      SetPrev(child, child, s);
    }
  }

  /** `prepend_node` */
  method PrependLinks(child: Node, node: Node, ghost s: set<Node>)
    requires child in s && node in s && Closed(Snapshot(s), s)
    modifies s`parent, s`firstChild, s`prevSiblingC, s`nextSibling
    ensures Snapshot(s) == PrependEdit(old(Snapshot(s)), child, node)
  {
    hide Snapshot;
    SnapshotOf(s, node);
    SetParent(child, node, s);
    var head := node.firstChild;
    if head != null {
      SnapshotOf(s, head);
      SetPrev(child, head.prevSiblingC, s);
      SetPrev(head, child, s);
    } else {
      SetPrev(child, child, s);
    }
    SetNext(child, head, s);
    SetFirst(node, child, s);
  }

  /** `insert_node_after` */
  method InsertAfterLinks(child: Node, node: Node, ghost s: set<Node>)
    requires child in s && node in s && Closed(Snapshot(s), s) && node.parent != null && node.parent.firstChild != null
    requires child != node
    modifies s`parent, s`firstChild, s`prevSiblingC, s`nextSibling
    ensures Snapshot(s) == InsertAfterEdit(old(Snapshot(s)), child, node, old(node.parent))
  {
    hide Snapshot;
    SnapshotOf(s, node);
    SnapshotOf(s, node.parent);
    var parent := node.parent;
    SetParent(child, parent, s);
    if node.nextSibling != null {
      SetPrev(node.nextSibling, child, s);
    } else {
      SetPrev(parent.firstChild, child, s);
    }
    SetNext(child, node.nextSibling, s);
    SetPrev(child, node, s);
    SetNext(node, child, s);
  }

  /** `insert_node_before` */
  method InsertBeforeLinks(child: Node, node: Node, ghost s: set<Node>)
    requires child in s && node in s && Closed(Snapshot(s), s) && node.parent != null && node.prevSiblingC != null
    requires child != node
    modifies s`parent, s`firstChild, s`prevSiblingC, s`nextSibling
    ensures Snapshot(s) == InsertBeforeEdit(old(Snapshot(s)), child, node, old(node.parent))
  {
    hide Snapshot;
    SnapshotOf(s, node);
    SnapshotOf(s, node.prevSiblingC);
    var parent := node.parent;
    SetParent(child, parent, s);
    if node.prevSiblingC.nextSibling != null {
      SetNext(node.prevSiblingC, child, s);
    } else {
      SetFirst(parent, child, s);
    }
    SetPrev(child, node.prevSiblingC, s);
    SetNext(child, node, s);
    SetPrev(node, child, s);
  }

  /** `remove_node` */
  method RemoveLinks(node: Node, ghost s: set<Node>)
    requires node in s && Closed(Snapshot(s), s) && node.parent != null && node.parent.firstChild != null
    requires node.prevSiblingC != null
      && (node.nextSibling == null && node.parent.firstChild == node ==> node.prevSiblingC == node)
    modifies s`parent, s`firstChild, s`prevSiblingC, s`nextSibling
    ensures Snapshot(s) == RemoveEdit(old(Snapshot(s)), node, old(node.parent))
  {
    hide Snapshot;
    SnapshotOf(s, node);
    SnapshotOf(s, node.parent);
    SnapshotOf(s, node.prevSiblingC);
    var parent := node.parent;
    if node.nextSibling != null {
      SetPrev(node.nextSibling, node.prevSiblingC, s);
    } else {
      SetPrev(parent.firstChild, node.prevSiblingC, s);
    }
    if node.prevSiblingC.nextSibling != null {
      SetNext(node.prevSiblingC, node.nextSibling, s);
    } else {
      SetFirst(parent, node.nextSibling, s);
    }
    SetParent(node, null, s);
    SetPrev(node, null, s);
    SetNext(node, null, s);
  }

  /** The links in memory show the forest. */
  ghost predicate Linked(f: Forest<Node>)
    reads f.kids.Keys`parent, f.kids.Keys`firstChild, f.kids.Keys`prevSiblingC, f.kids.Keys`nextSibling
  {
    Shows(f, Snapshot(f.kids.Keys))
  }

  method AppendNode(ghost f: Forest<Node>, child: Node, node: Node) returns (ghost g: Forest<Node>)
    requires Linked(f) && child in f.kids && child !in f.up && node in f.kids && WellFormed(f) && !Above(f, child, node)
    modifies f.kids.Keys`parent, f.kids.Keys`firstChild, f.kids.Keys`prevSiblingC, f.kids.Keys`nextSibling
    ensures g == Attach(f, child, node, |f.kids[node]|) && Linked(g)
  {
    ghost var s := f.kids.Keys;
    ghost var l := Snapshot(s);
    AppendTarget(f, l, child, node);
    g := Attach(f, child, node, |f.kids[node]|);
    ghost var k := AppendEdit(l, child, node);
    TargetFacts(f, l, g, k, child, node, |f.kids[node]|);
    hide Shows, WellFormed, Above, Attach, Snapshot, AppendEdit, Closed, Target;
    AppendLinks(child, node, s);
    assert Snapshot(s) == k;
    assert g.kids.Keys == s;
  }

  method PrependNode(ghost f: Forest<Node>, child: Node, node: Node) returns (ghost g: Forest<Node>)
    requires Linked(f) && child in f.kids && child !in f.up && node in f.kids && WellFormed(f) && !Above(f, child, node)
    modifies f.kids.Keys`parent, f.kids.Keys`firstChild, f.kids.Keys`prevSiblingC, f.kids.Keys`nextSibling
    ensures g == Attach(f, child, node, 0) && Linked(g)
  {
    ghost var s := f.kids.Keys;
    ghost var l := Snapshot(s);
    PrependTarget(f, l, child, node);
    g := Attach(f, child, node, 0);
    ghost var k := PrependEdit(l, child, node);
    TargetFacts(f, l, g, k, child, node, 0);
    hide Shows, WellFormed, Above, Attach, Snapshot, PrependEdit, Closed, Target;
    PrependLinks(child, node, s);
    assert Snapshot(s) == k;
    assert g.kids.Keys == s;
  }

  method InsertNodeAfter(ghost f: Forest<Node>, child: Node, node: Node) returns (ghost g: Forest<Node>)
    requires Linked(f) && child in f.kids && child !in f.up && node in f.up && WellFormed(f)
      && !Above(f, child, f.up[node])
    modifies f.kids.Keys`parent, f.kids.Keys`firstChild, f.kids.Keys`prevSiblingC, f.kids.Keys`nextSibling
    ensures g == Attach(f, child, f.up[node], Behind(f.kids[f.up[node]], node)) && Linked(g)
  {
    ghost var s := f.kids.Keys;
    ghost var l, p := Snapshot(s), f.up[node];
    InsertAfterAt(f, l, child, node);
    ghost var i := Behind(f.kids[p], node);
    g := Attach(f, child, p, i);
    ghost var k := InsertAfterEdit(l, child, node, p);
    TargetFacts(f, l, g, k, child, p, i);
    SnapshotOf(s, node);
    SnapshotOf(s, p);
    hide Shows, WellFormed, Above, Attach, Snapshot, InsertAfterEdit, Closed, Target, Placed;
    InsertAfterLinks(child, node, s);
    assert Snapshot(s) == k;
    assert g.kids.Keys == s;
  }

  method InsertNodeBefore(ghost f: Forest<Node>, child: Node, node: Node) returns (ghost g: Forest<Node>)
    requires Linked(f) && child in f.kids && child !in f.up && node in f.up && WellFormed(f)
      && !Above(f, child, f.up[node])
    modifies f.kids.Keys`parent, f.kids.Keys`firstChild, f.kids.Keys`prevSiblingC, f.kids.Keys`nextSibling
    ensures g == Attach(f, child, f.up[node], Index(f.kids[f.up[node]], node)) && Linked(g)
  {
    ghost var s := f.kids.Keys;
    ghost var l, p := Snapshot(s), f.up[node];
    InsertBeforeAt(f, l, child, node);
    ghost var i := Index(f.kids[p], node);
    g := Attach(f, child, p, i);
    ghost var k := InsertBeforeEdit(l, child, node, p);
    TargetFacts(f, l, g, k, child, p, i);
    SnapshotOf(s, node);
    SnapshotOf(s, p);
    hide Shows, WellFormed, Above, Attach, Snapshot, InsertBeforeEdit, Closed, Target, Placed;
    InsertBeforeLinks(child, node, s);
    assert Snapshot(s) == k;
    assert g.kids.Keys == s;
  }

  method RemoveNode(ghost f: Forest<Node>, node: Node) returns (ghost g: Forest<Node>)
    requires Linked(f) && node in f.up && WellFormed(f)
    modifies f.kids.Keys`parent, f.kids.Keys`firstChild, f.kids.Keys`prevSiblingC, f.kids.Keys`nextSibling
    ensures f.up[node] in f.kids && g == Detach(f, node) && Linked(g)
  {
    ghost var s := f.kids.Keys;
    ghost var l, p := Snapshot(s), f.up[node];
    RemoveTarget(f, l, node);
    PlacedLinks(l, f.kids[p], p, Index(f.kids[p], node));
    g := Detach(f, node);
    ghost var k := RemoveEdit(l, node, p);
    SnapshotOf(s, node);
    SnapshotOf(s, p);
    hide Shows, WellFormed, Snapshot, RemoveEdit, Closed, Placed;
    RemoveLinks(node, s);
    assert Snapshot(s) == k;
    assert g.kids.Keys == s;
  }

  /** `allow_move`: the nodes belong to one document, and the new parent is not at or below the moved node. */
  method AllowMove(ghost f: Forest<Node>, parent: Node, child: Node) returns (r: bool)
    requires Linked(f) && WellFormed(f) && parent in f.kids && child in f.kids
    ensures r <==> CanMove(f, parent, child)
  {
    AllowedIff(parent.kind, child.kind);
    if !AllowInsertChild(parent.kind, child.kind) {
      return false;
    }
    if parent.document != child.document {
      return false;
    }
    var cur: Node? := parent;
    while cur != null
      invariant cur != null ==> cur in f.kids
      invariant Above(f, child, parent) <==> cur != null && Above(f, child, cur)
      decreases if cur == null then 0 else 1 + f.rank[cur]
    {
      if cur == child {
        return false;
      }
      SnapshotOf(f.kids.Keys, cur);
      assert Shown(f, Snapshot(f.kids.Keys), cur);
      cur := cur.parent;
    }
    r := true;
  }

  ghost predicate CanMove(f: Forest<Node>, parent: Node, child: Node)
    requires WellFormed(f) && parent in f.kids
  {
    MayContain(parent.kind, child.kind) && parent.document == child.document && !Above(f, child, parent)
  }

  lemma CanMoveParts(f: Forest<Node>, parent: Node, child: Node)
    requires WellFormed(f) && parent in f.kids && CanMove(f, parent, child)
    ensures MayContain(parent.kind, child.kind) && parent.document == child.document && !Above(f, child, parent)
  {
  }

  /** One more node without links. */
  lemma NewParents(s: set<Node>, n: Node)
    requires n !in s && n.parent == null
    ensures Parents(s + {n}) == Parents(s)[n := Null]
  {
    hide AsRef;
    AsRefNull();
  }

  lemma AsRefNull()
    ensures AsRef(null) == Null
  {
  }

  lemma NewFirsts(s: set<Node>, n: Node)
    requires n !in s && n.firstChild == null
    ensures Firsts(s + {n}) == Firsts(s)[n := Null]
  {
    hide AsRef;
    AsRefNull();
  }

  lemma NewPrevs(s: set<Node>, n: Node)
    requires n !in s
    ensures Prevs(s + {n}) == Prevs(s)[n := AsRef(n.prevSiblingC)]
  {
    hide AsRef;
  }

  lemma NewNexts(s: set<Node>, n: Node)
    requires n !in s && n.nextSibling == null
    ensures Nexts(s + {n}) == Nexts(s)[n := Null]
  {
    hide AsRef;
    AsRefNull();
  }

  // ----- documents -----

  /** The nodes of some documents: a tree below each document node, all of it allocated in that document. */
  ghost predicate Dom(f: Forest<Node>)
    reads f.kids.Keys`parent, f.kids.Keys`firstChild, f.kids.Keys`prevSiblingC, f.kids.Keys`nextSibling
  {
    Linked(f) && WellFormed(f) && Homed(f)
  }

  /** Only documents and elements have children, and declarations and document types stand directly below a document. */
  ghost predicate Arranged(f: Forest<Node>) {
    forall n :: n in f.up ==>
      && f.up[n].kind in {KindDocument, KindElement}
      && (n.kind in {KindDeclaration, KindDoctype} ==> f.up[n].kind == KindDocument)
  }

  ghost predicate Homed(f: Forest<Node>) {
    && (forall n :: n in f.kids ==> (n.kind == KindDocument <==> n !in f.up))
    && (forall n :: n in f.up ==> n.document == f.up[n].document)
    && Arranged(f)
    && (forall a, b ::
         a in f.kids && b in f.kids && a.kind == KindDocument && b.kind == KindDocument && a.document == b.document
         ==> a == b)
  }

  /** The document node above a node. */
  lemma {:induction false} RootOf(f: Forest<Node>, n: Node) returns (root: Node)
    requires WellFormed(f) && Homed(f) && n in f.kids
    ensures root in f.kids && root.kind == KindDocument && Above(f, root, n) && root.document == n.document
    decreases f.rank[n]
  {
    if n in f.up {
      root := RootOf(f, f.up[n]);
    } else {
      root := n;
    }
  }

  lemma {:induction false} AboveSameDocument(f: Forest<Node>, a: Node, n: Node)
    requires WellFormed(f) && Homed(f) && n in f.kids && Above(f, a, n)
    ensures a in f.kids && a.document == n.document
    decreases f.rank[n]
  {
    if a != n {
      AboveSameDocument(f, a, f.up[n]);
    }
  }

  lemma OneRoot(f: Forest<Node>, a: Node, b: Node)
    requires Homed(f) && a in f.kids && b in f.kids && a.kind == KindDocument && b.kind == KindDocument
      && a.document == b.document
    ensures a == b
  {
  }

  /** The document node `root` is above both nodes. */
  ghost predicate CommonRoot(f: Forest<Node>, root: Node, a: Node, b: Node)
    requires WellFormed(f) && a in f.kids && b in f.kids
  {
    root in f.kids && root.kind == KindDocument && Above(f, root, a) && Above(f, root, b)
  }

  /** Two nodes belong to one document exactly if one document node is above both. */
  lemma SameDocumentIff(f: Forest<Node>, a: Node, b: Node)
    requires WellFormed(f) && Homed(f) && a in f.kids && b in f.kids
    ensures a.document == b.document <==> exists root :: CommonRoot(f, root, a, b)
  {
    hide WellFormed, Homed, Above;
    var r := RootOf(f, a);
    var s := RootOf(f, b);
    if a.document == b.document {
      OneRoot(f, r, s);
      assert CommonRoot(f, r, a, b);
    }
    forall root | CommonRoot(f, root, a, b) ensures a.document == b.document {
      AboveSameDocument(f, root, a);
      AboveSameDocument(f, root, b);
    }
  }

  lemma NoDocuments()
    ensures Dom(NoNodes<Node>())
  {
  }

  /** A new empty document beside those of `f`. */
  method NewDocument(ghost f: Forest<Node>) returns (root: Node, ghost g: Forest<Node>)
    requires Dom(f)
    ensures fresh(root) && root.kind == KindDocument && Dom(g)
    ensures root !in f.kids && g.kids == f.kids[root := []] && g.up == f.up
  {
    hide Linked, WellFormed, Homed;
    var document := new Document();
    var n: Node := new Node(KindDocument, document);
    n.prevSiblingC := n;
    root := n;
    g := Added(f, root);
    Fresh(f, root);
    AddedHomed(f, root);
  }

  lemma AddedHomed(f: Forest<Node>, n: Node)
    requires Homed(f) && n.kind == KindDocument && n !in f.kids && forall m :: m in f.kids ==> m.document != n.document
    requires WellFormed(f)
    ensures Homed(Added(f, n)) && WellFormed(Added(f, n))
  {
    AddedWellFormed(f, n, n);
  }

  // ----- the operations on a document -----

  /** A new node that is not yet in any list. */
  method NewNode(kind: Kind, document: Document, ghost f: Forest<Node>) returns (n: Node, ghost g: Forest<Node>)
    requires Linked(f)
    ensures fresh(n) && n.kind == kind && n.document == document && n !in f.kids && g == Added(f, n) && Linked(g)
    ensures n.name == "" && n.value == "" && n.attributes == []
  {
    hide *;
    n := new Node(kind, document);
    g := Added(f, n);
    Fresh(f, n);
  }

  lemma Fresh(f: Forest<Node>, n: Node)
    requires Linked(f) && n !in f.kids
    requires n.parent == null && n.firstChild == null && n.nextSibling == null
    requires n.prevSiblingC == null || n.prevSiblingC == n
    ensures Linked(Added(f, n))
  {
    var s := f.kids.Keys;
    NewParents(s, n);
    NewFirsts(s, n);
    NewPrevs(s, n);
    NewNexts(s, n);
    hide Shows, Parents, Firsts, Prevs, Nexts;
    AddedShows(f, Snapshot(s), Snapshot(s + {n}), n, AsRef(n.prevSiblingC));
    assert Added(f, n).kids.Keys == s + {n};
  }

  /** The new child `n` at place `i` below `self`, or a refusal that changes nothing. */
  ghost predicate Created(f: Forest<Node>, g: Forest<Node>, self: Node, n: Node, i: nat)
    requires self in f.kids
  {
    n !in f.kids && i <= |f.kids[self]| && g.kids == f.kids[n := []][self := With(f.kids[self], i, n)]
      && g.up == f.up[n := self]
  }

  /** A node as the operations make it: a declaration is called `xml`. */
  ghost predicate IsNew(n: Node, kind: Kind, document: Document)
    reads n`name, n`value, n`attributes
  {
    && n.kind == kind && n.document == document && n.name == (if kind == KindDeclaration then "xml" else "")
    && n.value == "" && n.attributes == []
  }

  /** The last step of a creation. */
  method NameNew(n: Node, kind: Kind, ghost g: Forest<Node>)
    requires Dom(g) && n.kind == kind && n.name == "" && n.value == "" && n.attributes == []
    modifies n`name
    ensures Dom(g) && IsNew(n, kind, n.document)
  {
    hide Linked, WellFormed, Homed;
    if kind == KindDeclaration {
      n.name := "xml";
    }
  }

  lemma NoDocumentInside(parent: Kind, child: Kind)
    requires MayContain(parent, child)
    ensures child != KindDocument
  {
  }

  /** `append_child` */
  method AppendChild(ghost f: Forest<Node>, self: Node, kind: Kind) returns (n: Node?, ghost g: Forest<Node>)
    requires Dom(f) && self in f.kids
    modifies f.kids.Keys`parent, f.kids.Keys`firstChild, f.kids.Keys`prevSiblingC, f.kids.Keys`nextSibling
    ensures Dom(g) && (n == null <==> !MayContain(self.kind, kind)) && (n == null ==> g == f)
    ensures n != null ==> fresh(n) && IsNew(n, kind, self.document) && Created(f, g, self, n, |f.kids[self]|)
  {
    hide *;
    AllowedIff(self.kind, kind);
    if !AllowInsertChild(self.kind, kind) {
      return null, f;
    }
    ghost var added;
    var child;
    DomParts(f);
    child, added := NewNode(kind, self.document, f);
    NoDocumentInside(self.kind, kind);
    ghost var i := |f.kids[self]|;
    NewChild(f, child, self, i);
    g := AppendNode(added, child, self);
    CreatedDom(f, g, self, child, i);
    NameNew(child, kind, g);
    n := child;
  }

  lemma DomParts(f: Forest<Node>)
    requires Dom(f)
    ensures Linked(f) && WellFormed(f) && Homed(f)
  {
  }

  lemma CreatedDom(f: Forest<Node>, g: Forest<Node>, self: Node, n: Node, i: nat)
    requires Homed(f) && self in f.kids && n !in f.kids && i <= |f.kids[self]|
    requires n.kind != KindDocument && n.document == self.document && MayContain(self.kind, n.kind)
    requires Linked(g) && WellFormed(g)
    requires g.kids == f.kids[n := []][self := With(f.kids[self], i, n)] && g.up == f.up[n := self]
    ensures Dom(g) && Created(f, g, self, n, i)
  {
    hide Linked, WellFormed;
  }

  /** `prepend_child` */
  method PrependChild(ghost f: Forest<Node>, self: Node, kind: Kind) returns (n: Node?, ghost g: Forest<Node>)
    requires Dom(f) && self in f.kids
    modifies f.kids.Keys`parent, f.kids.Keys`firstChild, f.kids.Keys`prevSiblingC, f.kids.Keys`nextSibling
    ensures Dom(g) && (n == null <==> !MayContain(self.kind, kind)) && (n == null ==> g == f)
    ensures n != null ==> fresh(n) && IsNew(n, kind, self.document) && Created(f, g, self, n, 0)
  {
    hide *;
    AllowedIff(self.kind, kind);
    if !AllowInsertChild(self.kind, kind) {
      return null, f;
    }
    ghost var added;
    var child;
    DomParts(f);
    child, added := NewNode(kind, self.document, f);
    NoDocumentInside(self.kind, kind);
    NewChild(f, child, self, 0);
    g := PrependNode(added, child, self);
    CreatedDom(f, g, self, child, 0);
    NameNew(child, kind, g);
    n := child;
  }

  /** `insert_child_after` */
  method InsertChildAfter(ghost f: Forest<Node>, self: Node, kind: Kind, node: Node)
    returns (n: Node?, ghost g: Forest<Node>)
    requires Dom(f) && self in f.kids && node in f.kids
    modifies f.kids.Keys`parent, f.kids.Keys`firstChild, f.kids.Keys`prevSiblingC, f.kids.Keys`nextSibling
    ensures Dom(g) && (n == null ==> g == f)
    ensures n == null <==> !MayContain(self.kind, kind) || node !in f.kids[self]
    ensures n != null
      ==> fresh(n) && IsNew(n, kind, self.document) && Created(f, g, self, n, Behind(f.kids[self], node))
  {
    hide *;
    DomParts(f);
    ChildIff(f, self, node);
    AllowedIff(self.kind, kind);
    if !AllowInsertChild(self.kind, kind) {
      return null, f;
    }
    if node.parent != self {
      return null, f;
    }
    ghost var added;
    var child;
    child, added := NewNode(kind, self.document, f);
    NoDocumentInside(self.kind, kind);
    ghost var i := Behind(f.kids[self], node);
    NewChild(f, child, self, i);
    g := InsertNodeAfter(added, child, node);
    CreatedDom(f, g, self, child, i);
    NameNew(child, kind, g);
    n := child;
  }

  /** `insert_child_before` */
  method InsertChildBefore(ghost f: Forest<Node>, self: Node, kind: Kind, node: Node)
    returns (n: Node?, ghost g: Forest<Node>)
    requires Dom(f) && self in f.kids && node in f.kids
    modifies f.kids.Keys`parent, f.kids.Keys`firstChild, f.kids.Keys`prevSiblingC, f.kids.Keys`nextSibling
    ensures Dom(g) && (n == null ==> g == f)
    ensures n == null <==> !MayContain(self.kind, kind) || node !in f.kids[self]
    ensures n != null ==> fresh(n) && IsNew(n, kind, self.document) && Created(f, g, self, n, Index(f.kids[self], node))
  {
    hide *;
    DomParts(f);
    ChildIff(f, self, node);
    AllowedIff(self.kind, kind);
    if !AllowInsertChild(self.kind, kind) {
      return null, f;
    }
    if node.parent != self {
      return null, f;
    }
    ghost var added;
    var child;
    child, added := NewNode(kind, self.document, f);
    NoDocumentInside(self.kind, kind);
    ghost var i := Index(f.kids[self], node);
    NewChild(f, child, self, i);
    g := InsertNodeBefore(added, child, node);
    CreatedDom(f, g, self, child, i);
    NameNew(child, kind, g);
    n := child;
  }

  lemma ChildIff(f: Forest<Node>, p: Node, n: Node)
    requires Linked(f) && WellFormed(f) && p in f.kids && n in f.kids
    ensures n.parent == p <==> n in f.kids[p]
    ensures n in f.kids[p] <==> n in f.up && f.up[n] == p
  {
    ghost var l := Snapshot(f.kids.Keys);
    SnapshotOf(f.kids.Keys, n);
    ParentLink(f, l, n, p);
    hide Shows, Snapshot, WellFormed;
  }

  // ----- moves -----

  /** The node `n` taken out of its list and put at place `i` below `self`. */
  ghost predicate Moved(f: Forest<Node>, g: Forest<Node>, self: Node, n: Node, i: nat) {
    && n in f.up && f.up[n] in f.kids && self in Detach(f, n).kids && i <= |Detach(f, n).kids[self]|
    && g.kids == Detach(f, n).kids[self := With(Detach(f, n).kids[self], i, n)] && g.up == f.up[n := self]
  }

  lemma MovedDom(f: Forest<Node>, g: Forest<Node>, self: Node, n: Node, i: nat)
    requires Homed(f) && self in f.kids && n in f.up && n in f.kids && f.up[n] in f.kids
      && i <= |Detach(f, n).kids[self]|
    requires n.document == self.document && MayContain(self.kind, n.kind)
    requires Linked(g) && WellFormed(g)
    requires g.kids == Detach(f, n).kids[self := With(Detach(f, n).kids[self], i, n)] && g.up == f.up[n := self]
    ensures Dom(g) && Moved(f, g, self, n, i)
  {
    hide Linked, WellFormed, Homed, Detach, With;
    assert Detach(f, n).kids.Keys == f.kids.Keys by { SameNodes(f, n); }
    HomedMoved(f, g, self, n);
  }

  lemma SameNodes(f: Forest<Node>, n: Node)
    requires n in f.up && f.up[n] in f.kids
    ensures Detach(f, n).kids.Keys == f.kids.Keys
  {
  }

  lemma HomedMoved(f: Forest<Node>, g: Forest<Node>, self: Node, n: Node)
    requires Homed(f) && n in f.up && n in f.kids && n.document == self.document && MayContain(self.kind, n.kind)
    requires g.kids.Keys == f.kids.Keys && g.up == f.up[n := self]
    ensures Homed(g)
  {
    hide Arranged;
    ArrangedMoved(f, g, self, n);
  }

  lemma ArrangedMoved(f: Forest<Node>, g: Forest<Node>, self: Node, n: Node)
    requires Arranged(f) && g.up == f.up[n := self] && MayContain(self.kind, n.kind)
    ensures Arranged(g)
  {
  }

  /** A node that may be a child of another node is not the document node. */
  lemma NotRoot(f: Forest<Node>, n: Node, parent: Kind)
    requires Homed(f) && n in f.kids && MayContain(parent, n.kind)
    ensures n in f.up
  {
  }

  lemma DetachedKeys(f: Forest<Node>, n: Node)
    requires WellFormed(f) && n in f.up
    ensures f.up[n] in f.kids && n in f.kids && Detach(f, n).kids.Keys == f.kids.Keys && Detach(f, n).up == f.up - {n}
  {
  }

  /** `append_move` */
  method AppendMove(ghost f: Forest<Node>, self: Node, moved: Node) returns (r: Node?, ghost g: Forest<Node>)
    requires Dom(f) && self in f.kids && moved in f.kids
    modifies f.kids.Keys`parent, f.kids.Keys`firstChild, f.kids.Keys`prevSiblingC, f.kids.Keys`nextSibling
    ensures Dom(g) && (r == null ==> g == f) && (r != null ==> r == moved)
    ensures WellFormed(f) && (r == null <==> !CanMove(f, self, moved))
    ensures r != null ==> moved in f.up && f.up[moved] in f.kids && self in Detach(f, moved).kids
    ensures r != null ==> Moved(f, g, self, moved, |Detach(f, moved).kids[self]|)
  {
    hide *;
    DomParts(f);
    var allowed := AllowMove(f, self, moved);
    if !allowed {
      return null, f;
    }
    CanMoveParts(f, self, moved);
    NotRoot(f, moved, self.kind);
    DetachedKeys(f, moved);
    ghost var i := |Detach(f, moved).kids[self]|;
    MovedNode(f, moved, self, i);
    ghost var d := RemoveNode(f, moved);
    g := AppendNode(d, moved, self);
    MovedDom(f, g, self, moved, i);
    r := moved;
  }

  /** `prepend_move` */
  method PrependMove(ghost f: Forest<Node>, self: Node, moved: Node) returns (r: Node?, ghost g: Forest<Node>)
    requires Dom(f) && self in f.kids && moved in f.kids
    modifies f.kids.Keys`parent, f.kids.Keys`firstChild, f.kids.Keys`prevSiblingC, f.kids.Keys`nextSibling
    ensures Dom(g) && (r == null ==> g == f) && (r != null ==> r == moved)
    ensures WellFormed(f) && (r == null <==> !CanMove(f, self, moved))
    ensures r != null ==> Moved(f, g, self, moved, 0)
  {
    hide *;
    DomParts(f);
    var allowed := AllowMove(f, self, moved);
    if !allowed {
      return null, f;
    }
    CanMoveParts(f, self, moved);
    NotRoot(f, moved, self.kind);
    DetachedKeys(f, moved);
    MovedNode(f, moved, self, 0);
    ghost var d := RemoveNode(f, moved);
    g := PrependNode(d, moved, self);
    MovedDom(f, g, self, moved, 0);
    r := moved;
  }

  lemma StillChild(f: Forest<Node>, moved: Node, self: Node, node: Node)
    requires WellFormed(f) && moved in f.up && self in f.kids && node in f.kids[self] && node != moved
    ensures f.up[moved] in f.kids && node in (f.up - {moved}) && (f.up - {moved})[node] == self
      && node in Detach(f, moved).kids[self]
  {
    WithoutMembers(f.kids[f.up[moved]], moved);
  }

  /** `insert_move_after` */
  method InsertMoveAfter(ghost f: Forest<Node>, self: Node, moved: Node, node: Node)
    returns (r: Node?, ghost g: Forest<Node>)
    requires Dom(f) && self in f.kids && moved in f.kids && node in f.kids
    modifies f.kids.Keys`parent, f.kids.Keys`firstChild, f.kids.Keys`prevSiblingC, f.kids.Keys`nextSibling
    ensures Dom(g) && (r == null ==> g == f) && (r != null ==> r == moved) && WellFormed(f)
    ensures r == null <==>
      !CanMove(f, self, moved) || node !in f.kids[self] || node == moved
    ensures r != null ==> moved in f.up && f.up[moved] in f.kids && self in Detach(f, moved).kids
    ensures r != null ==> node in Detach(f, moved).kids[self]
    ensures r != null ==> Moved(f, g, self, moved, Behind(Detach(f, moved).kids[self], node))
  {
    hide *;
    DomParts(f);
    ChildIff(f, self, node);
    var allowed := AllowMove(f, self, moved);
    if !allowed {
      return null, f;
    }
    if node.parent != self {
      return null, f;
    }
    if moved == node {
      return null, f;
    }
    CanMoveParts(f, self, moved);
    NotRoot(f, moved, self.kind);
    DetachedKeys(f, moved);
    StillChild(f, moved, self, node);
    ghost var i := Behind(Detach(f, moved).kids[self], node);
    MovedNode(f, moved, self, i);
    ghost var d := RemoveNode(f, moved);
    g := InsertNodeAfter(d, moved, node);
    MovedDom(f, g, self, moved, i);
    r := moved;
  }

  /** `insert_move_before` */
  method InsertMoveBefore(ghost f: Forest<Node>, self: Node, moved: Node, node: Node)
    returns (r: Node?, ghost g: Forest<Node>)
    requires Dom(f) && self in f.kids && moved in f.kids && node in f.kids
    modifies f.kids.Keys`parent, f.kids.Keys`firstChild, f.kids.Keys`prevSiblingC, f.kids.Keys`nextSibling
    ensures Dom(g) && (r == null ==> g == f) && (r != null ==> r == moved) && WellFormed(f)
    ensures r == null <==>
      !CanMove(f, self, moved) || node !in f.kids[self] || node == moved
    ensures r != null ==> moved in f.up && f.up[moved] in f.kids && self in Detach(f, moved).kids
    ensures r != null ==> node in Detach(f, moved).kids[self]
    ensures r != null ==> Moved(f, g, self, moved, Index(Detach(f, moved).kids[self], node))
  {
    hide *;
    DomParts(f);
    ChildIff(f, self, node);
    var allowed := AllowMove(f, self, moved);
    if !allowed {
      return null, f;
    }
    if node.parent != self {
      return null, f;
    }
    if moved == node {
      return null, f;
    }
    CanMoveParts(f, self, moved);
    NotRoot(f, moved, self.kind);
    DetachedKeys(f, moved);
    StillChild(f, moved, self, node);
    ghost var i := Index(Detach(f, moved).kids[self], node);
    MovedNode(f, moved, self, i);
    ghost var d := RemoveNode(f, moved);
    g := InsertNodeBefore(d, moved, node);
    MovedDom(f, g, self, moved, i);
    r := moved;
  }

  // ----- removal -----

  /** The child and everything below it is gone. */
  ghost predicate Removed(f: Forest<Node>, g: Forest<Node>, n: Node) {
    && WellFormed(f) && n in f.up && f.up[n] in f.kids && WellFormed(Detach(f, n))
    && g == Dropped(Detach(f, n), Subtree(Detach(f, n), n))
  }

  /** `remove_child` */
  method RemoveChild(ghost f: Forest<Node>, self: Node, n: Node) returns (r: bool, ghost g: Forest<Node>)
    requires Dom(f) && self in f.kids && n in f.kids
    modifies f.kids.Keys`parent, f.kids.Keys`firstChild, f.kids.Keys`prevSiblingC, f.kids.Keys`nextSibling
    ensures Dom(g) && (r <==> n in f.kids[self]) && (!r ==> g == f) && (r ==> Removed(f, g, n))
  {
    hide *;
    DomParts(f);
    ChildIff(f, self, n);
    if n.parent != self {
      return false, f;
    }
    DetachedKeys(f, n);
    DetachWellFormed(f, n);
    ghost var d := RemoveNode(f, n);
    g := Dropped(d, Subtree(d, n));
    RemovedDom(f, d, g, n);
    r := true;
  }

  lemma RemovedDom(f: Forest<Node>, d: Forest<Node>, g: Forest<Node>, n: Node)
    requires WellFormed(f) && Homed(f) && n in f.up && n in f.kids && f.up[n] in f.kids
    requires d == Detach(f, n) && WellFormed(d) && Linked(d) && g == Dropped(d, Subtree(d, n))
    ensures Dom(g) && Removed(f, g, n)
  {
    hide *;
    DetachedKeys(f, n);
    DroppedWellFormed(d, n);
    DroppedLinked(d, n);
    HomedDropped(f, d, g, n);
    DomOf(g);
    RemovedOf(f, g, n);
  }

  lemma DomOf(f: Forest<Node>)
    requires Linked(f) && WellFormed(f) && Homed(f)
    ensures Dom(f)
  {
  }

  lemma RemovedOf(f: Forest<Node>, g: Forest<Node>, n: Node)
    requires WellFormed(f) && n in f.up && f.up[n] in f.kids && WellFormed(Detach(f, n))
    requires g == Dropped(Detach(f, n), Subtree(Detach(f, n), n))
    ensures Removed(f, g, n)
  {
  }

  lemma HomedDropped(f: Forest<Node>, d: Forest<Node>, g: Forest<Node>, n: Node)
    requires Homed(f) && n in f.up && f.up[n] in f.kids && d == Detach(f, n) && WellFormed(d)
    requires g == Dropped(d, Subtree(d, n)) && n in d.kids
    ensures Homed(g)
  {
    hide WellFormed, Arranged;
    assert n in Subtree(d, n) by {
      hide WellFormed;
    }
    ArrangedDropped(f, d, g, n);
  }

  lemma ArrangedDropped(f: Forest<Node>, d: Forest<Node>, g: Forest<Node>, n: Node)
    requires Arranged(f) && n in f.up && f.up[n] in f.kids && d == Detach(f, n) && WellFormed(d)
    requires n in d.kids && g == Dropped(d, Subtree(d, n))
    ensures Arranged(g)
  {
    hide WellFormed;
    assert forall m :: m in g.up ==> m in f.up && g.up[m] == f.up[m];
  }

  lemma DroppedLinked(d: Forest<Node>, n: Node)
    requires WellFormed(d) && Linked(d) && n in d.kids && n !in d.up
    ensures Linked(Dropped(d, Subtree(d, n)))
  {
    var s, gone := d.kids.Keys, Subtree(d, n);
    hide *;
    ParentsLess(s, gone);
    FirstsLess(s, gone);
    PrevsLess(s, gone);
    NextsLess(s, gone);
    LinkedShows(d);
    DroppedShows(d, Snapshot(s), Snapshot(s - gone), n);
    DroppedKeys(d, gone);
    LinkedIf(Dropped(d, gone));
  }

  lemma LinkedShows(f: Forest<Node>)
    requires Linked(f)
    ensures Shows(f, Snapshot(f.kids.Keys))
  {
  }

  lemma LinkedIf(f: Forest<Node>)
    requires Shows(f, Snapshot(f.kids.Keys))
    ensures Linked(f)
  {
  }

  lemma DroppedKeys(d: Forest<Node>, gone: set<Node>)
    ensures Dropped(d, gone).kids.Keys == d.kids.Keys - gone
  {
  }

  lemma ParentsLess(s: set<Node>, gone: set<Node>)
    ensures Snapshot(s - gone).parent == Snapshot(s).parent - gone
  {
    assert Parents(s - gone) == Parents(s) - gone;
  }

  lemma FirstsLess(s: set<Node>, gone: set<Node>)
    ensures Snapshot(s - gone).first == Snapshot(s).first - gone
  {
    assert Firsts(s - gone) == Firsts(s) - gone;
  }

  lemma PrevsLess(s: set<Node>, gone: set<Node>)
    ensures Snapshot(s - gone).prev == Snapshot(s).prev - gone
  {
    assert Prevs(s - gone) == Prevs(s) - gone;
  }

  lemma NextsLess(s: set<Node>, gone: set<Node>)
    ensures Snapshot(s - gone).next == Snapshot(s).next - gone
  {
    assert Nexts(s - gone) == Nexts(s) - gone;
  }
}
