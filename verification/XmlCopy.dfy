/** `node_copy_tree` on linked nodes: one walk over the source that builds the copy as it goes and passes over the
    destination when the destination lies inside the source. */
module XmlCopy {
  import opened Bytes
  import opened XmlForest
  import opened XmlLinks
  import opened XmlDom
  import opened XmlCopyWalk

  ghost predicate SameContents(a: Node, b: Node)
    reads a`name, a`value, a`attributes, b`name, b`value, b`attributes
  {
    a.kind == b.kind && a.name == b.name && a.value == b.value && a.attributes == b.attributes
  }

  ghost predicate Blank(n: Node)
    reads n`name, n`value, n`attributes
  {
    n.name == "" && n.value == "" && n.attributes == []
  }

  /** Every copy has the contents of its original and is allocated in the given document. */
  ghost predicate ContentsCopied(image: map<Node, Node>, document: Document)
    reads image.Keys`name, image.Keys`value, image.Keys`attributes
    reads image.Values`name, image.Values`value, image.Values`attributes
  {
    forall s :: s in image ==> SameContents(s, image[s]) && image[s].document == document
  }

  /** `node_copy_contents` */
  method NodeCopyContents(dn: Node, sn: Node)
    requires Blank(dn) && dn != sn && dn.kind == sn.kind
    modifies dn`name, dn`value, dn`attributes
    ensures SameContents(sn, dn)
  {
    dn.name := sn.name;
    dn.value := sn.value;
    var i := 0;
    while i < |sn.attributes|
      invariant 0 <= i <= |sn.attributes| && dn.attributes == sn.attributes[..i]
      invariant dn.name == sn.name && dn.value == sn.value && sn.attributes == old(sn.attributes)
    {
      dn.attributes := dn.attributes + [sn.attributes[i]];
      i := i + 1;
    }
  }

  // ----- links of a well-formed forest -----

  lemma FirstChildIs(f: Forest<Node>, n: Node)
    requires Linked(f) && n in f.kids
    ensures n.firstChild == if f.kids[n] == [] then null else f.kids[n][0]
  {
    SnapshotOf(f.kids.Keys, n);
    assert Shown(f, Snapshot(f.kids.Keys), n);
  }

  lemma LinkedShape(f: Forest<Node>)
    requires Linked(f)
    ensures WellFormed(f)
  {
    hide WellFormed;
  }

  lemma KidsOf<N>(f: Forest<N>, a: N, n: N)
    requires WellFormed(f) && a in f.kids && n in f.kids[a]
    ensures n in f.kids && n in f.up && f.up[n] == a
  {
    hide Ranked;
  }

  lemma NodeShown(f: Forest<Node>, n: Node)
    requires Linked(f) && n in f.kids
    ensures Shown(f, Snapshot(f.kids.Keys), n)
  {
    hide WellFormed, Shown, Snapshot;
  }

  lemma NextSiblingIs(f: Forest<Node>, a: Node, q: nat)
    requires Linked(f) && a in f.kids && q < |f.kids[a]|
    ensures var n := f.kids[a][q];
            && n in f.kids && n.parent == a
            && n.nextSibling == if q + 1 < |f.kids[a]| then f.kids[a][q + 1] else null
  {
    hide Linked, Snapshot, WellFormed, Shows;
    var l, n := Snapshot(f.kids.Keys), f.kids[a][q];
    LinkedShape(f);
    NodeShown(f, a);
    KidsOf(f, a, n);
    LinksAt(f.kids[a], l, q);
    SnapshotOf(f.kids.Keys, n);
    NodeShown(f, n);
  }

  /** The lists outside the copy are the ones the walk sees; the only other nodes are copies. */
  ghost predicate Hosted(w: Plan<Node>, c: Copies<Node>, g: Forest<Node>) {
    && w.p in w.src && w.i <= |w.src[w.p]|
    && g.kids.Keys == w.src.Keys + c.image.Values
    && forall m :: m in w.src ==> m in g.kids && g.kids[m] == Seen(w, m)
  }

  /** Where the walk is: `sit` is the current node and `dit` the copy of its parent. */
  ghost predicate At(w: Plan<Node>, c: Copies<Node>, t: Trail<Node>, lead: nat, sit: Node, dit: Node) {
    OnTrail(w, c, t, lead) && sit == Current(w, c, t, lead) && Last(t) in c.image && dit == c.image[Last(t)]
  }

  ghost predicate AllComplete(w: Plan<Node>, c: Copies<Node>) {
    forall s :: s in c.count ==> s in w.src && c.count[s] == |w.src[s]|
  }

  /** The place of the destination in the source lies behind. */
  ghost predicate Past(w: Plan<Node>, t: Trail<Node>) {
    |t.path| == |t.place| && forall k :: 0 <= k < |t.path| && t.path[k] == w.p ==> w.i <= t.place[k]
  }

  lemma HostedAt(w: Plan<Node>, c: Copies<Node>, g: Forest<Node>, a: Node)
    requires Hosted(w, c, g) && a in w.src
    ensures a in g.kids && g.kids[a] == Seen(w, a)
  {}

  /** The copy of a node on the path is below the copy of the one before. */
  lemma CopyOfParent(w: Plan<Node>, c: Copies<Node>, g: Forest<Node>, t: Trail<Node>)
    requires Sensible(w) && OnTrail(w, c, t, 1) && Partial(w, c, g.kids) && Linked(g) && 1 < |t.path|
      && OnTrail(w, c, Up(t), 1)
    requires Current(w, c, Up(t), 1) == Last(t)
    ensures Last(t) in c.image && Last(Up(t)) in c.image && c.image[Last(t)].parent == c.image[Last(Up(t))]
  {
    hide *;
    TrailParts(w, c, t, 1);
    var u := Up(t);
    TrailParts(w, c, u, 1);
    CurrentIs(w, c, u, 1);
    PartialKeys(w, c, g.kids);
    var a, b := Last(t), Last(u);
    PartialAt(w, c, g.kids, b);
    PartialAt(w, c, g.kids, a);
    NotDestination(w, a);
    SeenAt(w, b, u.place[|u.place| - 1]);
    HereCounts(w, c, u);
    LastImage(w, c, g.kids, b);
    ImageInKids(w, c, g.kids, b);
    NextSiblingIs(g, c.image[b], c.count[b] - 1);
  }

  lemma NotDestination(w: Plan<Node>, a: Node)
    requires Sensible(w) && a in w.src
    ensures a != w.dn
  {}

  lemma HereCounts(w: Plan<Node>, c: Copies<Node>, u: Trail<Node>)
    requires Sensible(w) && c.count.Keys <= w.src.Keys && 0 < |u.path| == |u.place| && Last(u) in c.count
      && Here(w, c, u, 1)
    ensures c.count[Last(u)] == Before(w, Last(u), u.place[|u.place| - 1] + 1)
  {
    hide Sensible, Seen, Before;
  }

  lemma LastImage(w: Plan<Node>, c: Copies<Node>, kids: map<Node, seq<Node>>, b: Node)
    requires b in w.src && b in c.count && b in c.image && CopiedChildren(w, c, kids, b) && 0 < c.count[b]
    ensures var k: nat := c.count[b] - 1;
            && k < |w.src[b]| && w.src[b][k] in c.image
            && c.image[b] in kids && k < |kids[c.image[b]]| && kids[c.image[b]][k] == c.image[w.src[b][k]]
  {}

  lemma PastUp(w: Plan<Node>, t: Trail<Node>)
    requires Past(w, t) && 0 < |t.path|
    ensures Past(w, Up(t))
  {}

  lemma PastOn(w: Plan<Node>, c: Copies<Node>, t: Trail<Node>)
    requires 0 < |t.path| == |t.place| && OnTrail(w, c, On(t), 0) && Past(w, t)
    ensures Current(w, c, On(t), 0) != w.dn
  {
    hide Sensible, Seen;
    CurrentIs(w, c, On(t), 0);
    SeenAt(w, Last(t), t.place[|t.place| - 1] + 1);
  }

  /** The links of the current node */
  lemma AtParts(w: Plan<Node>, c: Copies<Node>, g: Forest<Node>, t: Trail<Node>, lead: nat, sit: Node, dit: Node)
    requires At(w, c, t, lead, sit, dit) && Linked(g) && Hosted(w, c, g)
    ensures OnTrail(w, c, t, lead) && 0 < |t.path| == |t.place| && Sensible(w) && sit == Current(w, c, t, lead)
    ensures Last(t) in c.image && dit == c.image[Last(t)] && Last(t) in w.src && sit != w.sn && sit in g.kids
    ensures sit.parent == Last(t) && t.place[|t.place| - 1] < |Seen(w, Last(t))|
    ensures sit.nextSibling == if t.place[|t.place| - 1] + 1 < |Seen(w, Last(t))|
      then Seen(w, Last(t))[t.place[|t.place| - 1] + 1] else null
  {
    hide *;
    AtIs(w, c, t, lead, sit, dit);
    TrailParts(w, c, t, lead);
    CurrentIs(w, c, t, lead);
    HostedAt(w, c, g, Last(t));
    NextSiblingIs(g, Last(t), t.place[|t.place| - 1]);
    NotRoot(w, Last(t), t.place[|t.place| - 1]);
  }

  lemma AtIs(w: Plan<Node>, c: Copies<Node>, t: Trail<Node>, lead: nat, sit: Node, dit: Node)
    requires At(w, c, t, lead, sit, dit)
    ensures OnTrail(w, c, t, lead) && sit == Current(w, c, t, lead) && Last(t) in c.image && dit == c.image[Last(t)]
  {
    hide OnTrail, Current;
  }

  lemma AtIf(w: Plan<Node>, c: Copies<Node>, t: Trail<Node>, lead: nat, sit: Node, dit: Node)
    requires OnTrail(w, c, t, lead) && 0 < |t.path| && sit == Current(w, c, t, lead) && Last(t) in c.image
      && dit == c.image[Last(t)]
    ensures At(w, c, t, lead, sit, dit)
  {
    hide OnTrail, Current;
  }

  /** The walk never comes back to the root of the source from above. */
  lemma NotRoot(w: Plan<Node>, a: Node, q: nat)
    requires Sensible(w) && a in w.inside && a in w.src && q < |Seen(w, a)|
    ensures Seen(w, a)[q] != w.sn
  {
    SeenAt(w, a, q);
  }

  /** On to the sibling */
  lemma AtNext(w: Plan<Node>, c: Copies<Node>, t: Trail<Node>, sit: Node, dit: Node)
    requires 0 < |t.path| == |t.place| && OnTrail(w, c, On(t), 0) && Last(t) in c.image && dit == c.image[Last(t)]
    requires Last(t) in w.src && Sensible(w) && t.place[|t.place| - 1] + 1 < |Seen(w, Last(t))|
    requires sit == Seen(w, Last(t))[t.place[|t.place| - 1] + 1]
    ensures At(w, c, On(t), 0, sit, dit) && sit != w.sn
  {
    hide *;
    OnParts(t);
    TrailParts(w, c, On(t), 0);
    CurrentIs(w, c, On(t), 0);
    NotRoot(w, Last(t), t.place[|t.place| - 1] + 1);
    AtIf(w, c, On(t), 0, sit, dit);
  }

  lemma OnParts(t: Trail<Node>)
    requires 0 < |t.path| == |t.place|
    ensures On(t).path == t.path && Last(On(t)) == Last(t) && |On(t).place| == |t.place|
    ensures On(t).place[|t.place| - 1] == t.place[|t.place| - 1] + 1
  {}

  lemma UpLength(t: Trail<Node>)
    requires 0 < |t.path| == |t.place|
    ensures |Up(t).path| == |t.path| - 1
  {}

  /** Back at the parent, which is the root only when nothing is left */
  lemma AtParent(w: Plan<Node>, c: Copies<Node>, t: Trail<Node>)
    requires OnTrail(w, c, t, 1) && t.place[|t.place| - 1] + 1 == |Seen(w, Last(t))|
    ensures Last(t) == w.sn <==> |t.path| == 1
    ensures |t.path| == 1 ==> AllComplete(w, c)
  {
    TrailParts(w, c, t, 1);
    BackToParent(w, c, t);
    hide OnTrail, Seen, Sensible;
    assert t.path[0] == w.sn;
    InSource(w, c);
  }

  lemma InSource(w: Plan<Node>, c: Copies<Node>)
    requires c.count.Keys <= w.inside <= w.src.Keys
    ensures forall s :: s in c.count ==> s in w.src
  {}

  /** The end of the loop body: to the next sibling of the nearest node that has one, or out. */
  method NextNode(ghost w: Plan<Node>, ghost c: Copies<Node>, ghost g: Forest<Node>, ghost t0: Trail<Node>,
                  sn: Node, sit0: Node, dit0: Node)
    returns (sit: Node, dit: Node?, ghost t: Trail<Node>)
    requires Copying(w, c, g) && ContentsCopied(c.image, w.dn.document) && At(w, c, t0, 1, sit0, dit0) && sn == w.sn
    ensures Copying(w, c, g) && ContentsCopied(c.image, w.dn.document)
    ensures sit != sn ==> dit != null && At(w, c, t, 0, sit, dit)
    ensures sit == sn ==> AllComplete(w, c) && dit == w.dn.parent
    ensures Past(w, t0) ==> sit != w.dn
  {
    hide *;
    CopyingParts(w, c, g);
    sit, dit, t := sit0, dit0, t0;
    var going := true;
    while going
      invariant going ==> dit != null && At(w, c, t, 1, sit, dit) && (Past(w, t0) ==> Past(w, t))
      invariant !going && sit != sn ==> dit != null && At(w, c, t, 0, sit, dit)
      invariant !going && sit == sn ==> AllComplete(w, c) && dit == w.dn.parent
      invariant !going && Past(w, t0) ==> sit != w.dn
      decreases going, |t.path|
    {
      AtParts(w, c, g, t, 1, sit, dit);
      if sit.nextSibling != null {
        sit := sit.nextSibling;
        NextSibling(w, c, t);
        AtNext(w, c, t, sit, dit);
        AtIs(w, c, On(t), 0, sit, dit);
        if Past(w, t) { PastOn(w, c, t); }
        t := On(t);
        going := false;
      } else {
        BackToParent(w, c, t);
        AtParent(w, c, t);
        PartialKeys(w, c, g.kids);
        sit := sit.parent;
        dit := dit.parent;
        going := sit != sn;
        UpLength(t);
        if going {
          CopyOfParent(w, c, g, t);
          AtIf(w, c, Up(t), 1, sit, dit);
        } else {
          NotDestination(w, sn);
        }
        if Past(w, t) { PastUp(w, t); }
        t := Up(t);
      }
    }
  }

  /** `append_new_node` */
  method AppendNewNode(ghost g: Forest<Node>, node: Node, kind: Kind) returns (child: Node, ghost h: Forest<Node>)
    requires Linked(g) && node in g.kids
    modifies g.kids.Keys`parent, g.kids.Keys`firstChild, g.kids.Keys`prevSiblingC, g.kids.Keys`nextSibling
    ensures fresh(child) && child.kind == kind && child.document == node.document && Blank(child)
    ensures child !in g.kids && Linked(h)
    ensures h.kids == g.kids[child := []][node := g.kids[node] + [child]] && h.up == g.up[child := node]
  {
    hide *;
    LinkedShape(g);
    ghost var added;
    child, added := NewNode(kind, node.document, g);
    NewChild(g, child, node, |g.kids[node]|);
    h := AppendNode(added, child, node);
    WithBack(g.kids[node], child);
    BlankIf(child);
  }

  lemma BlankIf(n: Node)
    requires n.name == "" && n.value == "" && n.attributes == []
    ensures Blank(n)
  {}

  lemma WithBack<N>(s: seq<N>, x: N)
    ensures With(s, |s|, x) == s + [x]
  {}

  lemma HostedExtended(w: Plan<Node>, c: Copies<Node>, g: Forest<Node>, h: Forest<Node>, a: Node, s: Node, n: Node)
    requires Hosted(w, c, g) && a in c.count && a in c.image && c.image[a] !in w.src && s !in c.image && n !in g.kids
    requires c.image[a] in g.kids
    requires h.kids == g.kids[n := []][c.image[a] := g.kids[c.image[a]] + [n]]
    ensures Hosted(w, Extended(c, a, s, n), h)
  {
    hide Seen;
    var d := Extended(c, a, s, n);
    ValuesExtended(c.image, s, n);
    assert h.kids.Keys == g.kids.Keys + {n};
  }

  lemma ValuesExtended<N>(image: map<N, N>, s: N, n: N)
    requires s !in image
    ensures image[s := n].Values == image.Values + {n}
  {
    var d := image[s := n];
    assert d[s] == n;
    forall v | v in image.Values ensures v in d.Values {
      var x :| x in image && image[x] == v;
      assert d[x] == v;
    }
  }

  /** One more copy gets its contents. */
  method FillCopy(ghost image: map<Node, Node>, ghost document: Document, sit: Node, copy: Node)
    requires ContentsCopied(image, document) && Blank(copy) && copy != sit && copy.kind == sit.kind
    requires copy !in image.Keys && copy !in image.Values && copy.document == document
    modifies copy`name, copy`value, copy`attributes
    ensures ContentsCopied(image[sit := copy], document)
  {
    NodeCopyContents(copy, sit);
  }

  lemma CopyIsAt(image: map<Node, Node>, document: Document, s: Node)
    requires ContentsCopied(image, document) && s in image
    ensures image[s].document == document && image[s].kind == s.kind
  {}

  /** The nodes of `s` have the parents they had, or none as before. */
  ghost predicate KeepsUp(s: set<Node>, a: map<Node, Node>, b: map<Node, Node>) {
    forall m :: m in s ==> (m in a <==> m in b) && (m in a ==> m in b && b[m] == a[m])
  }

  lemma UpKept(g: Forest<Node>, h: Forest<Node>, n: Node, p: Node)
    requires WellFormed(g) && n !in g.kids && p in g.kids && h.up == g.up[n := p]
    requires h.kids == g.kids[n := []][p := g.kids[p] + [n]]
    ensures KeepsUp(g.kids.Keys, g.up, h.up) && h.kids.Keys == g.kids.Keys + {n}
  {
    hide Ranked;
  }

  lemma UpKeptAll(s: set<Node>, t: set<Node>, a: map<Node, Node>, b: map<Node, Node>, c: map<Node, Node>)
    requires KeepsUp(s, a, b) && KeepsUp(t, b, c) && s <= t
    ensures KeepsUp(s, a, c)
  {}

  /** What holds between two steps of the walk */
  ghost predicate Copying(w: Plan<Node>, c: Copies<Node>, g: Forest<Node>)
    reads g.kids.Keys`parent, g.kids.Keys`firstChild, g.kids.Keys`prevSiblingC, g.kids.Keys`nextSibling
  {
    Linked(g) && Sensible(w) && Hosted(w, c, g) && Partial(w, c, g.kids)
  }

  lemma CopyingParts(w: Plan<Node>, c: Copies<Node>, g: Forest<Node>)
    requires Copying(w, c, g)
    ensures Linked(g) && Sensible(w) && Hosted(w, c, g) && Partial(w, c, g.kids)
    ensures w.p in w.src && w.i <= |w.src[w.p]|
    ensures w.src.Keys <= g.kids.Keys && c.image.Values <= g.kids.Keys && c.image.Keys <= w.inside <= w.src.Keys
  {
    hide Linked, Sensible, Partial;
    PartialKeys(w, c, g.kids);
  }

  lemma CopyingIf(w: Plan<Node>, c: Copies<Node>, g: Forest<Node>)
    requires Linked(g) && Sensible(w) && Hosted(w, c, g) && Partial(w, c, g.kids)
    ensures Copying(w, c, g)
  {
    hide Linked, Sensible, Partial, Hosted;
  }

  /** The loop body at a node that is not the destination */
  method CopyNode(ghost w: Plan<Node>, ghost c: Copies<Node>, ghost g: Forest<Node>, ghost t: Trail<Node>, sit: Node,
                  dit: Node)
    returns (copy: Node, ghost d: Copies<Node>, ghost h: Forest<Node>)
    requires Copying(w, c, g) && ContentsCopied(c.image, w.dn.document) && At(w, c, t, 0, sit, dit) && sit != w.dn
    modifies g.kids.Keys`parent, g.kids.Keys`firstChild, g.kids.Keys`prevSiblingC, g.kids.Keys`nextSibling
    ensures fresh(copy) && Copying(w, d, h) && ContentsCopied(d.image, w.dn.document)
    ensures d.image == c.image[sit := copy] && sit !in c.image && sit in w.inside && sit in w.src
    ensures KeepsUp(g.kids.Keys, g.up, h.up) && h.kids.Keys == g.kids.Keys + {copy}
    ensures sit.firstChild == null ==> At(w, d, t, 1, sit, dit)
    ensures sit.firstChild != null ==> At(w, d, Down(t, sit), 0, sit.firstChild, copy)
  {
    hide *;
    CopyingParts(w, c, g);
    LinkedShape(g);
    AtParts(w, c, g, t, 0, sit, dit);
    CopyHasPlace(w, c, g.kids, t, sit, dit);
    CopyIsAt(c.image, w.dn.document, Last(t));
    copy, h := AppendNewNode(g, dit, sit.kind);
    d := Extended(c, Last(t), sit, copy);
    CopyPlaced(w, c, g, h, t, sit, dit, copy);
    FillCopy(c.image, w.dn.document, sit, copy);
    CopyingIf(w, d, h);
    FirstChildIs(h, sit);
  }

  lemma CopyHasPlace(w: Plan<Node>, c: Copies<Node>, kids: map<Node, seq<Node>>, t: Trail<Node>, sit: Node, dit: Node)
    requires Partial(w, c, kids) && At(w, c, t, 0, sit, dit) && sit != w.dn && 0 < |t.path| == |t.place|
    ensures Last(t) in c.count && dit in kids
  {
    hide *;
    AtIs(w, c, t, 0, sit, dit);
    CurrentIsNext(w, c, kids, t);
    PartialAt(w, c, kids, Last(t));
    ImageInKids(w, c, kids, Last(t));
  }

  /** What the new node means for the copies and for the place of the walk */
  lemma CopyPlaced(w: Plan<Node>, c: Copies<Node>, g: Forest<Node>, h: Forest<Node>, t: Trail<Node>, sit: Node,
                   dit: Node, n: Node)
    requires Sensible(w) && Hosted(w, c, g) && Partial(w, c, g.kids) && WellFormed(g) && w.src.Keys <= g.kids.Keys
    requires At(w, c, t, 0, sit, dit) && sit != w.dn && 0 < |t.path| == |t.place| && Last(t) in c.count && dit in g.kids
    requires n !in g.kids && h.kids == g.kids[n := []][dit := g.kids[dit] + [n]] && h.up == g.up[n := dit]
    ensures var d := Extended(c, Last(t), sit, n);
      && Hosted(w, d, h) && Partial(w, d, h.kids) && d.image == c.image[sit := n] && sit in h.kids
      && (h.kids[sit] == [] ==> At(w, d, t, 1, sit, dit))
      && (h.kids[sit] != [] ==> At(w, d, Down(t, sit), 0, h.kids[sit][0], n))
    ensures sit !in c.image && sit in w.inside && sit in w.src
    ensures KeepsUp(g.kids.Keys, g.up, h.up) && h.kids.Keys == g.kids.Keys + {n}
  {
    hide *;
    AtIs(w, c, t, 0, sit, dit);
    CurrentIsNext(w, c, g.kids, t);
    var a := Last(t);
    PartialAt(w, c, g.kids, a);
    ExtendedImage(c, a, sit, n);
    UpKept(g, h, n, dit);
    ExtendedPartial(w, c, g.kids, a, sit, n);
    HostedExtended(w, c, g, h, a, sit, n);
    HostedAt(w, Extended(c, a, sit, n), h, sit);
    AtAfterCopy(w, c, g.kids, t, sit, dit, n);
  }

  lemma Destination(w: Plan<Node>)
    requires Sensible(w)
    ensures w.p in w.src && w.i <= |w.src[w.p]|
  {}

  /** Where the walk is after the copy: at the same node, dealt with, or at its first child */
  lemma AtAfterCopy(w: Plan<Node>, c: Copies<Node>, kids: map<Node, seq<Node>>, t: Trail<Node>, sit: Node, dit: Node,
                    n: Node)
    requires At(w, c, t, 0, sit, dit) && Sensible(w) && Partial(w, c, kids) && sit != w.dn && sit in w.src
    ensures 0 < |t.path| && Last(t) in c.count
    ensures Seen(w, sit) == [] ==> At(w, Extended(c, Last(t), sit, n), t, 1, sit, dit)
    ensures Seen(w, sit) != [] ==> At(w, Extended(c, Last(t), sit, n), Down(t, sit), 0, Seen(w, sit)[0], n)
  {
    hide *;
    AtIs(w, c, t, 0, sit, dit);
    TrailParts(w, c, t, 0);
    CurrentIsNext(w, c, kids, t);
    ExtendedImage(c, Last(t), sit, n);
    Destination(w);
    var d := Extended(c, Last(t), sit, n);
    if Seen(w, sit) == [] {
      CopiedLeaf(w, c, kids, t, n);
      CurrentIs(w, c, t, 0);
      CurrentIs(w, d, t, 1);
      AtIf(w, d, t, 1, sit, dit);
    } else {
      CopiedInner(w, c, kids, t, n);
      DownParts(t, sit);
      CurrentIs(w, d, Down(t, sit), 0);
      AtIf(w, d, Down(t, sit), 0, Seen(w, sit)[0], n);
    }
  }

  lemma ExtendedImage(c: Copies<Node>, a: Node, s: Node, n: Node)
    requires a in c.count
    ensures Extended(c, a, s, n).image == c.image[s := n]
  {}

  // ----- the whole copy -----

  /** `f` is `f0` with the new node `dn` linked at place `i` below `p`. */
  ghost predicate NewlyLinked(f0: Forest<Node>, f: Forest<Node>, dn: Node, p: Node, i: nat) {
    && WellFormed(f0) && dn !in f0.kids && p in f0.kids && i <= |f0.kids[p]|
    && f.kids == f0.kids[dn := []][p := With(f0.kids[p], i, dn)]
  }

  lemma StartCopying(f0: Forest<Node>, f: Forest<Node>, w: Plan<Node>)
    requires NewlyLinked(f0, f, w.dn, w.p, w.i) && Linked(f) && w.sn in f0.kids && WellFormed(f0)
      && w == PlanOf(f0, w.sn, w.dn, w.p, w.i)
    ensures Copying(w, Started(w), f) && f.kids.Keys == f0.kids.Keys + {w.dn}
    ensures w.sn.firstChild != null ==> At(w, Started(w), Trail([w.sn], [0]), 0, w.sn.firstChild, w.dn)
    ensures w.sn.firstChild == null ==> AllComplete(w, Started(w))
  {
    hide *;
    NewlyLinkedParts(f0, f, w);
    StartPartial(w, f.kids);
    StartHosted(f0, f, w);
    HostedAt(w, Started(w), f, w.sn);
    FirstChildIs(f, w.sn);
    CopyingIf(w, Started(w), f);
    if Seen(w, w.sn) == [] {
      SeenLength(w, w.sn);
      StartComplete(w);
    } else {
      StartAt(w);
    }
  }

  lemma NewlyLinkedParts(f0: Forest<Node>, f: Forest<Node>, w: Plan<Node>)
    requires NewlyLinked(f0, f, w.dn, w.p, w.i) && w.sn in f0.kids && WellFormed(f0)
      && w == PlanOf(f0, w.sn, w.dn, w.p, w.i)
    ensures Sensible(w) && w.src == f0.kids && w.sn in w.src && w.dn in f.kids && f.kids[w.dn] == []
    ensures w.p in w.src && w.i <= |w.src[w.p]|
  {
    hide Sensible;
    PlanSensible(f0, w.sn, w.dn, w.p, w.i);
  }

  lemma StartComplete(w: Plan<Node>)
    requires w.sn in w.src && |w.src[w.sn]| == 0
    ensures AllComplete(w, Started(w))
  {}

  lemma StartAt(w: Plan<Node>)
    requires OnTrail(w, Started(w), Trail([w.sn], [0]), 0) && w.sn in w.src && w.p in w.src && w.i <= |w.src[w.p]|
      && Seen(w, w.sn) != []
    ensures At(w, Started(w), Trail([w.sn], [0]), 0, Seen(w, w.sn)[0], w.dn)
  {
    hide OnTrail, Seen;
  }

  lemma StartHosted(f0: Forest<Node>, f: Forest<Node>, w: Plan<Node>)
    requires NewlyLinked(f0, f, w.dn, w.p, w.i) && w.src == f0.kids
    ensures Hosted(w, Started(w), f) && f.kids.Keys == f0.kids.Keys + {w.dn}
  {
    hide WellFormed;
    assert Started(w).image[w.sn] == w.dn;
    assert Started(w).image.Values == {w.dn};
  }

  /** What `node_copy_tree` leaves: below `dn` a copy of the source as it was in `f0`, made of `dn` and new nodes, and
      everything else as it was. */
  ghost predicate TreeCopied(f0: Forest<Node>, f: Forest<Node>, g: Forest<Node>, sn: Node, dn: Node, image: map<Node,
                             Node>) {
    && Isomorphic(f0, sn, g, dn, image)
    && g.kids.Keys == f.kids.Keys + image.Values
    && (forall m :: m in f.kids && m != dn ==> m in g.kids && g.kids[m] == f.kids[m])
    && KeepsUp(f.kids.Keys, f.up, g.up)
    && (forall s :: s in image ==> image[s] !in f0.kids)
  }

  lemma EndCopying(f0: Forest<Node>, f: Forest<Node>, w: Plan<Node>, c: Copies<Node>, g: Forest<Node>)
    requires NewlyLinked(f0, f, w.dn, w.p, w.i) && w.sn in f0.kids && WellFormed(f0)
      && w == PlanOf(f0, w.sn, w.dn, w.p, w.i)
    requires Copying(w, c, g) && AllComplete(w, c) && KeepsUp(f.kids.Keys, f.up, g.up)
    ensures TreeCopied(f0, f, g, w.sn, w.dn, c.image) && Linked(g) && WellFormed(g)
  {
    hide Linked, Sensible, Partial, Isomorphic, WellFormed, Subtree;
    LinkedShape(g);
    PartialKeys(w, c, g.kids);
    CopyIsWhole(f0, w, c, g);
    assert w.dn in c.image.Values;
    assert f.kids.Keys == w.src.Keys + {w.dn};
    forall s | s in c.image ensures c.image[s] !in f0.kids {
      PartialAt(w, c, g.kids, s);
    }
    forall m | m in f.kids && m != w.dn ensures m in g.kids && g.kids[m] == f.kids[m] {
      HostedAt(w, c, g, m);
    }
  }

  lemma UnvisitedShrinks(w: Plan<Node>, c: Copies<Node>, s: Node, n: Node)
    requires s in w.inside && s !in c.image
    ensures |w.inside - c.image[s := n].Keys| < |w.inside - c.image.Keys|
  {
    assert c.image[s := n].Keys == c.image.Keys + {s};
    assert w.inside - c.image.Keys == (w.inside - c.image[s := n].Keys) + {s};
  }

  /** Where the destination itself is passed over, its place lies behind. */
  lemma PassedIsPast(w: Plan<Node>, c: Copies<Node>, t: Trail<Node>, sit: Node, dit: Node)
    requires At(w, c, t, 0, sit, dit) && sit == w.dn
    ensures At(w, c, t, 1, sit, dit) && Past(w, t)
  {
    hide *;
    AtIs(w, c, t, 0, sit, dit);
    TrailParts(w, c, t, 0);
    CurrentIs(w, c, t, 0);
    SeenAt(w, Last(t), t.place[|t.place| - 1]);
    Passed(w, c, t);
    CurrentIs(w, c, t, 1);
    AtIf(w, c, t, 1, sit, dit);
    OnlyLast(w, t);
  }

  lemma OnlyLast(w: Plan<Node>, t: Trail<Node>)
    requires 0 < |t.path| == |t.place| && DistinctList(t.path) && Last(t) == w.p && t.place[|t.place| - 1] == w.i
    ensures Past(w, t)
  {}

  /** One turn of the loop: the node is copied unless it is the destination, and the walk goes on to the next node. */
  method CopyTurn(ghost w: Plan<Node>, ghost c: Copies<Node>, ghost g: Forest<Node>, ghost t: Trail<Node>, dn: Node,
                  sn: Node, sit: Node, dit: Node)
    returns (next: Node, into: Node?, ghost d: Copies<Node>, ghost h: Forest<Node>, ghost u: Trail<Node>)
    requires Copying(w, c, g) && ContentsCopied(c.image, w.dn.document) && At(w, c, t, 0, sit, dit) && dn == w.dn
      && sn == w.sn
    modifies g.kids.Keys`parent, g.kids.Keys`firstChild, g.kids.Keys`prevSiblingC, g.kids.Keys`nextSibling
    ensures Copying(w, d, h) && ContentsCopied(d.image, w.dn.document)
    ensures next != sn ==> into != null && At(w, d, u, 0, next, into)
    ensures next == sn ==> AllComplete(w, d)
    ensures KeepsUp(g.kids.Keys, g.up, h.up) && g.kids.Keys <= h.kids.Keys
    ensures forall m :: m in h.kids && m !in g.kids ==> fresh(m)
    ensures if sit == dn then next != dn && d == c else |w.inside - d.image.Keys| < |w.inside - c.image.Keys|
  {
    hide *;
    d, h, u := c, g, t;
    UpKeptSelf(g.kids.Keys, g.up);
    if sit != dn {
      var copy;
      CopyingParts(w, c, g);
      copy, d, h := CopyNode(w, c, g, t, sit, dit);
      UnvisitedShrinks(w, c, sit, copy);
      if sit.firstChild != null {
        next, into, u := sit.firstChild, copy, Down(t, sit);
        CopyingParts(w, d, h);
        AtParts(w, d, h, u, 0, next, into);
        return;
      }
    } else {
      PassedIsPast(w, c, t, sit, dit);
    }
    next, into, u := NextNode(w, d, h, t, sn, sit, dit);
  }

  /** `node_copy_tree`: terminates, also when `dn` is at or below `sn`. */
  method NodeCopyTree(ghost f0: Forest<Node>, ghost f: Forest<Node>, ghost p: Node, ghost i: nat, dn: Node, sn: Node)
    returns (ghost g: Forest<Node>, ghost image: map<Node, Node>)
    requires NewlyLinked(f0, f, dn, p, i) && Linked(f) && sn in f0.kids && Blank(dn) && dn.kind == sn.kind
    modifies f.kids.Keys`parent, f.kids.Keys`firstChild, f.kids.Keys`prevSiblingC, f.kids.Keys`nextSibling
    modifies dn`name, dn`value, dn`attributes
    ensures Linked(g) && TreeCopied(f0, f, g, sn, dn, image) && ContentsCopied(image, dn.document)
    ensures forall m :: m in g.kids && m !in f.kids ==> fresh(m)
  {
    hide *;
    LinkedBefore(f0, f, dn, p, i);
    ghost var w := PlanOf(f0, sn, dn, p, i);
    PlanIs(f0, sn, dn, p, i);
    ghost var c, t := Started(w), Trail([sn], [0]);
    g := f;
    StartCopying(f0, f, w);
    CopyingParts(w, c, g);
    NotDestination(w, sn);
    NodeCopyContents(dn, sn);
    StartContents(w);
    var dit: Node? := dn;
    var sit: Node? := sn.firstChild;
    UpKeptSelf(f.kids.Keys, f.up);
    if sit != null {
      AtParts(w, c, g, t, 0, sit, dn);
    }
    while sit != null && sit != sn
      invariant Copying(w, c, g) && ContentsCopied(c.image, w.dn.document)
      invariant sit != null && sit != sn ==> dit != null && At(w, c, t, 0, sit, dit)
      invariant sit == null || sit == sn ==> AllComplete(w, c)
      invariant forall m :: m in g.kids && m !in f.kids ==> fresh(m)
      invariant KeepsUp(f.kids.Keys, f.up, g.up) && f.kids.Keys <= g.kids.Keys
      decreases |w.inside - c.image.Keys|, sit == dn
    {
      ghost var before := g;
      sit, dit, c, g, t := CopyTurn(w, c, g, t, dn, sn, sit, dit);
      UpKeptAll(f.kids.Keys, before.kids.Keys, f.up, before.up, g.up);
    }
    EndCopying(f0, f, w, c, g);
    image := c.image;
  }

  lemma LinkedBefore(f0: Forest<Node>, f: Forest<Node>, dn: Node, p: Node, i: nat)
    requires NewlyLinked(f0, f, dn, p, i)
    ensures WellFormed(f0)
  {
    hide WellFormed;
  }

  lemma UpKeptSelf(s: set<Node>, a: map<Node, Node>)
    ensures KeepsUp(s, a, a)
  {}

  lemma PlanIs(f0: Forest<Node>, sn: Node, dn: Node, p: Node, i: nat)
    requires WellFormed(f0)
    ensures var w := PlanOf(f0, sn, dn, p, i); w.src == f0.kids && w.sn == sn && w.dn == dn && w.p == p && w.i == i
  {}

  lemma StartContents(w: Plan<Node>)
    requires SameContents(w.sn, w.dn)
    ensures ContentsCopied(Started(w).image, w.dn.document)
  {}

  // ----- the operations -----

  /** The new child `n` at place `i` below `self` is a copy of `proto` and what was below it. */
  ghost predicate CopyCreated(f: Forest<Node>, h: Forest<Node>, g: Forest<Node>, self: Node, proto: Node, n: Node,
                              i: nat, image: map<Node, Node>)
    requires self in f.kids
  {
    Created(f, h, self, n, i) && TreeCopied(f, h, g, proto, n, image)
  }

  lemma CreatedLinked(f: Forest<Node>, h: Forest<Node>, self: Node, n: Node, i: nat)
    requires WellFormed(f) && self in f.kids && n !in f.kids && i <= |f.kids[self]|
    requires h.kids == f.kids[n := []][self := With(f.kids[self], i, n)] && h.up == f.up[n := self]
    ensures NewlyLinked(f, h, n, self, i) && Created(f, h, self, n, i) && h.kids.Keys == f.kids.Keys + {n}
  {}

  lemma CopyIs(f: Forest<Node>, h: Forest<Node>, g: Forest<Node>, self: Node, proto: Node, n: Node, i: nat,
               image: map<Node, Node>)
    requires self in f.kids && Created(f, h, self, n, i) && TreeCopied(f, h, g, proto, n, image)
    ensures CopyCreated(f, h, g, self, proto, n, i, image)
  {}

  /** What all copies do once the new node has been linked. */
  method CopyInto(ghost f: Forest<Node>, ghost h: Forest<Node>, ghost self: Node, ghost i: nat, child: Node,
                  proto: Node)
    returns (ghost g: Forest<Node>, ghost image: map<Node, Node>)
    requires WellFormed(f) && Linked(h) && self in f.kids && child !in f.kids && i <= |f.kids[self]| && proto in f.kids
    requires h.kids == f.kids[child := []][self := With(f.kids[self], i, child)] && h.up == f.up[child := self]
    requires Blank(child) && child.kind == proto.kind && child.document == self.document
    modifies h.kids.Keys`parent, h.kids.Keys`firstChild, h.kids.Keys`prevSiblingC, h.kids.Keys`nextSibling
    modifies child`name, child`value, child`attributes
    ensures Linked(g) && CopyCreated(f, h, g, self, proto, child, i, image) && ContentsCopied(image, self.document)
    ensures forall m :: m in g.kids && m !in h.kids ==> fresh(m)
    ensures h.kids.Keys == f.kids.Keys + {child}
  {
    hide *;
    CreatedLinked(f, h, self, child, i);
    g, image := NodeCopyTree(f, h, self, i, child, proto);
    CopyIs(f, h, g, self, proto, child, i, image);
  }

  /** `append_copy`. `h` is the forest when the new node has been linked. */
  method AppendCopy(ghost f: Forest<Node>, self: Node, proto: Node)
    returns (n: Node?, ghost h: Forest<Node>, ghost g: Forest<Node>, ghost image: map<Node, Node>)
    requires Linked(f) && self in f.kids && proto in f.kids
    modifies f.kids.Keys`parent, f.kids.Keys`firstChild, f.kids.Keys`prevSiblingC, f.kids.Keys`nextSibling
    ensures Linked(g) && (n == null <==> !MayContain(self.kind, proto.kind)) && (n == null ==> g == f)
    ensures forall m :: m in g.kids && m !in f.kids ==> fresh(m)
    ensures n != null ==> fresh(n) && ContentsCopied(image, self.document)
    ensures n != null ==> CopyCreated(f, h, g, self, proto, n, |f.kids[self]|, image)
  {
    hide *;
    AllowedIff(self.kind, proto.kind);
    if !AllowInsertChild(self.kind, proto.kind) {
      return null, f, f, map[];
    }
    LinkedShape(f);
    var child;
    child, h := AppendNewNode(f, self, proto.kind);
    WithBack(f.kids[self], child);
    ghost var i := |f.kids[self]|;
    g, image := CopyInto(f, h, self, i, child, proto);
    n := child;
  }

  /** `prepend_copy` */
  method PrependCopy(ghost f: Forest<Node>, self: Node, proto: Node)
    returns (n: Node?, ghost h: Forest<Node>, ghost g: Forest<Node>, ghost image: map<Node, Node>)
    requires Linked(f) && self in f.kids && proto in f.kids
    modifies f.kids.Keys`parent, f.kids.Keys`firstChild, f.kids.Keys`prevSiblingC, f.kids.Keys`nextSibling
    ensures Linked(g) && (n == null <==> !MayContain(self.kind, proto.kind)) && (n == null ==> g == f)
    ensures forall m :: m in g.kids && m !in f.kids ==> fresh(m)
    ensures n != null
      ==> fresh(n) && CopyCreated(f, h, g, self, proto, n, 0, image) && ContentsCopied(image, self.document)
  {
    hide *;
    AllowedIff(self.kind, proto.kind);
    if !AllowInsertChild(self.kind, proto.kind) {
      return null, f, f, map[];
    }
    LinkedShape(f);
    ghost var added;
    var child;
    child, added := NewNode(proto.kind, self.document, f);
    BlankIf(child);
    NewChild(f, child, self, 0);
    h := PrependNode(added, child, self);
    g, image := CopyInto(f, h, self, 0, child, proto);
    n := child;
  }

  /** `insert_copy_after` */
  method InsertCopyAfter(ghost f: Forest<Node>, self: Node, proto: Node, node: Node)
    returns (n: Node?, ghost h: Forest<Node>, ghost g: Forest<Node>, ghost image: map<Node, Node>)
    requires Linked(f) && self in f.kids && proto in f.kids && node in f.kids
    modifies f.kids.Keys`parent, f.kids.Keys`firstChild, f.kids.Keys`prevSiblingC, f.kids.Keys`nextSibling
    ensures Linked(g) && (n == null ==> g == f) && forall m :: m in g.kids && m !in f.kids ==> fresh(m)
    ensures n == null <==> !MayContain(self.kind, proto.kind) || node !in f.kids[self]
    ensures n != null ==>
              fresh(n) && CopyCreated(f, h, g, self, proto, n, Behind(f.kids[self], node), image)
                && ContentsCopied(image, self.document)
  {
    hide *;
    LinkedShape(f);
    ChildIff(f, self, node);
    AllowedIff(self.kind, proto.kind);
    if !AllowInsertChild(self.kind, proto.kind) {
      return null, f, f, map[];
    }
    if node.parent != self {
      return null, f, f, map[];
    }
    ghost var added;
    var child;
    child, added := NewNode(proto.kind, self.document, f);
    BlankIf(child);
    ghost var i := Behind(f.kids[self], node);
    NewChild(f, child, self, i);
    h := InsertNodeAfter(added, child, node);
    g, image := CopyInto(f, h, self, i, child, proto);
    n := child;
  }

  /** `insert_copy_before` */
  method InsertCopyBefore(ghost f: Forest<Node>, self: Node, proto: Node, node: Node)
    returns (n: Node?, ghost h: Forest<Node>, ghost g: Forest<Node>, ghost image: map<Node, Node>)
    requires Linked(f) && self in f.kids && proto in f.kids && node in f.kids
    modifies f.kids.Keys`parent, f.kids.Keys`firstChild, f.kids.Keys`prevSiblingC, f.kids.Keys`nextSibling
    ensures Linked(g) && (n == null ==> g == f) && forall m :: m in g.kids && m !in f.kids ==> fresh(m)
    ensures n == null <==> !MayContain(self.kind, proto.kind) || node !in f.kids[self]
    ensures n != null ==>
              fresh(n) && CopyCreated(f, h, g, self, proto, n, Index(f.kids[self], node), image)
                && ContentsCopied(image, self.document)
  {
    hide *;
    LinkedShape(f);
    ChildIff(f, self, node);
    AllowedIff(self.kind, proto.kind);
    if !AllowInsertChild(self.kind, proto.kind) {
      return null, f, f, map[];
    }
    if node.parent != self {
      return null, f, f, map[];
    }
    ghost var added;
    var child;
    child, added := NewNode(proto.kind, self.document, f);
    BlankIf(child);
    ghost var i := Index(f.kids[self], node);
    NewChild(f, child, self, i);
    h := InsertNodeBefore(added, child, node);
    g, image := CopyInto(f, h, self, i, child, proto);
    n := child;
  }

  /** Copying, also from another document, keeps the documents. */
  lemma CopyKeepsDom(f: Forest<Node>, h: Forest<Node>, g: Forest<Node>, self: Node, proto: Node, n: Node, i: nat,
                     image: map<Node, Node>)
    requires Homed(f) && self in f.kids && CopyCreated(f, h, g, self, proto, n, i, image) && Linked(g)
    requires MayContain(self.kind, proto.kind) && ContentsCopied(image, self.document)
    ensures Dom(g)
  {
    hide Linked, Isomorphic, KeepsUp, WellFormed, Homed, ContentsCopied;
    LinkedShape(g);
    FirstCopy(f, proto, g, n, image);
    CopyIsAt(image, self.document, proto);
    CreatedHomed(f, h, self, n, i);
    forall m | m in g.kids && m !in h.kids
      ensures m in g.up && MayContain(g.up[m].kind, m.kind)
      ensures m.document == self.document && g.up[m].document == self.document
    {
      var s :| s in image && image[s] == m;
      CopyHasParent(f, proto, g, n, image, s);
      CopyIsAt(image, self.document, s);
      CopyIsAt(image, self.document, f.up[s]);
      AttachedKind(f, s);
    }
    KeptHomed(h, g);
  }

  /** The nodes that were there keep their parents, and the others are attached within their document. */
  lemma KeptHomed(h: Forest<Node>, g: Forest<Node>)
    requires Homed(h) && WellFormed(g) && KeepsUp(h.kids.Keys, h.up, g.up) && h.kids.Keys <= g.kids.Keys
    requires forall m ::
      m in g.kids && m !in h.kids ==> m in g.up && MayContain(g.up[m].kind, m.kind) && m.document == g.up[m].document
    ensures Homed(g)
  {
    hide WellFormed;
    UpInKids(g);
    forall n | n in g.up ensures n in g.kids && n.document == g.up[n].document {
      if n in h.kids {
        assert n in h.up && g.up[n] == h.up[n];
      }
    }
  }

  lemma UpInKids(g: Forest<Node>)
    requires WellFormed(g)
    ensures g.up.Keys <= g.kids.Keys
  {}

  lemma CreatedHomed(f: Forest<Node>, h: Forest<Node>, self: Node, n: Node, i: nat)
    requires Homed(f) && self in f.kids && Created(f, h, self, n, i) && MayContain(self.kind, n.kind)
      && n.document == self.document
    ensures Homed(h)
  {}

  lemma AttachedKind(f: Forest<Node>, s: Node)
    requires Homed(f) && s in f.up && s in f.kids
    ensures MayContain(f.up[s].kind, s.kind)
  {}

  lemma FirstCopy(f: Forest<Node>, sn: Node, g: Forest<Node>, dn: Node, image: map<Node, Node>)
    requires Isomorphic(f, sn, g, dn, image)
    ensures sn in image && image[sn] == dn
  {
    hide Mirrored, Injective;
  }

  /** Every copy but the first is a child of a copy. */
  lemma CopyHasParent(f: Forest<Node>, sn: Node, g: Forest<Node>, dn: Node, image: map<Node, Node>, s: Node)
    requires Isomorphic(f, sn, g, dn, image) && s in image && image[s] != dn
    ensures s in f.kids && s in f.up && f.up[s] in image
    ensures image[s] in g.up && g.up[image[s]] == image[f.up[s]]
  {
    ParentInside(f, sn, g, dn, image, s);
    var a := f.up[s];
    hide Isomorphic;
    MirroredAt(f, sn, g, dn, image, a);
    ChildOf(f, s);
    var j :| 0 <= j < |f.kids[a]| && f.kids[a][j] == s;
    KidsOf(g, image[a], image[s]);
  }

  lemma ParentInside(f: Forest<Node>, sn: Node, g: Forest<Node>, dn: Node, image: map<Node, Node>, s: Node)
    requires Isomorphic(f, sn, g, dn, image) && s in image && image[s] != dn
    ensures WellFormed(f) && s in f.up && f.up[s] in image
  {
    hide Mirrored, Injective;
    assert Above(f, sn, s);
    assert f.up[s] in Subtree(f, sn);
  }

  lemma ChildOf(f: Forest<Node>, s: Node)
    requires WellFormed(f) && s in f.up
    ensures s in f.kids && f.up[s] in f.kids && s in f.kids[f.up[s]]
  {
    hide Ranked;
  }
}
