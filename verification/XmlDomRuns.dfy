/** Runs of the DOM operations: whatever an application asks for, in whatever order, the nodes in memory stay the trees
    of its documents, and every request does what it says or nothing. */
module XmlDomRuns {
  import opened Bytes
  import opened XmlForest
  import opened XmlLinks
  import opened XmlDom
  import opened XmlCopy

  datatype Place = Last | First | After(node: nat) | Before(node: nat)

  /** What an application may ask for. Nodes are named by their place in the table of its handles. */
  datatype Request =
    | OpenDocument
    | Create(self: nat, kind: Kind, place: Place)
    | Move(self: nat, moved: nat, place: Place)
    | Copy(self: nat, proto: nat, place: Place)
    | Remove(self: nat, node: nat)
    | Parent(of: nat) | FirstChild(of: nat) | NextSibling(of: nat)

  /** The handle is not empty. */
  predicate Named(hs: seq<Node?>, k: nat) {
    k < |hs| && hs[k] != null
  }

  /** No handle leads to a node that is gone. */
  ghost predicate Live(f: Forest<Node>, hs: seq<Node?>) {
    forall k :: 0 <= k < |hs| && hs[k] != null ==> hs[k] in f.kids
  }

  ghost predicate HasPlace(s: seq<Node>, place: Place, hs: seq<Node?>) {
    match place
    case Last => true
    case First => true
    case After(k) => Named(hs, k) && hs[k] in s
    case Before(k) => Named(hs, k) && hs[k] in s
  }

  ghost function PlaceOf(s: seq<Node>, place: Place, hs: seq<Node?>): (i: nat)
    requires HasPlace(s, place, hs)
    ensures i <= |s|
  {
    match place
    case Last => |s|
    case First => 0
    case After(k) => Behind<Node>(s, hs[k])
    case Before(k) => Index<Node>(s, hs[k])
  }

  /** The place is not given by the node itself. */
  ghost predicate Beside(place: Place, hs: seq<Node?>, n: Node) {
    match place
    case Last => true
    case First => true
    case After(k) => Named(hs, k) && hs[k] != n
    case Before(k) => Named(hs, k) && hs[k] != n
  }

  // ----- what a request does -----

  ghost predicate CreateDone(f: Forest<Node>, g: Forest<Node>, hs: seq<Node?>, self: nat, kind: Kind, place: Place,
                             n: Node?)
    requires Live(f, hs)
  {
    if Named(hs, self) && MayContain(hs[self].kind, kind) && HasPlace(f.kids[hs[self]], place, hs)
    then n != null && n.kind == kind && Created(f, g, hs[self], n, PlaceOf(f.kids[hs[self]], place, hs))
    else n == null && g == f
  }

  ghost predicate MoveDone(f: Forest<Node>, g: Forest<Node>, hs: seq<Node?>, self: nat, moved: nat, place: Place,
                           n: Node?)
    requires Live(f, hs) && WellFormed(f)
  {
    if Named(hs, self) && Named(hs, moved) && CanMove(f, hs[self], hs[moved])
       && HasPlace(f.kids[hs[self]], place, hs) && Beside(place, hs, hs[moved])
    then n == hs[moved] && exists i: nat :: MovedTo(f, g, hs, hs[self], hs[moved], place, i)
    else n == null && g == f
  }

  ghost predicate MovedTo(f: Forest<Node>, g: Forest<Node>, hs: seq<Node?>, self: Node, moved: Node, place: Place,
                          i: nat) {
    && Moved(f, g, self, moved, i)
    && HasPlace(Detach(f, moved).kids[self], place, hs) && i == PlaceOf(Detach(f, moved).kids[self], place, hs)
  }

  /** The node that a look around leads to */
  ghost function Visited(f: Forest<Node>, hs: seq<Node?>, r: Request): Node?
    requires Live(f, hs) && WellFormed(f) && (r.Parent? || r.FirstChild? || r.NextSibling?)
  {
    if !Named(hs, r.of) then null else
    var n: Node := hs[r.of];
    match r
    case Parent(_) => if n in f.up then f.up[n] else null
    case FirstChild(_) => if f.kids[n] != [] then f.kids[n][0] else null
    case NextSibling(_) => Following(f, n)
  }

  ghost function Following(f: Forest<Node>, n: Node): Node?
    requires WellFormed(f)
  {
    if n !in f.up then null else
    var s, i := f.kids[f.up[n]], Behind(f.kids[f.up[n]], n);
    if i < |s| then s[i] else null
  }

  /** How a copy was made: the forest when the new node had been linked, and the copy of each node. */
  datatype Copied = Copied(linked: Forest<Node>, image: map<Node, Node>)

  ghost predicate CopyDone(f: Forest<Node>, g: Forest<Node>, hs: seq<Node?>, self: nat, proto: nat, place: Place,
                           n: Node?, c: Copied)
    requires Live(f, hs)
  {
    if Named(hs, self) && Named(hs, proto) && MayContain(hs[self].kind, hs[proto].kind)
       && HasPlace(f.kids[hs[self]], place, hs)
    then n != null
         && CopyCreated(f, c.linked, g, hs[self], hs[proto], n, PlaceOf(f.kids[hs[self]], place, hs), c.image)
    else n == null && g == f
  }

  ghost predicate RemoveDone(f: Forest<Node>, g: Forest<Node>, hs: seq<Node?>, self: nat, node: nat)
    requires Live(f, hs)
  {
    if Named(hs, self) && Named(hs, node) && hs[node] in f.kids[hs[self]] then Removed(f, g, hs[node]) else g == f
  }

  /** The documents, the table of handles, and what the last copy made */
  datatype Moment = Moment(f: Forest<Node>, handles: seq<Node?>, copied: Copied)

  /** The request has been carried out, and its result is the newest handle; handles to nodes that are gone are
      empty. */
  ghost predicate Done(a: Moment, r: Request, b: Moment) {
    var f, hs, g, ks := a.f, a.handles, b.f, b.handles;
    && Live(f, hs) && WellFormed(f) && |ks| == |hs| + 1
    && (forall k :: 0 <= k < |hs| ==> ks[k] == if hs[k] != null && hs[k] in g.kids then hs[k] else null)
    && var n := ks[|hs|];
       match r
       case OpenDocument => n != null && n !in f.kids && n.kind == KindDocument && g.kids == f.kids[n := []]
         && g.up == f.up
       case Create(self, kind, place) => CreateDone(f, g, hs, self, kind, place, n)
       case Move(self, moved, place) => MoveDone(f, g, hs, self, moved, place, n)
       case Copy(self, proto, place) => CopyDone(f, g, hs, self, proto, place, n, b.copied)
       case Remove(self, node) => n == null && RemoveDone(f, g, hs, self, node)
       case _ => g == f && n == Visited(f, hs, r)
  }

  lemma DomFacts(f: Forest<Node>)
    requires Dom(f)
    ensures Linked(f) && WellFormed(f) && Homed(f) && Arranged(f)
  {
  }

  // ----- carrying out requests -----

  method PerformCreate(ghost f: Forest<Node>, hs: seq<Node?>, self: nat, kind: Kind, place: Place)
    returns (n: Node?, ghost g: Forest<Node>)
    requires Dom(f) && Live(f, hs)
    modifies f.kids.Keys`parent, f.kids.Keys`firstChild, f.kids.Keys`prevSiblingC, f.kids.Keys`nextSibling
    ensures Dom(g) && CreateDone(f, g, hs, self, kind, place, n) && f.kids.Keys <= g.kids.Keys
    ensures forall m :: m in g.kids && m !in f.kids ==> fresh(m)
    ensures n != null ==> n in g.kids
  {
    hide Dom, Linked, WellFormed, Homed;
    n, g := null, f;
    if !Named(hs, self) {
      return;
    }
    match place
    case Last => n, g := AppendChild(f, hs[self], kind);
    case First => n, g := PrependChild(f, hs[self], kind);
    case After(k) =>
      if Named(hs, k) {
        n, g := InsertChildAfter(f, hs[self], kind, hs[k]);
      }
    case Before(k) =>
      if Named(hs, k) {
        n, g := InsertChildBefore(f, hs[self], kind, hs[k]);
      }
  }

  /** The move, once the handles have been looked up. */
  method MoveNode(ghost f: Forest<Node>, hs: seq<Node?>, self: Node, moved: Node, place: Place)
    returns (n: Node?, ghost g: Forest<Node>)
    requires Dom(f) && Live(f, hs) && self in f.kids && moved in f.kids
    modifies f.kids.Keys`parent, f.kids.Keys`firstChild, f.kids.Keys`prevSiblingC, f.kids.Keys`nextSibling
    ensures WellFormed(f) && Dom(g) && (n == null ==> g == f) && (n != null ==> n == moved)
    ensures n != null <==> CanMove(f, self, moved) && HasPlace(f.kids[self], place, hs) && Beside(place, hs, moved)
    ensures n != null ==> exists i: nat :: MovedTo(f, g, hs, self, moved, place, i)
  {
    hide Dom, Linked, WellFormed, Homed, CanMove, Detach, Index, With, Moved;
    DomFacts(f);
    n, g := null, f;
    match place
    case Last =>
      n, g := AppendMove(f, self, moved);
      if n != null {
        MovedAt(f, g, hs, self, moved, place, |Detach(f, moved).kids[self]|);
      }
    case First =>
      n, g := PrependMove(f, self, moved);
      if n != null {
        MovedAt(f, g, hs, self, moved, place, 0);
      }
    case After(k) =>
      if Named(hs, k) {
        var node := NodeAt(f, hs, k);
        n, g := InsertMoveAfter(f, self, moved, node);
        if n != null {
          MovedAt(f, g, hs, self, moved, place, Behind(Detach(f, moved).kids[self], node));
        }
      }
    case Before(k) =>
      if Named(hs, k) {
        var node := NodeAt(f, hs, k);
        n, g := InsertMoveBefore(f, self, moved, node);
        if n != null {
          MovedAt(f, g, hs, self, moved, place, Index(Detach(f, moved).kids[self], node));
        }
      }
  }

  lemma MovedAt(f: Forest<Node>, g: Forest<Node>, hs: seq<Node?>, self: Node, n: Node, place: Place, i: nat)
    requires Moved(f, g, self, n, i)
    requires var s := Detach(f, n).kids[self];
      match place
      case Last => i == |s|
      case First => i == 0
      case After(k) => Named(hs, k) && hs[k] in s && i == Behind<Node>(s, hs[k])
      case Before(k) => Named(hs, k) && hs[k] in s && i == Index<Node>(s, hs[k])
    ensures MovedTo(f, g, hs, self, n, place, i)
  {
    hide Moved, Index, Detach;
  }

  lemma MovedKeys(f: Forest<Node>, g: Forest<Node>, self: Node, n: Node, i: nat)
    requires Moved(f, g, self, n, i) && WellFormed(f)
    ensures g.kids.Keys == f.kids.Keys
  {
    hide Ranked, WellFormed;
    DetachedKeys(f, n);
  }

  method PerformMove(ghost f: Forest<Node>, hs: seq<Node?>, self: nat, moved: nat, place: Place)
    returns (n: Node?, ghost g: Forest<Node>)
    requires Dom(f) && Live(f, hs)
    modifies f.kids.Keys`parent, f.kids.Keys`firstChild, f.kids.Keys`prevSiblingC, f.kids.Keys`nextSibling
    ensures WellFormed(f) && Dom(g) && MoveDone(f, g, hs, self, moved, place, n) && g.kids.Keys == f.kids.Keys
    ensures n != null ==> n in g.kids
  {
    hide Dom, Linked, WellFormed, Homed, CanMove, HasPlace, Beside, PlaceOf, Detach, With, Moved;
    DomFacts(f);
    n, g := null, f;
    if !Named(hs, self) || !Named(hs, moved) {
      return;
    }
    n, g := MoveNode(f, hs, hs[self], hs[moved], place);
    if n != null {
      ghost var i: nat :| MovedTo(f, g, hs, hs[self], hs[moved], place, i);
      MovedKeys(f, g, hs[self], hs[moved], i);
    }
  }

  /** The copy, once the handles have been looked up. */
  method CopyNode(ghost f: Forest<Node>, hs: seq<Node?>, self: Node, proto: Node, place: Place)
    returns (n: Node?, ghost g: Forest<Node>, ghost c: Copied)
    requires Linked(f) && Live(f, hs) && self in f.kids && proto in f.kids
    modifies f.kids.Keys`parent, f.kids.Keys`firstChild, f.kids.Keys`prevSiblingC, f.kids.Keys`nextSibling
    ensures Linked(g) && (n == null ==> g == f) && forall m :: m in g.kids && m !in f.kids ==> fresh(m)
    ensures n != null <==> MayContain(self.kind, proto.kind) && HasPlace(f.kids[self], place, hs)
    ensures n != null ==>
              && CopyCreated(f, c.linked, g, self, proto, n, PlaceOf(f.kids[self], place, hs), c.image)
              && ContentsCopied(c.image, self.document)
  {
    hide Linked, CopyCreated, ContentsCopied, Index, MayContain, Live;
    n, g, c := null, f, Copied(f, map[]);
    ghost var h: Forest<Node>, image: map<Node, Node> := f, map[];
    match place {
      case Last =>
        n, h, g, image := AppendCopy(f, self, proto);
      case First =>
        n, h, g, image := PrependCopy(f, self, proto);
      case After(k) =>
        if Named(hs, k) {
          n, h, g, image := InsertCopyAfter(f, self, proto, NodeAt(f, hs, k));
        }
      case Before(k) =>
        if Named(hs, k) {
          n, h, g, image := InsertCopyBefore(f, self, proto, NodeAt(f, hs, k));
        }
    }
    c := Copied(h, image);
  }

  function NodeAt(ghost f: Forest<Node>, hs: seq<Node?>, k: nat): (n: Node)
    requires Live(f, hs) && Named(hs, k)
    ensures n == hs[k] && n in f.kids
  {
    hs[k]
  }

  lemma CopyGrows(f: Forest<Node>, h: Forest<Node>, g: Forest<Node>, self: Node, proto: Node, n: Node, i: nat,
                  image: map<Node, Node>)
    requires self in f.kids && CopyCreated(f, h, g, self, proto, n, i, image)
    ensures f.kids.Keys <= g.kids.Keys && n in g.kids
  {
  }

  method PerformCopy(ghost f: Forest<Node>, hs: seq<Node?>, self: nat, proto: nat, place: Place)
    returns (n: Node?, ghost g: Forest<Node>, ghost c: Copied)
    requires Dom(f) && Live(f, hs)
    modifies f.kids.Keys`parent, f.kids.Keys`firstChild, f.kids.Keys`prevSiblingC, f.kids.Keys`nextSibling
    ensures Dom(g) && CopyDone(f, g, hs, self, proto, place, n, c) && f.kids.Keys <= g.kids.Keys
    ensures forall m :: m in g.kids && m !in f.kids ==> fresh(m)
    ensures n != null ==> n in g.kids
  {
    hide Dom, Linked, WellFormed, Homed, CopyCreated, ContentsCopied, HasPlace, PlaceOf, MayContain, Live;
    DomFacts(f);
    n, g, c := null, f, Copied(f, map[]);
    if !Named(hs, self) || !Named(hs, proto) {
      return;
    }
    var into, original := NodeAt(f, hs, self), NodeAt(f, hs, proto);
    n, g, c := CopyNode(f, hs, into, original, place);
    if n != null {
      CopyKeepsDom(f, c.linked, g, into, original, n, PlaceOf(f.kids[into], place, hs), c.image);
      CopyGrows(f, c.linked, g, into, original, n, PlaceOf(f.kids[into], place, hs), c.image);
    } else {
      DomOf(g);
    }
  }

  /** Is `a` the node `n` or above it? */
  method IsAbove(ghost f: Forest<Node>, a: Node, n: Node) returns (r: bool)
    requires Linked(f) && WellFormed(f) && n in f.kids
    ensures r <==> Above(f, a, n)
  {
    var cur: Node? := n;
    while cur != null
      invariant cur != null ==> cur in f.kids
      invariant Above(f, a, n) <==> cur != null && Above(f, a, cur)
      decreases if cur == null then 0 else 1 + f.rank[cur]
    {
      if cur == a {
        return true;
      }
      SnapshotOf(f.kids.Keys, cur);
      assert Shown(f, Snapshot(f.kids.Keys), cur);
      cur := cur.parent;
    }
    r := false;
  }

  /** The handles without those to `n` and what is below it. */
  method Forget(ghost f: Forest<Node>, hs: seq<Node?>, n: Node) returns (ks: seq<Node?>)
    requires Linked(f) && WellFormed(f) && Live(f, hs)
    ensures |ks| == |hs|
    ensures forall k :: 0 <= k < |hs| ==> ks[k] == if hs[k] != null && !Above(f, n, hs[k]) then hs[k] else null
  {
    hide Linked, WellFormed, Above;
    ks := [];
    for k := 0 to |hs|
      invariant |ks| == k
      invariant forall j :: 0 <= j < k ==> ks[j] == if hs[j] != null && !Above(f, n, hs[j]) then hs[j] else null
    {
      var gone := false;
      if hs[k] != null {
        gone := IsAbove(f, n, hs[k]);
      }
      ks := ks + [if gone then null else hs[k]];
    }
  }

  method PerformRemove(ghost f: Forest<Node>, hs: seq<Node?>, self: nat, node: nat)
    returns (ks: seq<Node?>, ghost g: Forest<Node>)
    requires Dom(f) && Live(f, hs)
    modifies f.kids.Keys`parent, f.kids.Keys`firstChild, f.kids.Keys`prevSiblingC, f.kids.Keys`nextSibling
    ensures Dom(g) && RemoveDone(f, g, hs, self, node) && g.kids.Keys <= f.kids.Keys
    ensures |ks| == |hs|
      && forall k :: 0 <= k < |hs| ==> ks[k] == if hs[k] != null && hs[k] in g.kids then hs[k] else null
  {
    hide Dom, Linked, WellFormed, Homed, Removed, Above;
    DomFacts(f);
    ks, g := hs, f;
    if !Named(hs, self) || !Named(hs, node) {
      return;
    }
    ghost var p := NodeAt(f, hs, self);
    var n := NodeAt(f, hs, node);
    var less := Forget(f, hs, n);
    var removed;
    removed, g := RemoveChild(f, hs[self], n);
    if removed {
      ks := less;
      RemovedKeys(f, g, n);
    }
  }

  /** What goes away is the node and what is below it. */
  lemma RemovedKeys(f: Forest<Node>, g: Forest<Node>, n: Node)
    requires Removed(f, g, n)
    ensures WellFormed(f) && g.kids.Keys <= f.kids.Keys
    ensures forall m :: m in f.kids ==> (m in g.kids <==> !Above(f, n, m))
  {
    DetachedKeys(f, n);
    forall m | m in f.kids ensures m in g.kids <==> !Above(f, n, m) {
      AboveDetached(f, n, m);
    }
  }

  lemma {:induction false} AboveDetached(f: Forest<Node>, n: Node, m: Node)
    requires WellFormed(f) && n in f.up && f.up[n] in f.kids && WellFormed(Detach(f, n)) && m in f.kids
    ensures m in Detach(f, n).kids && (Above(Detach(f, n), n, m) <==> Above(f, n, m))
    decreases f.rank[m]
  {
    DetachedKeys(f, n);
    if m != n && m in f.up {
      AboveDetached(f, n, f.up[m]);
    }
  }

  lemma LinksOf(f: Forest<Node>, n: Node)
    requires Linked(f) && WellFormed(f) && n in f.kids
    ensures n.parent == (if n in f.up then f.up[n] else null) && (n.parent != null ==> n.parent in f.kids)
    ensures n.firstChild == (if f.kids[n] != [] then f.kids[n][0] else null)
    ensures n.firstChild != null ==> n.firstChild in f.kids
    ensures n.nextSibling == Following(f, n) && (n.nextSibling != null ==> n.nextSibling in f.kids)
  {
    hide Linked, WellFormed;
    FirstChildIs(f, n);
    if f.kids[n] != [] {
      KidsOf(f, n, f.kids[n][0]);
    }
    ParentIs(f, n);
    if n in f.up {
      ChildOf(f, n);
      var p, i := f.up[n], Index(f.kids[f.up[n]], n);
      NextSiblingIs(f, p, i);
      if i + 1 < |f.kids[p]| {
        KidsOf(f, p, f.kids[p][i + 1]);
      }
    } else {
      AloneAtTop(f, n);
    }
  }

  lemma ParentIs(f: Forest<Node>, n: Node)
    requires Linked(f) && WellFormed(f) && n in f.kids
    ensures n.parent == (if n in f.up then f.up[n] else null) && (n in f.up ==> f.up[n] in f.kids)
  {
    SnapshotOf(f.kids.Keys, n);
    assert Shown(f, Snapshot(f.kids.Keys), n);
  }

  lemma AloneAtTop(f: Forest<Node>, n: Node)
    requires Linked(f) && n in f.kids && n !in f.up
    ensures n.nextSibling == null
  {
    SnapshotOf(f.kids.Keys, n);
    assert Shown(f, Snapshot(f.kids.Keys), n);
  }

  /** `parent`, `first_child` and `next_sibling` */
  method PerformVisit(ghost f: Forest<Node>, hs: seq<Node?>, r: Request) returns (n: Node?)
    requires Dom(f) && Live(f, hs) && (r.Parent? || r.FirstChild? || r.NextSibling?)
    ensures WellFormed(f) && n == Visited(f, hs, r) && (n != null ==> n in f.kids)
  {
    hide Dom, Linked, WellFormed, Homed, Shows, Snapshot;
    DomFacts(f);
    n := null;
    if !Named(hs, r.of) {
      return;
    }
    var of := NodeAt(f, hs, r.of);
    LinksOf(f, of);
    match r
    case Parent(_) => n := of.parent;
    case FirstChild(_) => n := of.firstChild;
    case NextSibling(_) => n := of.nextSibling;
  }

  method Perform(ghost f: Forest<Node>, hs: seq<Node?>, r: Request)
    returns (ks: seq<Node?>, ghost g: Forest<Node>, ghost c: Copied)
    requires Dom(f) && Live(f, hs)
    modifies f.kids.Keys`parent, f.kids.Keys`firstChild, f.kids.Keys`prevSiblingC, f.kids.Keys`nextSibling
    ensures Dom(g) && Live(g, ks) && |ks| == |hs| + 1 && forall m :: m in g.kids && m !in f.kids ==> fresh(m)
    ensures forall earlier :: Done(Moment(f, hs, earlier), r, Moment(g, ks, c))
  {
    hide Dom, Linked, WellFormed, Homed, CreateDone, MoveDone, CopyDone, RemoveDone, Visited;
    DomFacts(f);
    var n: Node? := null;
    g, c, ks := f, Copied(f, map[]), hs;
    match r {
      case OpenDocument => n, g := NewDocument(f);
      case Create(self, kind, place) => n, g := PerformCreate(f, hs, self, kind, place);
      case Move(self, moved, place) => n, g := PerformMove(f, hs, self, moved, place);
      case Copy(self, proto, place) => n, g, c := PerformCopy(f, hs, self, proto, place);
      case Remove(self, node) => ks, g := PerformRemove(f, hs, self, node);
      case _ => n := PerformVisit(f, hs, r);
    }
    ks := ks + [n];
  }

  // ----- runs -----

  /** Every moment of a run comes from the one before by the request made there. */
  ghost predicate Follows(requests: seq<Request>, run: seq<Moment>) {
    && |run| == |requests| + 1 && run[0].f == NoNodes<Node>() && run[0].handles == []
    && forall k :: 0 <= k < |requests| ==> Done(run[k], requests[k], run[k + 1])
  }

  /** For every list of requests: in the end, and so after every one of them, the nodes in memory are the trees of the
      documents, no handle leads to a node that is gone, and every request has done what it says. */
  method Run(requests: seq<Request>) returns (handles: seq<Node?>, ghost run: seq<Moment>)
    ensures Follows(requests, run) && |handles| == |requests|
    ensures var last := run[|requests|];
      Dom(last.f) && Arranged(last.f) && Live(last.f, handles) && last.handles == handles
  {
    hide Dom, Done, Arranged;
    ghost var f := NoNodes<Node>();
    handles := [];
    NoDocuments();
    run := [Moment(f, handles, Copied(f, map[]))];
    for k := 0 to |requests|
      invariant Dom(f) && Live(f, handles) && forall m :: m in f.kids ==> fresh(m)
      invariant |handles| == k && |run| == k + 1 && run[k].f == f && run[k].handles == handles
      invariant run[0].f == NoNodes<Node>() && run[0].handles == []
      invariant forall j :: 0 <= j < k ==> Done(run[j], requests[j], run[j + 1])
    {
      ghost var g, c, before := f, Copied(f, map[]), run[k];
      handles, g, c := Perform(f, handles, requests[k]);
      assert Done(Moment(before.f, before.handles, before.copied), requests[k], Moment(g, handles, c));
      f := g;
      run := run + [Moment(f, handles, c)];
    }
    DomFacts(f);
  }
}
