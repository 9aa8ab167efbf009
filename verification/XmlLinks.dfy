/** The four links of every node as maps, the edits that the list operations of pugixml make to them, and the proof that
    each edit shows the forest with one child list changed. */
module XmlLinks {
  import opened XmlForest

  datatype Ref<N> = Null | To(node: N)

  /** `parent`, `first_child`, `prev_sibling_c` and `next_sibling` */
  datatype Links<N(==)> = Links(parent: map<N, Ref<N>>, first: map<N, Ref<N>>, prev: map<N, Ref<N>>, next: map<N,
                                Ref<N>>)

  function At<N>(s: seq<N>, i: int): Ref<N> {
    if 0 <= i < |s| then To(s[i]) else Null
  }

  /** The sibling links of a child list: null-terminated forwards, circular backwards. */
  ghost predicate Chained<N>(s: seq<N>, l: Links<N>) {
    forall i {:trigger s[i]} :: 0 <= i < |s| ==>
      && s[i] in l.next && l.next[s[i]] == At(s, i + 1)
      && s[i] in l.prev && l.prev[s[i]] == At(s, if i == 0 then |s| - 1 else i - 1)
  }

  ghost predicate Shown<N>(f: Forest<N>, l: Links<N>, n: N)
    requires n in f.kids
  {
    && n in l.parent && l.parent[n] == (if n in f.up then To(f.up[n]) else Null)
    && n in l.first && l.first[n] == At(f.kids[n], 0)
    && n in l.prev && n in l.next && (n !in f.up ==> l.next[n] == Null && l.prev[n] in {Null, To(n)})
    && Chained(f.kids[n], l)
  }

  /** The links show the forest. */
  ghost predicate Shows<N>(f: Forest<N>, l: Links<N>) {
    WellFormed(f) && forall n :: n in f.kids ==> Shown(f, l, n)
  }

  lemma LinksAt<N>(s: seq<N>, l: Links<N>, i: nat)
    requires Chained(s, l) && i < |s|
    ensures s[i] in l.next && l.next[s[i]] == At(s, i + 1)
    ensures s[i] in l.prev && l.prev[s[i]] == At(s, if i == 0 then |s| - 1 else i - 1)
  {
  }

  lemma Apart<N>(s: seq<N>, i: nat, j: nat)
    requires DistinctList(s) && i < |s| && j < |s|
    ensures s[i] == s[j] <==> i == j
    ensures s[i] in s
  {
  }

  lemma WithAt<N>(s: seq<N>, i: nat, x: N, j: int)
    requires i <= |s|
    ensures |With(s, i, x)| == |s| + 1
    ensures At(With(s, i, x), j) == if j < i then At(s, j) else if j == i then To(x) else At(s, j - 1)
  {
  }

  /** The links of one node of a list. */
  ghost predicate LinkOk<N>(t: seq<N>, k: Links<N>, j: nat)
    requires j < |t|
  {
    && t[j] in k.next && k.next[t[j]] == At(t, j + 1)
    && t[j] in k.prev && k.prev[t[j]] == At(t, if j == 0 then |t| - 1 else j - 1)
  }

  lemma ChainedIf<N>(t: seq<N>, k: Links<N>)
    requires forall j :: 0 <= j < |t| ==> LinkOk(t, k, j)
    ensures Chained(t, k)
  {
    forall i | 0 <= i < |t|
      ensures t[i] in k.next && k.next[t[i]] == At(t, i + 1)
      ensures t[i] in k.prev && k.prev[t[i]] == At(t, if i == 0 then |t| - 1 else i - 1)
    {
      assert LinkOk(t, k, i);
    }
  }

  /** Nodes outside `s` keep their sibling links. */
  ghost predicate KeepsSiblings<N>(l: Links<N>, k: Links<N>, s: set<N>) {
    && l.next.Keys <= k.next.Keys && l.prev.Keys <= k.prev.Keys
    && (forall x :: x in l.next && x !in s ==> k.next[x] == l.next[x])
    && (forall x :: x in l.prev && x !in s ==> k.prev[x] == l.prev[x])
  }

  lemma KidHasParent<N>(f: Forest<N>, n: N, x: N)
    requires WellFormed(f) && n in f.kids && x in f.kids[n]
    ensures x in f.up && f.up[x] == n && x in f.kids
  {
  }

  /** The list of another node is not touched. */
  lemma OtherList<N>(f: Forest<N>, l: Links<N>, k: Links<N>, p: N, c: N, n: N)
    requires WellFormed(f) && p in f.kids && n in f.kids && n != p && Chained(f.kids[n], l)
    requires c in f.up ==> f.up[c] == p
    requires KeepsSiblings(l, k, (set x | x in f.kids[p]) + {c})
    ensures Chained(f.kids[n], k)
  {
    hide WellFormed;
    forall i | 0 <= i < |f.kids[n]|
      ensures f.kids[n][i] in k.next && k.next[f.kids[n][i]] == l.next[f.kids[n][i]]
      ensures f.kids[n][i] in k.prev && k.prev[f.kids[n][i]] == l.prev[f.kids[n][i]]
    {
      var x := f.kids[n][i];
      KidHasParent(f, n, x);
      if x in f.kids[p] {
        KidHasParent(f, p, x);
      }
    }
  }

  /** One child list has been edited, together with the parent of one node: the links show the edited forest. */
  lemma OneListEdited<N>(f: Forest<N>, g: Forest<N>, l: Links<N>, k: Links<N>, p: N, c: N)
    requires Shows(f, l) && WellFormed(g) && p in f.kids && c in f.kids && (c in f.up ==> f.up[c] == p)
    requires g.kids == f.kids[p := if p in g.kids then g.kids[p] else []]
    requires g.up - {c} == f.up - {c}
    requires k.parent == l.parent[c := if c in g.up then To(g.up[c]) else Null]
    requires k.first == l.first[p := At(g.kids[p], 0)]
    requires Chained(g.kids[p], k) && KeepsSiblings(l, k, (set x | x in f.kids[p]) + {c})
    requires c in k.next && c in k.prev && (c !in g.up ==> k.next[c] == Null && k.prev[c] == Null)
    ensures Shows(g, k)
  {
    hide WellFormed, Chained;
    forall n | n in g.kids ensures Shown(g, k, n) {
      assert Shown(f, l, n);
      if n != p {
        OtherList(f, l, k, p, c, n);
      }
      if n != c {
        assert n in g.up - {c} <==> n in f.up - {c};
        assert n in f.up ==> (g.up - {c})[n] == (f.up - {c})[n];
        if n !in f.up && n in f.kids[p] {
          KidHasParent(f, p, n);
        }
      }
    }
  }

  // ----- the edits, statement by statement -----

  /** `append_node` */
  function AppendEdit<N>(l: Links<N>, child: N, node: N): Links<N>
    requires node in l.first && l.first[node].To? ==> l.first[node].node in l.prev && l.prev[l.first[node].node].To?
    requires node in l.first
  {
    var l1 := l.(parent := l.parent[child := To(node)]);
    if l.first[node].To? then
      var head := l.first[node].node;
      var tail := l.prev[head].node;
      l1.(next := l.next[tail := To(child)], prev := l.prev[child := To(tail)][head := To(child)])
    else
      l1.(first := l.first[node := To(child)], prev := l.prev[child := To(child)])
  }

  lemma AppendChained<N>(l: Links<N>, s: seq<N>, child: N, node: N)
    requires DistinctList(s) && child !in s && Chained(s, l) && node in l.first && l.first[node] == At(s, 0)
    requires child in l.next && l.next[child] == Null
    ensures l.first[node].To? ==> l.first[node].node in l.prev && l.prev[l.first[node].node].To?
    ensures var k := AppendEdit(l, child, node);
      Chained(s + [child], k) && node in k.first && k.first[node] == At(s + [child], 0)
  {
    if s != [] {
      assert s[0] in l.prev && s[|s| - 1] in l.next;
      var k := AppendEdit(l, child, node);
      var t := s + [child];
      forall i | 0 <= i < |t|
        ensures t[i] in k.next && k.next[t[i]] == At(t, i + 1)
        ensures t[i] in k.prev && k.prev[t[i]] == At(t, if i == 0 then |t| - 1 else i - 1)
      {
        if i < |s| { assert s[i] in s; }
      }
    }
  }

  lemma KidsDistinct<N>(f: Forest<N>, n: N)
    requires WellFormed(f) && n in f.kids
    ensures DistinctList(f.kids[n])
  {
  }

  /** A detached node is in no list. */
  lemma DetachedOutside<N>(f: Forest<N>, c: N, p: N)
    requires WellFormed(f) && p in f.kids && c !in f.up
    ensures c !in f.kids[p]
  {
  }

  /** An edit that chains the list with the node at place `i`, and changes nothing else, shows the node put in there. */
  lemma Inserted<N>(f: Forest<N>, l: Links<N>, k: Links<N>, c: N, p: N, i: nat)
    requires Shows(f, l) && c in f.kids && c !in f.up && p in f.kids && i <= |f.kids[p]| && !Above(f, c, p)
    requires k.parent == l.parent[c := To(p)] && k.first == l.first[p := At(With(f.kids[p], i, c), 0)]
    requires Chained(With(f.kids[p], i, c), k) && KeepsSiblings(l, k, (set x | x in f.kids[p]) + {c})
    requires c in k.next && c in k.prev
    ensures Shows(Attach(f, c, p, i), k)
  {
    hide WellFormed, Above, Chained;
    AttachWellFormed(f, c, p, i);
    var g := Attach(f, c, p, i);
    assert g.up - {c} == f.up - {c};
    OneListEdited(f, g, l, k, p, c);
  }

  /** Appending a detached node edits the list of its new parent and nothing else. */
  lemma AppendShows<N>(f: Forest<N>, l: Links<N>, child: N, node: N)
    requires Shows(f, l) && child in f.kids && child !in f.up && node in f.kids && !Above(f, child, node)
    ensures Shown(f, l, node) && Shown(f, l, child)
    ensures l.first[node].To? ==> l.first[node].node in l.prev && l.prev[l.first[node].node].To?
    ensures Shows(Attach(f, child, node, |f.kids[node]|), AppendEdit(l, child, node))
  {
    hide WellFormed, Above, Attach;
    var s := f.kids[node];
    assert Shown(f, l, node) && Shown(f, l, child);
    DetachedOutside(f, child, node);
    KidsDistinct(f, node);
    AppendChained(l, s, child, node);
    var k := AppendEdit(l, child, node);
    assert With(s, |s|, child) == s + [child];
    if s != [] {
      assert s[0] in s && s[|s| - 1] in s;
    }
    Inserted(f, l, k, child, node, |s|);
  }

  /** `prepend_node` */
  function PrependEdit<N>(l: Links<N>, child: N, node: N): Links<N>
    requires node in l.first && (l.first[node].To? ==> l.first[node].node in l.prev)
  {
    var head := l.first[node];
    Links(l.parent[child := To(node)], l.first[node := To(child)],
          if head.To? then l.prev[child := l.prev[head.node]][head.node := To(child)] else l.prev[child := To(child)],
          l.next[child := head])
  }

  lemma PrependChained<N>(l: Links<N>, s: seq<N>, child: N, node: N)
    requires DistinctList(s) && child !in s && Chained(s, l) && node in l.first && l.first[node] == At(s, 0)
    ensures l.first[node].To? ==> l.first[node].node in l.prev
    ensures Chained([child] + s, PrependEdit(l, child, node))
  {
    if s != [] {
      assert s[0] in l.prev;
      var k := PrependEdit(l, child, node);
      var t := [child] + s;
      forall i | 0 <= i < |t|
        ensures t[i] in k.next && k.next[t[i]] == At(t, i + 1)
        ensures t[i] in k.prev && k.prev[t[i]] == At(t, if i == 0 then |t| - 1 else i - 1)
      {
        if i > 0 { assert s[i - 1] in s; }
      }
    }
  }

  lemma PrependKeeps<N>(l: Links<N>, s: seq<N>, child: N, node: N)
    requires Chained(s, l) && node in l.first && l.first[node] == At(s, 0) && child in l.next && child in l.prev
    ensures l.first[node].To? ==> l.first[node].node in l.prev
    ensures var k := PrependEdit(l, child, node);
      && KeepsSiblings(l, k, (set x | x in s) + {child}) && child in k.next && child in k.prev
      && k.parent == l.parent[child := To(node)] && k.first == l.first[node := At(With(s, 0, child), 0)]
  {
    assert With(s, 0, child)[0] == child;
    if s != [] {
      assert s[0] in s && s[0] in l.prev;
    }
  }

  lemma PrependShows<N>(f: Forest<N>, l: Links<N>, child: N, node: N)
    requires Shows(f, l) && child in f.kids && child !in f.up && node in f.kids && !Above(f, child, node)
    ensures node in l.first && (l.first[node].To? ==> l.first[node].node in l.prev)
    ensures Shows(Attach(f, child, node, 0), PrependEdit(l, child, node))
  {
    hide WellFormed, Above, Attach, KeepsSiblings, Chained, With;
    var s := f.kids[node];
    assert Shown(f, l, node) && Shown(f, l, child);
    DetachedOutside(f, child, node);
    KidsDistinct(f, node);
    PrependChained(l, s, child, node);
    PrependKeeps(l, s, child, node);
    hide Shown, PrependEdit;
    WithFront(s, child);
    Inserted(f, l, PrependEdit(l, child, node), child, node, 0);
  }

  lemma WithFront<N>(s: seq<N>, x: N)
    ensures With(s, 0, x) == [x] + s
    ensures With(s, |s|, x) == s + [x]
  {
  }

  /** The links that `node`, at place `i` of the list of `p`, has. */
  ghost predicate Placed<N>(l: Links<N>, s: seq<N>, p: N, i: nat) {
    && i < |s| && DistinctList(s) && Chained(s, l) && p in l.first && l.first[p] == To(s[0])
    && s[i] in l.next && s[i] in l.prev && l.prev[s[i]].To? && s[0] in l.prev
    && (l.next[s[i]].To? ==> l.next[s[i]].node in l.prev) && l.prev[s[i]].node in l.next
  }

  lemma PlacedAt<N>(f: Forest<N>, l: Links<N>, p: N, i: nat)
    requires Shows(f, l) && p in f.kids && i < |f.kids[p]|
    ensures Placed(l, f.kids[p], p, i)
    ensures f.kids[p][i] in f.up && f.up[f.kids[p][i]] == p && f.kids[p][i] in f.kids && Shown(f, l, f.kids[p][i])
  {
    var s := f.kids[p];
    KidHasParent(f, p, s[i]);
    assert Shown(f, l, p);
    assert s[i] in f.up;
    assert s[0] in l.prev && s[|s| - 1] in l.next && s[|s| - 1] in l.prev;
    assert i + 1 < |s| ==> s[i + 1] in l.prev;
    assert i > 0 ==> s[i - 1] in l.next;
  }

  /** `insert_node_after` */
  function InsertAfterEdit<N>(l: Links<N>, child: N, node: N, p: N): Links<N>
    requires node in l.next && p in l.first && (l.next[node].Null? ==> l.first[p].To?)
  {
    var after := if l.next[node].To? then l.next[node].node else l.first[p].node;
    Links(l.parent[child := To(p)], l.first, l.prev[after := To(child)][child := To(node)],
          l.next[child := l.next[node]][node := To(child)])
  }

  lemma InsertAfterLink<N>(l: Links<N>, s: seq<N>, child: N, p: N, i: nat, j: nat)
    requires Placed(l, s, p, i) && child !in s && j < |With(s, i + 1, child)|
    ensures LinkOk(With(s, i + 1, child), InsertAfterEdit(l, child, s[i], p), j)
  {
    hide With, DistinctList, Chained;
    var t := With(s, i + 1, child);
    var m := if j <= i then j else j - 1;
    WithAt(s, i + 1, child, j);
    WithAt(s, i + 1, child, j + 1);
    WithAt(s, i + 1, child, j - 1);
    WithAt(s, i + 1, child, |s|);
    LinksAt(s, l, i);
    LinksAt(s, l, m);
    Apart(s, m, i);
    Apart(s, m, 0);
    if i + 1 < |s| {
      Apart(s, m, i + 1);
    }
    if j == i + 1 {
      assert t[j] == child;
    } else {
      assert t[j] == s[m];
    }
  }

  lemma InsertAfterChained<N>(l: Links<N>, s: seq<N>, child: N, p: N, i: nat)
    requires Placed(l, s, p, i) && child !in s
    ensures Chained(With(s, i + 1, child), InsertAfterEdit(l, child, s[i], p))
  {
    var k := InsertAfterEdit(l, child, s[i], p);
    var t := With(s, i + 1, child);
    WithAt(s, i + 1, child, 0);
    forall j | 0 <= j < |t| ensures LinkOk(t, k, j) {
      InsertAfterLink(l, s, child, p, i, j);
    }
    hide With, LinkOk, Chained;
    ChainedIf(t, k);
  }

  /** What the edit leaves alone. */
  lemma InsertAfterKeeps<N>(l: Links<N>, s: seq<N>, child: N, p: N, i: nat)
    requires Placed(l, s, p, i)
    ensures var k := InsertAfterEdit(l, child, s[i], p);
      && KeepsSiblings(l, k, (set x | x in s) + {child}) && child in k.next && child in k.prev
      && k.parent == l.parent[child := To(p)] && k.first == l.first[p := At(With(s, i + 1, child), 0)]
  {
    hide Chained;
    LinksAt(s, l, i);
    WithAt(s, i + 1, child, 0);
    assert s[0] in s && s[i] in s && (i + 1 < |s| ==> s[i + 1] in s);
    assert l.first[p := To(s[0])] == l.first;
  }

  lemma InsertAfterShows<N>(f: Forest<N>, l: Links<N>, child: N, p: N, i: nat)
    requires Shows(f, l) && child in f.kids && child !in f.up && p in f.kids && i < |f.kids[p]| && !Above(f, child, p)
    ensures Placed(l, f.kids[p], p, i)
    ensures Shows(Attach(f, child, p, i + 1), InsertAfterEdit(l, child, f.kids[p][i], p))
  {
    hide WellFormed, Above, Attach, Placed, KeepsSiblings, Chained, With, Shown;
    PlacedAt(f, l, p, i);
    DetachedOutside(f, child, p);
    InsertAfterChained(l, f.kids[p], child, p, i);
    InsertAfterKeeps(l, f.kids[p], child, p, i);
    PlacedLinks(l, f.kids[p], p, i);
    hide InsertAfterEdit;
    Inserted(f, l, InsertAfterEdit(l, child, f.kids[p][i], p), child, p, i + 1);
  }

  lemma PlacedLinks<N>(l: Links<N>, s: seq<N>, p: N, i: nat)
    requires Placed(l, s, p, i)
    ensures i < |s| && s[i] in l.next && s[i] in l.prev && p in l.first && l.first[p].To?
    ensures l.prev[s[i]].To? && l.prev[s[i]].node in l.next
  {
  }

  /** `insert_node_before` */
  function InsertBeforeEdit<N>(l: Links<N>, child: N, node: N, p: N): Links<N>
    requires node in l.prev && l.prev[node].To? && l.prev[node].node in l.next
  {
    var before := l.prev[node].node;
    Links(l.parent[child := To(p)],
          if l.next[before].To? then l.first else l.first[p := To(child)],
          l.prev[child := l.prev[node]][node := To(child)],
          (if l.next[before].To? then l.next[before := To(child)] else l.next)[child := To(node)])
  }

  lemma InsertBeforeLink<N>(l: Links<N>, s: seq<N>, child: N, p: N, i: nat, j: nat)
    requires Placed(l, s, p, i) && child !in s && j < |With(s, i, child)|
    ensures LinkOk(With(s, i, child), InsertBeforeEdit(l, child, s[i], p), j)
  {
    hide With, DistinctList, Chained;
    var t := With(s, i, child);
    var m := if j < i then j else if j == i then i else j - 1;
    WithAt(s, i, child, j);
    WithAt(s, i, child, j + 1);
    WithAt(s, i, child, j - 1);
    WithAt(s, i, child, |s|);
    LinksAt(s, l, i);
    LinksAt(s, l, if i == 0 then |s| - 1 else i - 1);
    LinksAt(s, l, m);
    Apart(s, m, i);
    Apart(s, m, if i == 0 then |s| - 1 else i - 1);
    if j == i {
      assert t[j] == child;
    } else {
      assert t[j] == s[m];
    }
  }

  lemma InsertBeforeChained<N>(l: Links<N>, s: seq<N>, child: N, p: N, i: nat)
    requires Placed(l, s, p, i) && child !in s
    ensures Chained(With(s, i, child), InsertBeforeEdit(l, child, s[i], p))
    ensures l.next[l.prev[s[i]].node].To? <==> i > 0
  {
    var k := InsertBeforeEdit(l, child, s[i], p);
    var t := With(s, i, child);
    LinksAt(s, l, i);
    LinksAt(s, l, if i == 0 then |s| - 1 else i - 1);
    forall j | 0 <= j < |t| ensures LinkOk(t, k, j) {
      InsertBeforeLink(l, s, child, p, i, j);
    }
    hide With, LinkOk, Chained;
    ChainedIf(t, k);
  }

  lemma InsertBeforeKeeps<N>(l: Links<N>, s: seq<N>, child: N, p: N, i: nat)
    requires Placed(l, s, p, i)
    ensures var k := InsertBeforeEdit(l, child, s[i], p);
      && KeepsSiblings(l, k, (set x | x in s) + {child}) && child in k.next && child in k.prev
      && k.parent == l.parent[child := To(p)] && k.first == l.first[p := At(With(s, i, child), 0)]
  {
    hide Chained;
    LinksAt(s, l, i);
    LinksAt(s, l, if i == 0 then |s| - 1 else i - 1);
    WithAt(s, i, child, 0);
    assert s[i] in s && (i > 0 ==> s[i - 1] in s);
    assert l.first[p := To(s[0])] == l.first;
  }

  lemma InsertBeforeShows<N>(f: Forest<N>, l: Links<N>, child: N, p: N, i: nat)
    requires Shows(f, l) && child in f.kids && child !in f.up && p in f.kids && i < |f.kids[p]| && !Above(f, child, p)
    ensures Placed(l, f.kids[p], p, i)
    ensures Shows(Attach(f, child, p, i), InsertBeforeEdit(l, child, f.kids[p][i], p))
  {
    hide WellFormed, Above, Attach, Placed, KeepsSiblings, Chained, With, Shown;
    PlacedAt(f, l, p, i);
    DetachedOutside(f, child, p);
    PlacedLinks(l, f.kids[p], p, i);
    InsertBeforeChained(l, f.kids[p], child, p, i);
    InsertBeforeKeeps(l, f.kids[p], child, p, i);
    hide InsertBeforeEdit;
    Inserted(f, l, InsertBeforeEdit(l, child, f.kids[p][i], p), child, p, i);
  }

  /** `remove_node` */
  function RemoveEdit<N>(l: Links<N>, node: N, p: N): Links<N>
    requires node in l.next && node in l.prev && l.prev[node].To? && p in l.first && l.first[p].To?
    requires l.prev[node].node in l.next
  {
    var after := if l.next[node].To? then l.next[node].node else l.first[p].node;
    var before := l.prev[node].node;
    Links(l.parent[node := Null],
          if l.next[before].To? then l.first else l.first[p := l.next[node]],
          l.prev[after := l.prev[node]][node := Null],
          (if l.next[before].To? then l.next[before := l.next[node]] else l.next)[node := Null])
  }

  lemma OutAt<N>(s: seq<N>, i: nat, j: int)
    requires i < |s|
    ensures var t := s[..i] + s[i + 1..]; |t| == |s| - 1 && At(t, j) == if j < i then At(s, j) else At(s, j + 1)
  {
  }

  lemma RemoveLink<N>(l: Links<N>, s: seq<N>, p: N, i: nat, j: nat)
    requires Placed(l, s, p, i) && j < |s| - 1
    ensures LinkOk(s[..i] + s[i + 1..], RemoveEdit(l, s[i], p), j)
  {
    hide DistinctList, Chained;
    var t := s[..i] + s[i + 1..];
    var m := if j < i then j else j + 1;
    OutAt(s, i, j);
    OutAt(s, i, j + 1);
    OutAt(s, i, j - 1);
    OutAt(s, i, |s| - 2);
    LinksAt(s, l, i);
    LinksAt(s, l, if i == 0 then |s| - 1 else i - 1);
    LinksAt(s, l, m);
    Apart(s, m, i);
    Apart(s, m, if i == 0 then |s| - 1 else i - 1);
    Apart(s, m, 0);
    if i + 1 < |s| {
      Apart(s, m, i + 1);
    }
    assert t[j] == s[m];
  }

  lemma RemoveChained<N>(l: Links<N>, s: seq<N>, p: N, i: nat)
    requires Placed(l, s, p, i)
    ensures Chained(s[..i] + s[i + 1..], RemoveEdit(l, s[i], p))
    ensures l.next[l.prev[s[i]].node].To? <==> i > 0
  {
    var k := RemoveEdit(l, s[i], p);
    var t := s[..i] + s[i + 1..];
    LinksAt(s, l, i);
    LinksAt(s, l, if i == 0 then |s| - 1 else i - 1);
    forall j | 0 <= j < |t| ensures LinkOk(t, k, j) {
      RemoveLink(l, s, p, i, j);
    }
    hide LinkOk, Chained;
    ChainedIf(t, k);
  }

  lemma RemoveKeeps<N>(l: Links<N>, s: seq<N>, p: N, i: nat)
    requires Placed(l, s, p, i)
    ensures var k := RemoveEdit(l, s[i], p);
      && KeepsSiblings(l, k, (set x | x in s) + {s[i]}) && s[i] in k.next && s[i] in k.prev && k.next[s[i]] == Null
        && k.prev[s[i]] == Null
      && k.parent == l.parent[s[i] := Null] && k.first == l.first[p := At(s[..i] + s[i + 1..], 0)]
  {
    hide Chained;
    LinksAt(s, l, i);
    LinksAt(s, l, if i == 0 then |s| - 1 else i - 1);
    OutAt(s, i, 0);
    assert s[i] in s && s[0] in s && (i > 0 ==> s[i - 1] in s) && (i + 1 < |s| ==> s[i + 1] in s);
    assert l.first[p := To(s[0])] == l.first;
  }

  /** Taking a node out edits the list of its parent and nothing else, and leaves the node without links. */
  lemma RemoveShows<N>(f: Forest<N>, l: Links<N>, p: N, i: nat)
    requires Shows(f, l) && p in f.kids && i < |f.kids[p]|
    ensures Placed(l, f.kids[p], p, i) && f.kids[p][i] in f.up && f.up[f.kids[p][i]] == p
    ensures Shows(Detach(f, f.kids[p][i]), RemoveEdit(l, f.kids[p][i], p))
  {
    hide WellFormed, Placed, KeepsSiblings, Chained, Shown;
    var s := f.kids[p];
    var c := s[i];
    PlacedAt(f, l, p, i);
    KidsDistinct(f, p);
    WithoutAt(s, i);
    PlacedLinks(l, s, p, i);
    RemoveChained(l, s, p, i);
    RemoveKeeps(l, s, p, i);
    DetachWellFormed(f, c);
    hide RemoveEdit;
    var g := Detach(f, c);
    assert g.kids[p] == s[..i] + s[i + 1..];
    assert g.up - {c} == f.up - {c};
    OneListEdited(f, g, l, RemoveEdit(l, c, p), p, c);
  }

  /** A node alone. */
  /** Every link that is not null leads to a node of the forest. */
  ghost predicate Closed<N>(l: Links<N>, s: set<N>) {
    forall n :: n in s ==>
      && n in l.parent && (l.parent[n].To? ==> l.parent[n].node in s)
      && n in l.first
        && (l.first[n].To? ==> l.first[n].node in s && l.first[n].node in l.prev && l.prev[l.first[n].node].To?)
      && n in l.prev && (l.prev[n].To? ==> l.prev[n].node in s)
      && n in l.next && (l.next[n].To? ==> l.next[n].node in s)
  }

  lemma ShowsClosed<N>(f: Forest<N>, l: Links<N>)
    requires Shows(f, l)
    ensures Closed(l, f.kids.Keys)
  {
    forall n | n in f.kids
      ensures n in l.parent && (l.parent[n].To? ==> l.parent[n].node in f.kids)
      ensures n in l.first
        && (l.first[n].To? ==> l.first[n].node in f.kids && l.first[n].node in l.prev && l.prev[l.first[n].node].To?)
      ensures n in l.prev && (l.prev[n].To? ==> l.prev[n].node in f.kids)
      ensures n in l.next && (l.next[n].To? ==> l.next[n].node in f.kids)
    {
      assert Shown(f, l, n);
      if f.kids[n] != [] {
        PlacedAt(f, l, n, 0);
      }
      if n in f.up {
        var p := f.up[n];
        var i :| 0 <= i < |f.kids[p]| && f.kids[p][i] == n;
        NeighboursInside(f, l, p, i);
      }
    }
  }

  lemma NeighboursInside<N>(f: Forest<N>, l: Links<N>, p: N, i: nat)
    requires Shows(f, l) && p in f.kids && i < |f.kids[p]|
    ensures var n := f.kids[p][i];
      && n in l.prev && (l.prev[n].To? ==> l.prev[n].node in f.kids)
      && n in l.next && (l.next[n].To? ==> l.next[n].node in f.kids)
  {
    var s := f.kids[p];
    assert Shown(f, l, p);
    LinksAt(s, l, i);
    hide Chained;
    KidHasParent(f, p, s[if i == 0 then |s| - 1 else i - 1]);
    if i + 1 < |s| {
      KidHasParent(f, p, s[i + 1]);
    }
  }

  // ----- what the operations need and reach -----

  /** Everything about an insertion at place `i` that does not depend on the order of its statements. */
  ghost predicate Target<N>(f: Forest<N>, l: Links<N>, g: Forest<N>, k: Links<N>, c: N, p: N, i: nat) {
    && WellFormed(f) && p in f.kids && i <= |f.kids[p]| && g == Attach(f, c, p, i)
    && g.kids.Keys == f.kids.Keys && g.kids == f.kids[p := With(f.kids[p], i, c)] && g.up == f.up[c := p]
    && Closed(l, f.kids.Keys) && Shows(g, k)
  }

  lemma TargetIf<N>(f: Forest<N>, l: Links<N>, k: Links<N>, c: N, p: N, i: nat)
    requires WellFormed(f) && p in f.kids && i <= |f.kids[p]| && Closed(l, f.kids.Keys) && Shows(Attach(f, c, p, i), k)
    ensures Target(f, l, Attach(f, c, p, i), k, c, p, i)
  {
    hide WellFormed, Closed, Shows, With;
    AttachFacts(f, c, p, i);
  }

  lemma WellFormedIfShown<N>(f: Forest<N>, l: Links<N>)
    requires Shows(f, l)
    ensures WellFormed(f)
  {
  }

  lemma AppendNeeds<N>(f: Forest<N>, l: Links<N>, node: N)
    requires Shows(f, l) && node in f.kids
    ensures node in l.first
  {
    assert Shown(f, l, node);
  }

  lemma AppendTarget<N>(f: Forest<N>, l: Links<N>, child: N, node: N)
    requires Shows(f, l) && child in f.kids && child !in f.up && node in f.kids && !Above(f, child, node)
    ensures node in l.first && (l.first[node].To? ==> l.first[node].node in l.prev && l.prev[l.first[node].node].To?)
    ensures WellFormed(f)
    ensures Target(f, l, Attach(f, child, node, |f.kids[node]|), AppendEdit(l, child, node), child, node,
                   |f.kids[node]|)
  {
    hide *;
    AppendShows(f, l, child, node);
    AppendNeeds(f, l, node);
    ShowsClosed(f, l);
    WellFormedIfShown(f, l);
    TargetIf(f, l, AppendEdit(l, child, node), child, node, |f.kids[node]|);
  }

  lemma PrependTarget<N>(f: Forest<N>, l: Links<N>, child: N, node: N)
    requires Shows(f, l) && child in f.kids && child !in f.up && node in f.kids && !Above(f, child, node)
    ensures node in l.first && (l.first[node].To? ==> l.first[node].node in l.prev)
    ensures WellFormed(f)
    ensures Target(f, l, Attach(f, child, node, 0), PrependEdit(l, child, node), child, node, 0)
  {
    hide *;
    PrependShows(f, l, child, node);
    ShowsClosed(f, l);
    WellFormedIfShown(f, l);
    TargetIf(f, l, PrependEdit(l, child, node), child, node, 0);
  }

  lemma TargetFacts<N>(f: Forest<N>, l: Links<N>, g: Forest<N>, k: Links<N>, c: N, p: N, i: nat)
    requires Target(f, l, g, k, c, p, i)
    ensures WellFormed(f) && p in f.kids && i <= |f.kids[p]| && g == Attach(f, c, p, i)
    ensures g.kids.Keys == f.kids.Keys && g.kids == f.kids[p := With(f.kids[p], i, c)] && g.up == f.up[c := p]
    ensures Closed(l, f.kids.Keys) && Shows(g, k)
  {
  }

  // ----- new nodes and dropped subtrees -----

  /** A new node without children joins as a root; its backward link is null or leads to itself. */
  lemma AddedShows<N>(f: Forest<N>, l: Links<N>, k: Links<N>, n: N, back: Ref<N>)
    requires Shows(f, l) && n !in f.kids && (back == Null || back == To(n))
    requires k.parent == l.parent[n := Null] && k.first == l.first[n := Null]
    requires k.prev == l.prev[n := back] && k.next == l.next[n := Null]
    ensures Shows(Added(f, n), k)
  {
    AddedWellFormed(f, n, n);
    var g := Added(f, n);
    forall m | m in g.kids ensures Shown(g, k, m) {
      if m != n {
        assert Shown(f, l, m);
        forall x | x in f.kids[m] ensures x != n {
          KidHasParent(f, m, x);
        }
        assert n !in f.kids[m];
        SameChain(f.kids[m], l, k, n, back);
      }
    }
  }

  lemma SameChain<N>(s: seq<N>, l: Links<N>, k: Links<N>, n: N, back: Ref<N>)
    requires Chained(s, l) && n !in s
    requires k.prev == l.prev[n := back] && k.next == l.next[n := Null]
    ensures Chained(s, k)
  {
    forall i | 0 <= i < |s| ensures LinkOk(s, k, i) {
      LinksAt(s, l, i);
      assert s[i] in s;
    }
    ChainedIf(s, k);
  }

  /** Without the subtree of a root the remaining links show the remaining forest. */
  lemma DroppedShows<N>(f: Forest<N>, l: Links<N>, k: Links<N>, c: N)
    requires Shows(f, l) && c in f.kids && c !in f.up
    requires var gone := Subtree(f, c);
      k.parent == l.parent - gone && k.first == l.first - gone && k.prev == l.prev - gone && k.next == l.next - gone
    ensures Shows(Dropped(f, Subtree(f, c)), k)
  {
    var gone := Subtree(f, c);
    DroppedWellFormed(f, c);
    var g := Dropped(f, gone);
    hide Above;
    forall m | m in g.kids ensures Shown(g, k, m) {
      assert Shown(f, l, m);
      forall x | x in f.kids[m] ensures x !in gone {
        KeptChild(f, c, m, x);
      }
      forall i | 0 <= i < |f.kids[m]| ensures LinkOk(f.kids[m], k, i) {
        LinksAt(f.kids[m], l, i);
        assert f.kids[m][i] in f.kids[m];
      }
      ChainedIf(f.kids[m], k);
    }
  }

  lemma KeptChild<N>(f: Forest<N>, c: N, m: N, x: N)
    requires WellFormed(f) && c !in f.up && m in f.kids && m !in Subtree(f, c) && x in f.kids[m]
    ensures x !in Subtree(f, c)
  {
    KidHasParent(f, m, x);
  }

  /** Everything about a removal that does not depend on the order of its statements. */
  lemma RemoveTarget<N>(f: Forest<N>, l: Links<N>, c: N)
    requires Shows(f, l) && c in f.up && WellFormed(f)
    ensures var p := f.up[c]; var s := f.kids[p];
      && p in f.kids && c in s && Placed(l, s, p, Index(s, c)) && Closed(l, f.kids.Keys)
      && Detach(f, c).kids.Keys == f.kids.Keys && c in f.kids
      && Shows(Detach(f, c), RemoveEdit(l, c, p))
      && (l.next[c] == Null && l.first[p] == To(c) ==> l.prev[c] == To(c))
      && l.parent[c] == To(p)
  {
    hide *;
    ParentFacts(f, c);
    var p := f.up[c];
    var s := f.kids[p];
    var i := Index(s, c);
    RemoveShows(f, l, p, i);
    ShowsClosed(f, l);
    PlacedAt(f, l, p, i);
    ParentShown(f, l, c);
    PlacedLinks(l, s, p, i);
    OnlyChild(l, s, p, i);
    DetachKeys(f, c);
  }

  lemma DetachKeys<N>(f: Forest<N>, c: N)
    requires c in f.up && f.up[c] in f.kids
    ensures Detach(f, c).kids.Keys == f.kids.Keys
  {
  }

  /** A node that is first and has no next sibling is alone. */
  lemma OnlyChild<N>(l: Links<N>, s: seq<N>, p: N, i: nat)
    requires Placed(l, s, p, i)
    ensures s[i] in l.next && p in l.first && s[i] in l.prev
    ensures l.next[s[i]] == Null && l.first[p] == To(s[i]) ==> l.prev[s[i]] == To(s[i])
  {
    hide Chained;
    LinksAt(s, l, i);
    Apart(s, i, 0);
  }

  lemma ParentShown<N>(f: Forest<N>, l: Links<N>, c: N)
    requires Shows(f, l) && c in f.up
    ensures c in f.kids && c in l.parent && l.parent[c] == To(f.up[c])
  {
    assert Shown(f, l, c);
  }

  lemma ParentFacts<N>(f: Forest<N>, c: N)
    requires WellFormed(f) && c in f.up
    ensures f.up[c] in f.kids && c in f.kids[f.up[c]] && c in f.kids
  {
  }

  lemma ParentLink<N>(f: Forest<N>, l: Links<N>, n: N, p: N)
    requires Shows(f, l) && n in f.kids && p in f.kids
    ensures n in l.parent && (l.parent[n] == To(p) <==> n in f.kids[p])
      && (n in f.kids[p] <==> n in f.up && f.up[n] == p)
  {
    assert Shown(f, l, n);
    hide Shown, Chained;
    if n in f.kids[p] {
      KidHasParent(f, p, n);
    }
    if n in f.up {
      ParentFacts(f, n);
    }
  }

  lemma InsertAfterAt<N>(f: Forest<N>, l: Links<N>, child: N, node: N)
    requires Shows(f, l) && WellFormed(f) && child in f.kids && child !in f.up && node in f.up
      && !Above(f, child, f.up[node])
    ensures f.up[node] in f.kids && node in f.kids[f.up[node]] && node in f.kids && node in l.parent
      && l.parent[node] == To(f.up[node])
    ensures node in l.next && f.up[node] in l.first && l.first[f.up[node]].To?
    ensures var p := f.up[node]; var i := Behind(f.kids[p], node);
      Target(f, l, Attach(f, child, p, i), InsertAfterEdit(l, child, node, p), child, p, i)
  {
    hide *;
    ParentFacts(f, node);
    ParentShown(f, l, node);
    var p := f.up[node];
    var i := Behind(f.kids[p], node);
    PlacedAt(f, l, p, i - 1);
    InsertBehindShows(f, l, child, p, i, node);
    PlacedLinks(l, f.kids[p], p, i - 1);
    ShowsClosed(f, l);
    TargetIf(f, l, InsertAfterEdit(l, child, node, p), child, p, i);
  }

  lemma InsertBehindShows<N>(f: Forest<N>, l: Links<N>, child: N, p: N, i: nat, node: N)
    requires Shows(f, l) && child in f.kids && child !in f.up && p in f.kids && !Above(f, child, p)
    requires 0 < i <= |f.kids[p]| && f.kids[p][i - 1] == node && Placed(l, f.kids[p], p, i - 1)
    ensures Shows(Attach(f, child, p, i), InsertAfterEdit(l, child, node, p))
  {
    hide *;
    PlacedLinks(l, f.kids[p], p, i - 1);
    InsertAfterShows(f, l, child, p, i - 1);
    assert (i - 1) + 1 == i;
  }

  lemma InsertBeforeAt<N>(f: Forest<N>, l: Links<N>, child: N, node: N)
    requires Shows(f, l) && WellFormed(f) && child in f.kids && child !in f.up && node in f.up
      && !Above(f, child, f.up[node])
    ensures f.up[node] in f.kids && node in f.kids[f.up[node]] && node in f.kids && node in l.parent
      && l.parent[node] == To(f.up[node])
    ensures node in l.prev && l.prev[node].To? && l.prev[node].node in l.next
    ensures var p := f.up[node]; var i := Index(f.kids[p], node);
      Target(f, l, Attach(f, child, p, i), InsertBeforeEdit(l, child, node, p), child, p, i)
  {
    hide *;
    ParentFacts(f, node);
    ParentShown(f, l, node);
    var p := f.up[node];
    var i := Index(f.kids[p], node);
    InsertBeforeShows(f, l, child, p, i);
    PlacedLinks(l, f.kids[p], p, i);
    ShowsClosed(f, l);
    TargetIf(f, l, InsertBeforeEdit(l, child, node, p), child, p, i);
  }
}
