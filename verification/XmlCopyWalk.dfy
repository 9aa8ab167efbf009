/** The walk of `node_copy_tree` as a value: which source nodes have copies, how far each child list has been copied,
    and the path from the root of the source to the current node. */
module XmlCopyWalk {
  import opened XmlForest

  /** The child lists before the destination `dn` was linked, the nodes at and below the root `sn` of the source, and
      where the destination was linked: at place `i` below `p`. */
  datatype Plan<N(==)> = Plan(src: map<N, seq<N>>, inside: set<N>, sn: N, dn: N, p: N, i: nat)

  ghost predicate Sensible<N>(w: Plan<N>) {
    && w.p in w.src && w.i <= |w.src[w.p]| && w.dn !in w.src
    && w.sn in w.inside && w.inside <= w.src.Keys
    && (forall n :: n in w.src ==> DistinctList(w.src[n]))
    && (forall n, c :: n in w.src && c in w.src[n] ==> c in w.src && c != w.dn)
    && (forall n, c :: n in w.inside && c in w.src[n] ==> c in w.inside && c != w.sn)
    && (forall n, m, c :: n in w.src && m in w.src && c in w.src[n] && c in w.src[m] ==> n == m)
  }

  /** The child list the walk sees. */
  function Seen<N>(w: Plan<N>, a: N): seq<N>
    requires a in w.src && w.p in w.src && w.i <= |w.src[w.p]|
  {
    if a == w.p then With(w.src[a], w.i, w.dn) else w.src[a]
  }

  /** Source children before place `q` of the list that is seen */
  function Before<N>(w: Plan<N>, a: N, q: nat): nat {
    if a == w.p && w.i < q then q - 1 else q
  }

  lemma SeenAt<N>(w: Plan<N>, a: N, q: nat)
    requires Sensible(w) && a in w.src && q < |Seen(w, a)|
    ensures Seen(w, a)[q] == w.dn <==> a == w.p && q == w.i
    ensures Seen(w, a)[q] == w.dn ==> Before(w, a, q + 1) == Before(w, a, q)
    ensures Seen(w, a)[q] != w.dn ==>
              && Before(w, a, q) < |w.src[a]| && Seen(w, a)[q] == w.src[a][Before(w, a, q)]
              && Before(w, a, q + 1) == Before(w, a, q) + 1
  {}

  lemma SeenLength<N>(w: Plan<N>, a: N)
    requires Sensible(w) && a in w.src
    ensures Before(w, a, |Seen(w, a)|) == |w.src[a]|
    ensures Seen(w, a) == [] ==> w.src[a] == []
  {}

  /** The copies so far: `image` of every visited node, and how many children of it have copies */
  datatype Copies<N(==)> = Copies(image: map<N, N>, count: map<N, nat>)

  function Images<N>(image: map<N, N>, s: seq<N>): (r: seq<N>)
    requires forall x :: x in s ==> x in image
    ensures |r| == |s| && forall j :: 0 <= j < |s| ==> r[j] == image[s[j]]
  {
    if s == [] then [] else Images(image, s[..|s| - 1]) + [image[s[|s| - 1]]]
  }

  ghost predicate Injective<N>(image: map<N, N>) {
    forall s, t :: s in image && t in image && image[s] == image[t] ==> s == t
  }

  /** Of the children of `s` exactly the first `count[s]` have copies. */
  ghost predicate Visited<N>(w: Plan<N>, c: Copies<N>, s: N)
    requires s in w.src && s in c.count
  {
    c.count[s] <= |w.src[s]| && forall j :: 0 <= j < |w.src[s]| ==> (w.src[s][j] in c.image <==> j < c.count[s])
  }

  /** The children of the copy of `s` are the copies of its first children. */
  ghost predicate CopiedChildren<N>(w: Plan<N>, c: Copies<N>, kids: map<N, seq<N>>, s: N)
    requires s in w.src && s in c.count && s in c.image
  {
    && Visited(w, c, s) && c.image[s] in kids
    && kids[c.image[s]] == Images(c.image, w.src[s][..c.count[s]])
  }

  /** The copies are a copy of the part of the source that has been visited. */
  ghost predicate Partial<N>(w: Plan<N>, c: Copies<N>, kids: map<N, seq<N>>) {
    && c.image.Keys == c.count.Keys <= w.inside <= w.src.Keys
    && w.sn in c.image && c.image[w.sn] == w.dn
    && Injective(c.image)
    && (forall s :: s in c.image ==> c.image[s] !in w.src)
    && (forall s :: s in c.image ==> CopiedChildren(w, c, kids, s))
    && (forall s, x :: s in w.inside && s !in c.image && x in w.src[s] ==> x !in c.image)
  }

  /** The nodes from the root of the source to the parent of the current node, and the place of the next one below
      each. */
  datatype Trail<N> = Trail(path: seq<N>, place: seq<nat>)

  function Last<N>(t: Trail<N>): N
    requires |t.path| > 0
  {
    t.path[|t.path| - 1]
  }

  ghost predicate Step<N>(w: Plan<N>, c: Copies<N>, t: Trail<N>, k: nat)
    requires Sensible(w) && k + 1 < |t.path| == |t.place| && t.path[k] in w.src && t.path[k] in c.count
  {
    && t.place[k] < |Seen(w, t.path[k])| && Seen(w, t.path[k])[t.place[k]] == t.path[k + 1]
    && c.count[t.path[k]] == Before(w, t.path[k], t.place[k] + 1)
  }

  /** The current place, in the list of the last node of the path; `lead` is 1 when the node there has been dealt
      with. */
  ghost predicate Here<N>(w: Plan<N>, c: Copies<N>, t: Trail<N>, lead: nat)
    requires Sensible(w) && c.count.Keys <= w.src.Keys && 0 < |t.path| == |t.place| && Last(t) in c.count
  {
    var q := t.place[|t.place| - 1];
    q < |Seen(w, Last(t))| && c.count[Last(t)] == Before(w, Last(t), q + lead)
  }

  /** Everything visited that is not on the path is complete. */
  ghost predicate OnTrail<N>(w: Plan<N>, c: Copies<N>, t: Trail<N>, lead: nat) {
    && Sensible(w) && c.count.Keys <= w.inside
    && 0 < |t.path| == |t.place| && t.path[0] == w.sn && DistinctList(t.path)
    && (forall k :: 0 <= k < |t.path| ==> t.path[k] in c.count)
    && (forall k :: 0 <= k < |t.path| - 1 ==> Step(w, c, t, k))
    && Here(w, c, t, lead)
    && (forall s :: s in c.count && s !in t.path ==> c.count[s] == |w.src[s]|)
  }

  /** The current node */
  ghost function Current<N>(w: Plan<N>, c: Copies<N>, t: Trail<N>, lead: nat): N
    requires OnTrail(w, c, t, lead)
  {
    Seen(w, Last(t))[t.place[|t.place| - 1]]
  }

  // ----- the start -----

  function Started<N>(w: Plan<N>): Copies<N> {
    Copies(map[w.sn := w.dn], map[w.sn := 0])
  }

  lemma StartPartial<N>(w: Plan<N>, kids: map<N, seq<N>>)
    requires Sensible(w) && w.dn in kids && kids[w.dn] == []
    ensures Partial(w, Started(w), kids)
    ensures Seen(w, w.sn) != [] ==> OnTrail(w, Started(w), Trail([w.sn], [0]), 0)
  {}

  // ----- a copy -----

  /** One more child of `a`, `s`, has the copy `n`. */
  function Extended<N>(c: Copies<N>, a: N, s: N, n: N): Copies<N>
    requires a in c.count
  {
    Copies(c.image[s := n], c.count[s := 0][a := c.count[a] + 1])
  }

  /** The current node is the next child of the last node of the path, and has no copy yet. */
  lemma CurrentIsNext<N>(w: Plan<N>, c: Copies<N>, kids: map<N, seq<N>>, t: Trail<N>)
    requires Partial(w, c, kids) && OnTrail(w, c, t, 0) && Current(w, c, t, 0) != w.dn
    ensures var s, a := Current(w, c, t, 0), Last(t);
            && a in c.count && a in w.src && c.count[a] < |w.src[a]| && s == w.src[a][c.count[a]]
            && s in w.inside && s in w.src && s !in c.image && s != a
            && Before(w, a, t.place[|t.place| - 1] + 1) == c.count[a] + 1
  {
    var a := Last(t);
    SeenAt(w, a, t.place[|t.place| - 1]);
    assert CopiedChildren(w, c, kids, a);
  }

  lemma ImagesExtended<N>(image: map<N, N>, s: N, n: N, xs: seq<N>)
    requires s !in image && forall x :: x in xs ==> x in image
    ensures Images(image[s := n], xs) == Images(image, xs)
  {}

  lemma OneParent<N>(w: Plan<N>, a: N, x: N, s: N)
    requires Sensible(w) && a in w.src && x in w.src && x != a && s in w.src[a]
    ensures s !in w.src[x]
  {}

  lemma PartialAt<N>(w: Plan<N>, c: Copies<N>, kids: map<N, seq<N>>, x: N)
    requires Partial(w, c, kids) && x in c.image
    ensures x in w.inside && x in w.src && x in c.count && c.image[x] !in w.src && CopiedChildren(w, c, kids, x)
  {
    hide CopiedChildren, Injective;
  }

  lemma ImagesDiffer<N>(w: Plan<N>, c: Copies<N>, kids: map<N, seq<N>>, a: N, x: N)
    requires Partial(w, c, kids) && x in c.image && a in c.image && x != a
    ensures c.image[x] != c.image[a]
  {
    hide CopiedChildren;
  }

  lemma Taken<N>(w: Plan<N>, c: Copies<N>, x: N)
    requires x in w.src && x in c.count && Visited(w, c, x)
    ensures forall y :: y in w.src[x][..c.count[x]] ==> y in c.image
  {}

  /** The copies below other nodes are as they were. */
  lemma OtherChildren<N>(w: Plan<N>, c: Copies<N>, kids: map<N, seq<N>>, a: N, s: N, n: N, x: N)
    requires x in w.src && x in c.count && x in c.image && CopiedChildren(w, c, kids, x)
    requires a in c.count && a in c.image && c.image[a] in kids && s !in c.image && s !in w.src[x] && n !in kids
    requires x != a && c.image[x] != c.image[a] && x != s
    ensures CopiedChildren(w, Extended(c, a, s, n), kids[n := []][c.image[a] := kids[c.image[a]] + [n]], x)
  {
    hide Images;
    Taken(w, c, x);
    ImagesExtended(c.image, s, n, w.src[x][..c.count[x]]);
  }

  /** The copy of the parent gets the new copy behind the others. */
  lemma ParentsChildren<N>(w: Plan<N>, c: Copies<N>, kids: map<N, seq<N>>, a: N, s: N, n: N)
    requires a in w.src && a in c.count && a in c.image && CopiedChildren(w, c, kids, a) && DistinctList(w.src[a])
    requires c.count[a] < |w.src[a]| && s == w.src[a][c.count[a]] && s !in c.image && n !in kids && s != a
    ensures CopiedChildren(w, Extended(c, a, s, n), kids[n := []][c.image[a] := kids[c.image[a]] + [n]], a)
  {
    hide Images;
    var k := c.count[a];
    Taken(w, c, a);
    ImagesExtended(c.image, s, n, w.src[a][..k]);
    var d := Extended(c, a, s, n);
    assert w.src[a][..k + 1] == w.src[a][..k] + [s];
    ImagesAppended(d.image, w.src[a][..k], s);
    assert Visited(w, d, a);
  }

  lemma ImagesAppended<N>(image: map<N, N>, xs: seq<N>, s: N)
    requires s in image && forall x :: x in xs ==> x in image
    ensures Images(image, xs + [s]) == Images(image, xs) + [image[s]]
  {
    assert (xs + [s])[..|xs|] == xs;
  }

  /** The new copy has no children yet. */
  lemma NoChildrenYet<N>(w: Plan<N>, c: Copies<N>, kids: map<N, seq<N>>, a: N, s: N, n: N)
    requires s in w.src && a in c.count && a in c.image && c.image[a] in kids && n !in kids && s != a
    requires s !in w.src[s] && forall x :: x in w.src[s] ==> x !in c.image
    ensures CopiedChildren(w, Extended(c, a, s, n), kids[n := []][c.image[a] := kids[c.image[a]] + [n]], s)
  {}

  lemma PartialIf<N>(w: Plan<N>, c: Copies<N>, kids: map<N, seq<N>>)
    requires c.image.Keys == c.count.Keys <= w.inside <= w.src.Keys
    requires w.sn in c.image && c.image[w.sn] == w.dn && Injective(c.image)
    requires forall s :: s in c.image ==> c.image[s] !in w.src
    requires forall s :: s in c.image ==> CopiedChildren(w, c, kids, s)
    requires forall s, x :: s in w.inside && s !in c.image && x in w.src[s] ==> x !in c.image
    ensures Partial(w, c, kids)
  {}

  lemma ExtendedInjective<N>(w: Plan<N>, c: Copies<N>, kids: map<N, seq<N>>, s: N, n: N)
    requires Partial(w, c, kids) && s !in c.image && n !in kids
    ensures Injective(c.image[s := n])
  {
    forall t | t in c.image ensures c.image[t] != n {
      PartialAt(w, c, kids, t);
    }
  }

  /** Nodes without copies have no children with copies. */
  lemma ExtendedOutside<N>(w: Plan<N>, c: Copies<N>, kids: map<N, seq<N>>, a: N, s: N, n: N)
    requires Sensible(w) && Partial(w, c, kids) && a in c.image && s in w.src[a] && s !in c.image
    ensures forall u, x ::
      u in w.inside && u !in Extended(c, a, s, n).image && x in w.src[u] ==> x !in Extended(c, a, s, n).image
  {
    hide CopiedChildren, Injective;
  }

  lemma NotOwnChild<N>(w: Plan<N>, a: N, s: N)
    requires Sensible(w) && a in w.src && s in w.src && s in w.src[a] && s != a
    ensures s !in w.src[s]
  {}

  /** What the copy of the current node makes of the copies so far */
  lemma ExtendedPartial<N>(w: Plan<N>, c: Copies<N>, kids: map<N, seq<N>>, a: N, s: N, n: N)
    requires Sensible(w) && Partial(w, c, kids) && a in c.image && a in c.count && a in w.src
    requires c.count[a] < |w.src[a]| && s == w.src[a][c.count[a]] && s in w.inside && s !in c.image && s != a
    requires n !in kids && n !in w.src
    ensures c.image[a] in kids
    ensures Partial(w, Extended(c, a, s, n), kids[n := []][c.image[a] := kids[c.image[a]] + [n]])
  {
    hide Partial, CopiedChildren, Injective, Sensible;
    PartialKeys(w, c, kids);
    PartialAt(w, c, kids, a);
    ImageInKids(w, c, kids, a);
    SensibleAt(w, a);
    var d, after := Extended(c, a, s, n), kids[n := []][c.image[a] := kids[c.image[a]] + [n]];
    forall x | x in d.image
      ensures CopiedChildren(w, d, after, x)
      ensures d.image[x] !in w.src
    {
      if x == s {
        NotOwnChild(w, a, s);
        Unvisited(w, c, kids, s);
        NoChildrenYet(w, c, kids, a, s, n);
      } else if x == a {
        ParentsChildren(w, c, kids, a, s, n);
      } else {
        PartialAt(w, c, kids, x);
        OneParent(w, a, x, s);
        ImagesDiffer(w, c, kids, a, x);
        OtherChildren(w, c, kids, a, s, n, x);
      }
    }
    ExtendedInjective(w, c, kids, s, n);
    ExtendedOutside(w, c, kids, a, s, n);
    PartialIf(w, d, after);
  }

  lemma PartialKeys<N>(w: Plan<N>, c: Copies<N>, kids: map<N, seq<N>>)
    requires Partial(w, c, kids)
    ensures c.image.Keys == c.count.Keys <= w.inside <= w.src.Keys && w.sn in c.image && c.image[w.sn] == w.dn
  {
    hide CopiedChildren, Injective;
  }

  lemma ImageInKids<N>(w: Plan<N>, c: Copies<N>, kids: map<N, seq<N>>, a: N)
    requires a in w.src && a in c.count && a in c.image && CopiedChildren(w, c, kids, a)
    ensures c.image[a] in kids
  {}

  lemma SensibleAt<N>(w: Plan<N>, a: N)
    requires Sensible(w) && a in w.src
    ensures DistinctList(w.src[a]) && w.inside <= w.src.Keys
  {}

  lemma Unvisited<N>(w: Plan<N>, c: Copies<N>, kids: map<N, seq<N>>, s: N)
    requires Partial(w, c, kids) && s in w.inside && s !in c.image
    ensures s in w.src && forall x :: x in w.src[s] ==> x !in c.image
  {
    hide CopiedChildren, Injective;
  }

  // ----- the path -----

  /** Down to the first child of the node that has just been copied */
  function Down<N>(t: Trail<N>, s: N): Trail<N> {
    Trail(t.path + [s], t.place + [0])
  }

  /** On to the next sibling */
  function On<N>(t: Trail<N>): Trail<N>
    requires 0 < |t.path| == |t.place|
  {
    t.(place := t.place[|t.place| - 1 := t.place[|t.place| - 1] + 1])
  }

  /** Back to the parent */
  function Up<N>(t: Trail<N>): Trail<N>
    requires 0 < |t.path| == |t.place|
  {
    Trail(t.path[..|t.path| - 1], t.place[..|t.place| - 1])
  }

  lemma OnTrailIf<N>(w: Plan<N>, c: Copies<N>, t: Trail<N>, lead: nat)
    requires Sensible(w) && c.count.Keys <= w.inside
    requires 0 < |t.path| == |t.place| && t.path[0] == w.sn && DistinctList(t.path)
    requires forall k :: 0 <= k < |t.path| ==> t.path[k] in c.count
    requires forall k :: 0 <= k < |t.path| - 1 ==> Step(w, c, t, k)
    requires Here(w, c, t, lead)
    requires forall s :: s in c.count && s !in t.path ==> c.count[s] == |w.src[s]|
    ensures OnTrail(w, c, t, lead)
  {}

  lemma StepsStay<N>(w: Plan<N>, c: Copies<N>, t: Trail<N>, lead: nat, d: Copies<N>, k: nat)
    requires OnTrail(w, c, t, lead) && k < |t.path| - 1 && t.path[k] in d.count
      && d.count[t.path[k]] == c.count[t.path[k]]
    ensures t.path[k] in w.src && Step(w, d, t, k)
  {
    assert Step(w, c, t, k);
  }

  lemma TrailParts<N>(w: Plan<N>, c: Copies<N>, t: Trail<N>, lead: nat)
    requires OnTrail(w, c, t, lead)
    ensures Sensible(w) && c.count.Keys <= w.inside <= w.src.Keys
    ensures 0 < |t.path| == |t.place| && t.path[0] == w.sn && DistinctList(t.path)
    ensures forall k :: 0 <= k < |t.path| ==> t.path[k] in c.count
    ensures Last(t) == t.path[|t.path| - 1] && Last(t) in c.count && Here(w, c, t, lead)
    ensures forall s :: s in c.count && s !in t.path ==> c.count[s] == |w.src[s]|
  {
    hide Sensible, Step, Here;
    InsideSource(w);
  }

  lemma InsideSource<N>(w: Plan<N>)
    requires Sensible(w)
    ensures w.inside <= w.src.Keys
  {}

  lemma ExtendedCount<N>(c: Copies<N>, a: N, s: N, n: N)
    requires a in c.count && s != a
    ensures Extended(c, a, s, n).count.Keys == c.count.Keys + {s}
    ensures Extended(c, a, s, n).count[s] == 0 && Extended(c, a, s, n).count[a] == c.count[a] + 1
    ensures forall x :: x in c.count && x != a && x != s ==> Extended(c, a, s, n).count[x] == c.count[x]
  {}

  lemma StepsExtended<N>(w: Plan<N>, c: Copies<N>, t: Trail<N>, s: N, n: N)
    requires OnTrail(w, c, t, 0) && s !in c.count && s in w.src
    ensures Last(t) in c.count
    ensures forall k :: 0 <= k < |t.path| - 1 ==> t.path[k] in w.src && Step(w, Extended(c, Last(t), s, n), t, k)
  {
    hide Sensible, Step, Here, Extended;
    ExtendedCount(c, Last(t), s, n);
    forall k: nat | k < |t.path| - 1 ensures t.path[k] in w.src && Step(w, Extended(c, Last(t), s, n), t, k) {
      assert t.path[k] != Last(t);
      StepsStay(w, c, t, 0, Extended(c, Last(t), s, n), k);
    }
  }

  /** The current node has been copied and has no children to go down to. */
  lemma CopiedLeaf<N>(w: Plan<N>, c: Copies<N>, kids: map<N, seq<N>>, t: Trail<N>, n: N)
    requires Partial(w, c, kids) && OnTrail(w, c, t, 0) && Current(w, c, t, 0) != w.dn
    requires var s := Current(w, c, t, 0); s in w.src && Seen(w, s) == []
    ensures Last(t) in c.count && OnTrail(w, Extended(c, Last(t), Current(w, c, t, 0), n), t, 1)
  {
    hide *;
    CurrentIsNext(w, c, kids, t);
    PartialKeys(w, c, kids);
    TrailParts(w, c, t, 0);
    var s, a := Current(w, c, t, 0), Last(t);
    SeenLength(w, s);
    ExtendedCount(c, a, s, n);
    StepsExtended(w, c, t, s, n);
    HereMoves(w, c, t, Extended(c, a, s, n));
    EmptySource(w, s);
    OnTrailIf(w, Extended(c, a, s, n), t, 1);
  }

  lemma EmptySource<N>(w: Plan<N>, s: N)
    requires Sensible(w) && s in w.src && Seen(w, s) == []
    ensures |w.src[s]| == 0
  {
    SeenLength(w, s);
  }

  lemma HereMoves<N>(w: Plan<N>, c: Copies<N>, t: Trail<N>, d: Copies<N>)
    requires Sensible(w) && c.count.Keys <= w.src.Keys && 0 < |t.path| == |t.place| && Last(t) in c.count
    requires Here(w, c, t, 0) && d.count.Keys <= w.src.Keys && Last(t) in d.count
    requires d.count[Last(t)] == c.count[Last(t)] + 1 == Before(w, Last(t), t.place[|t.place| - 1] + 1)
    ensures Here(w, d, t, 1)
  {
    hide Sensible;
  }

  /** The current node has been copied and its first child is next. */
  lemma CopiedInner<N>(w: Plan<N>, c: Copies<N>, kids: map<N, seq<N>>, t: Trail<N>, n: N)
    requires Partial(w, c, kids) && OnTrail(w, c, t, 0) && Current(w, c, t, 0) != w.dn
    requires var s := Current(w, c, t, 0); s in w.src && Seen(w, s) != []
    ensures Last(t) in c.count
      && OnTrail(w, Extended(c, Last(t), Current(w, c, t, 0), n), Down(t, Current(w, c, t, 0)), 0)
  {
    hide *;
    CurrentIsNext(w, c, kids, t);
    PartialKeys(w, c, kids);
    TrailParts(w, c, t, 0);
    var s, a := Current(w, c, t, 0), Last(t);
    var d, u := Extended(c, a, s, n), Down(t, s);
    ExtendedCount(c, a, s, n);
    StepsExtended(w, c, t, s, n);
    HereMoves(w, c, t, d);
    CurrentIs(w, c, t, 0);
    DownParts(t, s);
    forall k: nat | k < |u.path| - 1 ensures u.path[k] in w.src && u.path[k] in d.count && Step(w, d, u, k) {
      if k < |t.path| - 1 {
        DownStep(w, d, t, s, k);
      } else {
        LastStep(w, d, t, s);
      }
    }
    HereBelow(w, d, u);
    DownDistinct(t, s);
    OnTrailIf(w, d, u, 0);
  }

  lemma CurrentIs<N>(w: Plan<N>, c: Copies<N>, t: Trail<N>, lead: nat)
    requires OnTrail(w, c, t, lead)
    ensures Last(t) in w.src && t.place[|t.place| - 1] < |Seen(w, Last(t))|
    ensures Current(w, c, t, lead) == Seen(w, Last(t))[t.place[|t.place| - 1]]
  {}

  lemma DownParts<N>(t: Trail<N>, s: N)
    requires 0 < |t.path| == |t.place|
    ensures var u := Down(t, s);
            && |u.path| == |u.place| == |t.path| + 1 && u.path[0] == t.path[0] && Last(u) == s
              && u.place[|t.place|] == 0
            && (forall k :: 0 <= k < |t.path| ==> u.path[k] == t.path[k] && u.place[k] == t.place[k])
            && u.path[|t.path|] == s && (forall x :: x !in u.path ==> x !in t.path && x != s)
  {
  }

  lemma DownDistinct<N>(t: Trail<N>, s: N)
    requires DistinctList(t.path) && s !in t.path
    ensures DistinctList(Down(t, s).path)
  {}

  lemma DownStep<N>(w: Plan<N>, d: Copies<N>, t: Trail<N>, s: N, k: nat)
    requires Sensible(w) && k + 1 < |t.path| == |t.place| && t.path[k] in w.src && t.path[k] in d.count
      && Step(w, d, t, k)
    ensures Down(t, s).path[k] == t.path[k] && Step(w, d, Down(t, s), k)
  {
    hide Sensible;
  }

  lemma LastStep<N>(w: Plan<N>, d: Copies<N>, t: Trail<N>, s: N)
    requires Sensible(w) && 0 < |t.path| == |t.place| && Last(t) in w.src && d.count.Keys <= w.src.Keys
      && Last(t) in d.count
    requires Here(w, d, t, 1) && s == Seen(w, Last(t))[t.place[|t.place| - 1]]
    ensures Down(t, s).path[|t.path| - 1] == Last(t) && Step(w, d, Down(t, s), |t.path| - 1)
  {
    hide Sensible;
  }

  lemma HereBelow<N>(w: Plan<N>, d: Copies<N>, u: Trail<N>)
    requires Sensible(w) && d.count.Keys <= w.src.Keys && 0 < |u.path| == |u.place| && Last(u) in d.count
    requires u.place[|u.place| - 1] == 0 && d.count[Last(u)] == 0 && Seen(w, Last(u)) != []
    ensures Here(w, d, u, 0)
  {
    hide Sensible;
  }

  /** The destination itself is passed over. */
  lemma Passed<N>(w: Plan<N>, c: Copies<N>, t: Trail<N>)
    requires OnTrail(w, c, t, 0) && Current(w, c, t, 0) == w.dn
    ensures OnTrail(w, c, t, 1)
  {
    SeenAt(w, Last(t), t.place[|t.place| - 1]);
  }

  lemma NextSibling<N>(w: Plan<N>, c: Copies<N>, t: Trail<N>)
    requires OnTrail(w, c, t, 1) && t.place[|t.place| - 1] + 1 < |Seen(w, Last(t))|
    ensures OnTrail(w, c, On(t), 0)
  {
    forall k: nat | k < |t.path| - 1 ensures Step(w, c, On(t), k) {
      assert Step(w, c, t, k);
    }
  }

  /** The last child has been dealt with: the parent is complete, and the node before it on the path is the current
      one. */
  lemma BackToParent<N>(w: Plan<N>, c: Copies<N>, t: Trail<N>)
    requires OnTrail(w, c, t, 1) && t.place[|t.place| - 1] + 1 == |Seen(w, Last(t))|
    ensures c.count[Last(t)] == |w.src[Last(t)]|
    ensures |t.path| > 1 ==> OnTrail(w, c, Up(t), 1) && Current(w, c, Up(t), 1) == Last(t)
    ensures |t.path| == 1 ==> Last(t) == w.sn && forall s :: s in c.count ==> c.count[s] == |w.src[s]|
  {
    hide *;
    TrailParts(w, c, t, 1);
    LastIsComplete(w, c, t);
    if |t.path| > 1 {
      UpParts(t);
      StepsUp(w, c, t);
      OnTrailIf(w, c, Up(t), 1);
      CurrentIs(w, c, Up(t), 1);
    } else {
      OnlyOne(t);
    }
  }

  lemma LastIsComplete<N>(w: Plan<N>, c: Copies<N>, t: Trail<N>)
    requires OnTrail(w, c, t, 1) && t.place[|t.place| - 1] + 1 == |Seen(w, Last(t))|
    ensures c.count[Last(t)] == |w.src[Last(t)]|
  {
    SeenLength(w, Last(t));
  }

  lemma OnlyOne<N>(t: Trail<N>)
    requires |t.path| == 1
    ensures forall s :: s in t.path ==> s == Last(t)
  {}

  lemma UpParts<N>(t: Trail<N>)
    requires 1 < |t.path| == |t.place| && DistinctList(t.path)
    ensures var u := Up(t);
            && |u.path| == |u.place| == |t.path| - 1 && u.path[0] == t.path[0] && DistinctList(u.path)
            && (forall k :: 0 <= k < |u.path| ==> u.path[k] == t.path[k] && u.place[k] == t.place[k])
            && (forall x :: x !in u.path ==> x !in t.path || x == Last(t))
  {
    var u := Up(t);
    forall x | x in t.path ensures x in u.path || x == Last(t) {
      var k :| 0 <= k < |t.path| && t.path[k] == x;
      if k < |u.path| {
        assert u.path[k] == x;
      }
    }
  }

  lemma StepsUp<N>(w: Plan<N>, c: Copies<N>, t: Trail<N>)
    requires OnTrail(w, c, t, 1) && 1 < |t.path|
    ensures var u := Up(t);
            && Last(u) in c.count && Here(w, c, u, 1) && Last(u) in w.src
            && Seen(w, Last(u))[u.place[|u.place| - 1]] == Last(t)
            && forall k :: 0 <= k < |u.path| - 1 ==> u.path[k] in w.src && Step(w, c, u, k)
  {
    hide *;
    TrailParts(w, c, t, 1);
    UpParts(t);
    var u, m := Up(t), |t.path| - 2;
    StepAt(w, c, t, m);
    UpLast(w, c, t);
    forall k: nat | k < m ensures u.path[k] in w.src && Step(w, c, u, k) {
      StepAt(w, c, t, k);
      UpStep(w, c, t, k);
    }
  }

  lemma StepAt<N>(w: Plan<N>, c: Copies<N>, t: Trail<N>, k: nat)
    requires OnTrail(w, c, t, 1) && k + 1 < |t.path|
    ensures Sensible(w) && |t.path| == |t.place| && t.path[k] in w.src && t.path[k] in c.count && Step(w, c, t, k)
  {
    hide Step;
  }

  lemma UpStep<N>(w: Plan<N>, c: Copies<N>, t: Trail<N>, k: nat)
    requires Sensible(w) && k + 2 < |t.path| == |t.place| && t.path[k] in w.src && t.path[k] in c.count
      && Step(w, c, t, k)
    ensures Up(t).path[k] == t.path[k] && Step(w, c, Up(t), k)
  {
    hide Sensible, Seen, Before;
  }

  lemma UpLast<N>(w: Plan<N>, c: Copies<N>, t: Trail<N>)
    requires Sensible(w) && c.count.Keys <= w.src.Keys && 1 < |t.path| == |t.place|
    requires var m := |t.path| - 2; t.path[m] in w.src && t.path[m] in c.count && Step(w, c, t, m)
    ensures var u := Up(t);
            && Last(u) == t.path[|t.path| - 2] && Last(u) in c.count && Here(w, c, u, 1) && Last(u) in w.src
            && Seen(w, Last(u))[u.place[|u.place| - 1]] == Last(t)
  {
    hide Sensible, Seen, Before;
  }

  // ----- the whole copy -----

  /** Below `dn` in `g` stands a copy of what stood at and below `sn` in `f`, node for node and in the same order. */
  ghost predicate Isomorphic<N>(f: Forest<N>, sn: N, g: Forest<N>, dn: N, image: map<N, N>) {
    && WellFormed(f) && WellFormed(g) && sn in f.kids
    && image.Keys == Subtree(f, sn) && sn in image && image[sn] == dn && Injective(image)
    && (forall s :: s in image ==> Mirrored(f, g, image, s))
  }

  ghost predicate Mirrored<N>(f: Forest<N>, g: Forest<N>, image: map<N, N>, s: N)
    requires s in image
  {
    && s in f.kids && image[s] in g.kids && (forall x :: x in f.kids[s] ==> x in image)
    && g.kids[image[s]] == Images(image, f.kids[s])
  }

  /** The plan of a copy below `dn`, which is linked at place `i` below `p` */
  ghost function PlanOf<N>(f: Forest<N>, sn: N, dn: N, p: N, i: nat): Plan<N>
    requires WellFormed(f)
  {
    Plan(f.kids, Subtree(f, sn), sn, dn, p, i)
  }

  lemma ChildBelow<N>(f: Forest<N>, sn: N, n: N, c: N)
    requires WellFormed(f) && sn in f.kids && n in Subtree(f, sn) && c in f.kids[n]
    ensures c in Subtree(f, sn) && c != sn
  {
    assert f.up[c] == n;
    assert Above(f, sn, c);
    AboveRanks(f, sn, n);
  }

  lemma PlanSensible<N>(f: Forest<N>, sn: N, dn: N, p: N, i: nat)
    requires WellFormed(f) && sn in f.kids && dn !in f.kids && p in f.kids && i <= |f.kids[p]|
    ensures Sensible(PlanOf(f, sn, dn, p, i))
  {
    assert sn in Subtree(f, sn) && Subtree(f, sn) <= f.kids.Keys;
    forall n, c | n in Subtree(f, sn) && c in f.kids[n] ensures c in Subtree(f, sn) && c != sn {
      ChildBelow(f, sn, n, c);
    }
    hide Above, Ranked, Subtree;
    forall n, c | n in f.kids && c in f.kids[n] ensures c in f.kids && c != dn {
      assert c in f.up;
    }
    forall n, m, c | n in f.kids && m in f.kids && c in f.kids[n] && c in f.kids[m] ensures n == m {
      assert f.up[c] == n && f.up[c] == m;
    }
  }

  lemma {:induction false} AllVisited<N>(f: Forest<N>, w: Plan<N>, c: Copies<N>, kids: map<N, seq<N>>, s: N)
    requires WellFormed(f) && w.src == f.kids && w.inside == Subtree(f, w.sn) && Partial(w, c, kids)
    requires forall x :: x in c.count ==> c.count[x] == |w.src[x]|
    requires s in w.inside
    ensures s in c.image
    decreases f.rank[s]
  {
    if s != w.sn {
      var a := f.up[s];
      assert Above(f, w.sn, a);
      AllVisited(f, w, c, kids, a);
      PartialAt(w, c, kids, a);
      var j :| 0 <= j < |w.src[a]| && w.src[a][j] == s;
    } else {
      PartialKeys(w, c, kids);
    }
  }

  /** When every visited node is complete, the whole source has been copied. */
  lemma CopyIsWhole<N>(f: Forest<N>, w: Plan<N>, c: Copies<N>, g: Forest<N>)
    requires WellFormed(f) && WellFormed(g) && w.src == f.kids && w.inside == Subtree(f, w.sn) && w.sn in f.kids
    requires Partial(w, c, g.kids) && forall x :: x in c.count ==> c.count[x] == |w.src[x]|
    ensures Isomorphic(f, w.sn, g, w.dn, c.image)
  {
    hide WellFormed, CopiedChildren, Subtree;
    PartialKeys(w, c, g.kids);
    forall s | s in w.inside ensures s in c.image {
      AllVisited(f, w, c, g.kids, s);
    }
    forall s | s in c.image ensures Mirrored(f, g, c.image, s) {
      PartialAt(w, c, g.kids, s);
      CompleteChildren(f, w, c, g, s);
    }
  }

  lemma CompleteChildren<N>(f: Forest<N>, w: Plan<N>, c: Copies<N>, g: Forest<N>, s: N)
    requires w.src == f.kids && s in w.src && s in c.count && s in c.image && CopiedChildren(w, c, g.kids, s)
    requires c.count[s] == |w.src[s]|
    ensures Mirrored(f, g, c.image, s)
  {
    assert w.src[s][..|w.src[s]|] == w.src[s];
  }

  /** A tree as a value, cut off at a height */
  datatype Tree<C> = Tree(content: C, children: seq<Tree<C>>)

  ghost function Cut<N, C>(f: Forest<N>, content: map<N, C>, n: N, height: nat): Tree<C>
    requires WellFormed(f) && f.kids.Keys <= content.Keys && n in f.kids
    decreases height
  {
    Tree(content[n],
         if height == 0 then []
           else seq(|f.kids[n]|, j requires 0 <= j < |f.kids[n]| => Cut(f, content, f.kids[n][j], height - 1)))
  }

  lemma MirroredAt<N>(f: Forest<N>, sn: N, g: Forest<N>, dn: N, image: map<N, N>, s: N)
    requires Isomorphic(f, sn, g, dn, image) && s in image
    ensures WellFormed(f) && WellFormed(g) && s in f.kids && image[s] in g.kids && |g.kids[image[s]]| == |f.kids[s]|
    ensures forall j :: 0 <= j < |f.kids[s]| ==> f.kids[s][j] in image && g.kids[image[s]][j] == image[f.kids[s][j]]
  {
    hide WellFormed, Subtree, Injective;
    assert Mirrored(f, g, image, s);
  }

  lemma CutIf<N, C>(f: Forest<N>, content: map<N, C>, n: N, g: Forest<N>, copied: map<N, C>, m: N, height: nat)
    requires WellFormed(f) && f.kids.Keys <= content.Keys && n in f.kids
    requires WellFormed(g) && g.kids.Keys <= copied.Keys && m in g.kids
    requires content[n] == copied[m] && |f.kids[n]| == |g.kids[m]|
    requires forall j :: 0 <= j < |f.kids[n]| ==> f.kids[n][j] in f.kids && g.kids[m][j] in g.kids
    requires 0 < height ==> forall j :: 0 <= j < |f.kids[n]| ==>
               Cut(f, content, f.kids[n][j], height - 1) == Cut(g, copied, g.kids[m][j], height - 1)
    ensures Cut(f, content, n, height) == Cut(g, copied, m, height)
  {
    hide WellFormed;
  }

  /** The tree below the copy is the tree below the original: they agree however high they are looked at. */
  lemma {:induction false} IsomorphicTrees<N, C>(f: Forest<N>, sn: N, g: Forest<N>, dn: N, image: map<N, N>,
                                                  content: map<N, C>, copied: map<N, C>, s: N, height: nat)
    requires Isomorphic(f, sn, g, dn, image) && f.kids.Keys <= content.Keys && g.kids.Keys <= copied.Keys && s in image
    requires forall x :: x in image && x in f.kids && image[x] in g.kids ==> content[x] == copied[image[x]]
    ensures WellFormed(f) && WellFormed(g) && s in f.kids && image[s] in g.kids
    ensures Cut(f, content, s, height) == Cut(g, copied, image[s], height)
    decreases height
  {
    hide *;
    MirroredAt(f, sn, g, dn, image, s);
    forall j | 0 <= j < |f.kids[s]|
      ensures f.kids[s][j] in f.kids && g.kids[image[s]][j] in g.kids
      ensures 0 < height
        ==> Cut(f, content, f.kids[s][j], height - 1) == Cut(g, copied, g.kids[image[s]][j], height - 1)
    {
      MirroredAt(f, sn, g, dn, image, f.kids[s][j]);
      if height > 0 {
        IsomorphicTrees(f, sn, g, dn, image, content, copied, f.kids[s][j], height - 1);
      }
    }
    CutIf(f, content, s, g, copied, image[s], height);
  }
}
