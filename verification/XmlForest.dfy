/** The shape of a DOM as a value: the child list of every node, the parent of every node that has one, and a rank that
    grows from parent to child and so excludes cycles. */
module XmlForest {

  datatype Forest<N(==)> = Forest(kids: map<N, seq<N>>, up: map<N, N>, rank: map<N, nat>)

  predicate DistinctList<N(==)>(s: seq<N>) {
    forall i, j :: 0 <= i < j < |s| ==> s[i] != s[j]
  }

  /** The place of `x` in the list. */
  function Index<N(==)>(s: seq<N>, x: N): (i: nat)
    requires x in s
    ensures i < |s| && s[i] == x
  {
    if s[0] == x then 0 else 1 + Index(s[1..], x)
  }

  /** The place behind `x`. */
  function Behind<N(==)>(s: seq<N>, x: N): (i: nat)
    requires x in s
    ensures 0 < i <= |s| && s[i - 1] == x
  {
    Index(s, x) + 1
  }

  /** Child lists and parents agree. */
  ghost predicate Agree<N>(kids: map<N, seq<N>>, up: map<N, N>) {
    && up.Keys <= kids.Keys
    && (forall n :: n in kids ==> DistinctList(kids[n]))
    && (forall n, c :: n in kids && c in kids[n] ==> c in up && up[c] == n)
    && (forall c :: c in up ==> up[c] in kids && c in kids[up[c]])
  }

  /** Ranks grow from parent to child. */
  ghost predicate Ranked<N>(up: map<N, N>, rank: map<N, nat>) {
    up.Keys <= rank.Keys && up.Values <= rank.Keys && forall c :: c in up ==> rank[up[c]] < rank[c]
  }

  ghost predicate WellFormed<N>(f: Forest<N>) {
    Agree(f.kids, f.up) && f.rank.Keys == f.kids.Keys && Ranked(f.up, f.rank)
  }

  /** `a` is `n` or one of its ancestors. */
  ghost predicate Above<N>(f: Forest<N>, a: N, n: N)
    requires WellFormed(f) && n in f.kids
    decreases f.rank[n]
  {
    a == n || (n in f.up && Above(f, a, f.up[n]))
  }

  /** No parent chain is a cycle: whatever is above a node and different from it is not below it. */
  lemma {:induction false} AboveRanks<N>(f: Forest<N>, a: N, n: N)
    requires WellFormed(f) && n in f.kids && Above(f, a, n)
    ensures a in f.kids && (a == n || f.rank[a] < f.rank[n])
    decreases f.rank[n]
  {
    if a != n {
      AboveRanks(f, a, f.up[n]);
    }
  }

  lemma NoCycles<N>(f: Forest<N>, a: N, b: N)
    requires WellFormed(f) && a in f.kids && b in f.kids && Above(f, a, b) && Above(f, b, a)
    ensures a == b
  {
    AboveRanks(f, a, b);
    AboveRanks(f, b, a);
  }

  // ----- taking a node out -----

  function Without<N(==)>(s: seq<N>, x: N): seq<N> {
    if s == [] then [] else if s[0] == x then s[1..] else [s[0]] + Without(s[1..], x)
  }

  lemma {:induction false} WithoutAt<N>(s: seq<N>, i: nat)
    requires DistinctList(s) && i < |s|
    ensures Without(s, s[i]) == s[..i] + s[i + 1..]
    decreases |s|
  {
    if i > 0 {
      assert s[1..][i - 1] == s[i];
      WithoutAt(s[1..], i - 1);
      assert s[1..][..i - 1] == s[1..i] && s[1..][i..] == s[i + 1..];
      assert s[..i] == [s[0]] + s[1..i];
    }
  }

  function Detach<N(==)>(f: Forest<N>, c: N): Forest<N>
    requires c in f.up && f.up[c] in f.kids
  {
    f.(kids := f.kids[f.up[c] := Without(f.kids[f.up[c]], c)], up := f.up - {c})
  }

  lemma {:induction false} WithoutMembers<N>(s: seq<N>, x: N)
    requires DistinctList(s)
    ensures DistinctList(Without(s, x))
    ensures forall y :: y in Without(s, x) ==> y in s && y != x
    ensures forall y :: y in s && y != x ==> y in Without(s, x)
  {
    if x in s {
      var i :| 0 <= i < |s| && s[i] == x;
      WithoutAt(s, i);
      var t := s[..i] + s[i + 1..];
      forall y ensures y in t <==> y in s && y != x {
        if y in s && y != x {
          var j :| 0 <= j < |s| && s[j] == y;
          assert t[if j < i then j else j - 1] == y;
        }
      }
    } else {
      WithoutNone(s, x);
    }
  }

  lemma {:induction false} WithoutNone<N>(s: seq<N>, x: N)
    requires x !in s
    ensures Without(s, x) == s
    decreases |s|
  {
    if s != [] {
      WithoutNone(s[1..], x);
    }
  }

  lemma DetachWellFormed<N>(f: Forest<N>, c: N)
    requires WellFormed(f) && c in f.up
    ensures WellFormed(Detach(f, c)) && c !in Detach(f, c).up && c in Detach(f, c).kids
  {
    WithoutMembers(f.kids[f.up[c]], c);
  }

  /** Taking a node out changes nothing above the nodes outside its subtree. */
  lemma {:induction false} DetachKeepsAbove<N>(f: Forest<N>, c: N, a: N, n: N)
    requires WellFormed(f) && c in f.up && n in f.kids && !Above(f, c, n)
    ensures WellFormed(Detach(f, c)) && (Above(Detach(f, c), a, n) <==> Above(f, a, n))
    decreases f.rank[n]
  {
    DetachWellFormed(f, c);
    if n in f.up {
      DetachKeepsAbove(f, c, a, f.up[n]);
    }
  }

  // ----- putting a node in -----

  /** The list with `x` at place `i`. */
  function With<N>(s: seq<N>, i: nat, x: N): seq<N>
    requires i <= |s|
  {
    s[..i] + [x] + s[i..]
  }

  /** The nodes at and below `c`. */
  ghost function Subtree<N>(f: Forest<N>, c: N): set<N>
    requires WellFormed(f)
  {
    set n | n in f.kids && Above(f, c, n)
  }

  ghost function Attach<N>(f: Forest<N>, c: N, p: N, i: nat): Forest<N>
    requires WellFormed(f) && p in f.kids && i <= |f.kids[p]|
  {
    Forest(f.kids[p := With(f.kids[p], i, c)], f.up[c := p],
           map n | n in f.rank :: f.rank[n] + if n in Subtree(f, c) then f.rank[p] + 1 else 0)
  }

  lemma AttachFacts<N>(f: Forest<N>, c: N, p: N, i: nat)
    requires WellFormed(f) && p in f.kids && i <= |f.kids[p]|
    ensures var g := Attach(f, c, p, i);
      g.kids.Keys == f.kids.Keys && g.kids == f.kids[p := With(f.kids[p], i, c)] && g.up == f.up[c := p]
  {
  }

  lemma WithMembers<N>(s: seq<N>, i: nat, x: N)
    requires DistinctList(s) && i <= |s| && x !in s
    ensures DistinctList(With(s, i, x)) && x in With(s, i, x)
    ensures forall y :: y in With(s, i, x) ==> y in s || y == x
    ensures forall y :: y in s ==> y in With(s, i, x)
  {
    var t := With(s, i, x);
    forall y ensures y in t <==> y in s || y == x {
      if y in s {
        var j :| 0 <= j < |s| && s[j] == y;
        assert t[if j < i then j else j + 1] == y;
      }
      assert t[i] == x;
    }
  }

  /** A detached node may be put below any node that is not below it. */
  lemma AttachWellFormed<N>(f: Forest<N>, c: N, p: N, i: nat)
    requires WellFormed(f) && c in f.kids && c !in f.up && p in f.kids && i <= |f.kids[p]| && !Above(f, c, p)
    ensures WellFormed(Attach(f, c, p, i))
  {
    AttachAgrees(f.kids, f.up, c, p, i);
    AttachRanked(f, c, p, i);
  }

  lemma AttachAgrees<N>(kids: map<N, seq<N>>, up: map<N, N>, c: N, p: N, i: nat)
    requires Agree(kids, up) && c in kids && c !in up && p in kids && i <= |kids[p]|
    ensures Agree(kids[p := With(kids[p], i, c)], up[c := p])
  {
    WithMembers(kids[p], i, c);
  }

  lemma AttachRanked<N>(f: Forest<N>, c: N, p: N, i: nat)
    requires WellFormed(f) && c in f.kids && c !in f.up && p in f.kids && i <= |f.kids[p]| && !Above(f, c, p)
    ensures var g := Attach(f, c, p, i); g.rank.Keys == f.kids.Keys && Ranked(g.up, g.rank)
  {
    hide Agree;
    var g := Attach(f, c, p, i);
    forall x | x in g.up ensures g.up[x] in g.rank && g.rank[g.up[x]] < g.rank[x] {
      if x == c {
        assert p !in Subtree(f, c);
      } else {
        assert f.up[x] in f.up.Values;
        assert Above(f, c, x) <==> Above(f, c, f.up[x]);
      }
    }
  }

  // ----- a new node, and a subtree dropped -----

  function NoNodes<N>(): Forest<N> {
    Forest(map[], map[], map[])
  }

  function Added<N>(f: Forest<N>, n: N): Forest<N> {
    Forest(f.kids[n := []], f.up, f.rank[n := 0])
  }

  lemma {:induction false} AddedWellFormed<N>(f: Forest<N>, n: N, m: N)
    requires WellFormed(f) && n !in f.kids
    ensures WellFormed(Added(f, n))
    ensures m in f.kids ==> !Above(Added(f, n), n, m)
    decreases if m in f.kids then f.rank[m] else 0
  {
    if m in f.up {
      AddedWellFormed(f, n, f.up[m]);
    }
  }

  function Dropped<N>(f: Forest<N>, gone: set<N>): Forest<N> {
    Forest(f.kids - gone, f.up - gone, f.rank - gone)
  }

  /** Dropping the subtree of a detached node leaves a forest. */
  lemma DroppedWellFormed<N>(f: Forest<N>, c: N)
    requires WellFormed(f) && c in f.kids && c !in f.up
    ensures WellFormed(Dropped(f, Subtree(f, c)))
  {
    var gone := Subtree(f, c);
    forall x | x in f.up ensures x in gone <==> f.up[x] in gone {
      assert Above(f, c, x) <==> x == c || Above(f, c, f.up[x]);
    }
  }

  /** A new node put below `p`. */
  lemma NewChild<N>(f: Forest<N>, n: N, p: N, i: nat)
    requires WellFormed(f) && n !in f.kids && p in f.kids && i <= |f.kids[p]|
    ensures var g := Added(f, n);
      && WellFormed(g) && p in g.kids && g.kids[p] == f.kids[p] && n in g.kids && n !in g.up && !Above(g, n, p)
      && g.kids.Keys == f.kids.Keys + {n} && g.up == f.up
      && WellFormed(Attach(g, n, p, i))
      && Attach(g, n, p, i).kids == f.kids[n := []][p := With(f.kids[p], i, n)] && Attach(g, n, p, i).up == f.up[n := p]
  {
    AddedWellFormed(f, n, p);
    AttachWellFormed(Added(f, n), n, p, i);
  }

  /** A node moved below `p`, which is not below it. */
  lemma MovedNode<N>(f: Forest<N>, c: N, p: N, i: nat)
    requires WellFormed(f) && c in f.up && p in f.kids && !Above(f, c, p)
    requires i <= |Detach(f, c).kids[p]|
    ensures var g := Detach(f, c);
      && WellFormed(g) && p in g.kids && c in g.kids && c !in g.up && !Above(g, c, p) && WellFormed(Attach(g, c, p, i))
      && Attach(g, c, p, i).kids == g.kids[p := With(g.kids[p], i, c)] && Attach(g, c, p, i).up == f.up[c := p]
  {
    DetachWellFormed(f, c);
    DetachKeepsAbove(f, c, c, p);
    AttachWellFormed(Detach(f, c), c, p, i);
    assert (f.up - {c})[c := p] == f.up[c := p];
  }
}
