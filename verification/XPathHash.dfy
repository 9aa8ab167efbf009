/** Removal of duplicates in node sets: an open hash table probed at triangular distances, and `unique` for sets in
    which equal nodes stand side by side. */
module XPathHash {
  import opened Arithmetic
  import opened XPathSort

  // ----- triangular probing -----

  function Triangle(p: nat): nat {
    p * (p + 1) / 2
  }

  lemma TriangleStep(p: nat)
    ensures Triangle(p + 1) == Triangle(p) + p + 1
  {
    assert (p + 1) * (p + 2) == p * (p + 1) + 2 * (p + 1);
  }

  lemma TriangleDouble(p: nat)
    ensures 2 * Triangle(p) == p * (p + 1)
    decreases p
  {
    if p > 0 {
      TriangleDouble(p - 1);
      TriangleStep(p - 1);
      assert p * (p + 1) == (p - 1) * p + 2 * p;
    }
  }

  lemma EvenFactor(a: nat, b: nat)
    requires a % 2 == 1 && a * b % 2 == 0
    ensures b % 2 == 0
  {
    var h := a / 2;
    assert a * b == 2 * (h * b) + b;
  }

  /** An odd factor can be dropped from a multiple of a power of two. */
  lemma {:induction false} OddFactor(a: nat, b: nat, n: nat, q: nat) returns (r: nat)
    requires a % 2 == 1 && a * b == Pow2(n) * q
    ensures b == Pow2(n) * r
    decreases n
  {
    if n == 0 {
      r := b;
    } else {
      var m := Pow2(n - 1);
      assert a * b == 2 * (m * q) by {
        Associates(2, m, q);
      }
      EvenFactor(a, b);
      var c := b / 2;
      assert a * b == 2 * (a * c) by {
        Associates(a, 2, c);
        Associates(2, a, c);
      }
      r := OddFactor(a, c, n - 1, q);
      Associates(2, m, r);
    }
  }

  lemma FactorDifference(i: nat, j: nat)
    requires i < j
    ensures (j - i) * (j + i + 1) == 2 * (Triangle(j) - Triangle(i))
  {
    TriangleDouble(i);
    TriangleDouble(j);
    assert (j - i) * (j + i + 1) == j * (j + 1) - i * (i + 1);
  }

  /** If the difference is a multiple of the power, the product of its factors is a multiple of twice the power. */
  lemma FactorsOfMultiple(i: nat, j: nat, k: nat, q: nat)
    requires i < j && Triangle(j) - Triangle(i) == Pow2(k) * q
    ensures (j - i) * (j + i + 1) == Pow2(k + 1) * q && (j + i + 1) * (j - i) == Pow2(k + 1) * q
  {
    hide Triangle;
    FactorDifference(i, j);
    Associates(2, Pow2(k), q);
    Associates(j - i, j + i + 1, 1);
  }

  /** The triangular numbers below a power of two are distinct modulo that power. */
  lemma TrianglesDiffer(i: nat, j: nat, k: nat, q: nat)
    requires i < j < Pow2(k)
    ensures Triangle(j) - Triangle(i) != Pow2(k) * q
  {
    hide Triangle;
    if Triangle(j) - Triangle(i) == Pow2(k) * q {
      FactorsOfMultiple(i, j, k, q);
      var d, s, m := j - i, j + i + 1, Pow2(k + 1);
      if d % 2 == 1 {
        var r := OddFactor(d, s, k + 1, q);
        TooSmall(s, m, r);
      } else {
        var r := OddFactor(s, d, k + 1, q);
        TooSmall(d, m, r);
      }
    }
  }

  // ----- the probe sequence -----

  /** The slot of the `p`-th probe. */
  function Probe(start: nat, p: nat, size: nat): (b: nat)
    requires size > 0
    ensures b < size
  {
    (start + Triangle(p)) % size
  }

  /** The step of the loop: one further at each probe. */
  lemma ProbeStep(start: nat, p: nat, size: nat)
    requires size > 0
    ensures Probe(start, p + 1, size) == (Probe(start, p, size) + p + 1) % size
  {
    TriangleStep(p);
    ModAdd(start + Triangle(p), p + 1, size);
  }

  lemma SameRemainder(x: nat, y: nat, n: nat)
    requires n > 0 && x <= y && x % n == y % n
    ensures y - x == n * (y / n - x / n) && x / n <= y / n
  {
    assert x == n * (x / n) + x % n && y == n * (y / n) + y % n;
    if y / n < x / n {
      Spread(n, y / n, x / n);
    }
    assert n * (y / n) - n * (x / n) == n * (y / n - x / n);
  }

  lemma TriangleGrows(i: nat, j: nat)
    requires i < j
    ensures Triangle(i) < Triangle(j)
    decreases j
  {
    hide Triangle;
    TriangleStep(j - 1);
    if i < j - 1 {
      TriangleGrows(i, j - 1);
    }
  }

  lemma ProbesDiffer(start: nat, i: nat, j: nat, k: nat)
    requires i < j < Pow2(k)
    ensures Probe(start, i, Pow2(k)) != Probe(start, j, Pow2(k))
  {
    hide Triangle, Pow2;
    var n, x, y := Pow2(k), start + Triangle(i), start + Triangle(j);
    TriangleGrows(i, j);
    if x % n == y % n {
      SameRemainder(x, y, n);
      TrianglesDiffer(i, j, k, y / n - x / n);
    }
  }

  /** The slots of the first `n` probes. */
  function Probed(start: nat, n: nat, size: nat): set<nat>
    requires size > 0
  {
    if n == 0 then {} else Probed(start, n - 1, size) + {Probe(start, n - 1, size)}
  }

  lemma {:induction false} InProbed(start: nat, n: nat, size: nat, b: nat)
    requires size > 0
    ensures b in Probed(start, n, size) <==> exists p :: 0 <= p < n && Probe(start, p, size) == b
    decreases n
  {
    if n > 0 {
      InProbed(start, n - 1, size, b);
      if b == Probe(start, n - 1, size) {
        assert Probe(start, n - 1, size) == b;
      }
    }
  }

  lemma {:induction false} ProbedCount(start: nat, n: nat, k: nat)
    requires n <= Pow2(k)
    ensures |Probed(start, n, Pow2(k))| == n
    decreases n
  {
    if n > 0 {
      ProbedCount(start, n - 1, k);
      InProbed(start, n - 1, Pow2(k), Probe(start, n - 1, Pow2(k)));
      forall p | 0 <= p < n - 1 ensures Probe(start, p, Pow2(k)) != Probe(start, n - 1, Pow2(k)) {
        ProbesDiffer(start, p, n - 1, k);
      }
    }
  }

  function Below(n: nat): (s: set<nat>)
    ensures |s| == n && forall b: nat :: b in s <==> b < n
  {
    if n == 0 then {} else Below(n - 1) + {n - 1}
  }

  lemma SubsetOfSameSize<T>(a: set<T>, b: set<T>)
    requires a <= b && |a| == |b|
    ensures a == b
  {
    assert b == a + (b - a);
    assert |b| == |a| + |b - a|;
  }

  /** The probe sequence visits every slot of a table whose size is a power of two, and none twice. */
  lemma EverySlotProbed(start: nat, b: nat, k: nat)
    requires b < Pow2(k)
    ensures exists p :: 0 <= p < Pow2(k) && Probe(start, p, Pow2(k)) == b
  {
    var n := Pow2(k);
    ProbedCount(start, n, k);
    forall c | c in Probed(start, n, n) ensures c in Below(n) {
      InProbed(start, n, n, c);
    }
    SubsetOfSameSize(Probed(start, n, n), Below(n));
    InProbed(start, n, n, b);
  }

  // ----- the table -----

  datatype Slot<K> = Empty | Full(key: K)

  /** The finalizer of MurmurHash3 on the low 32 bits of a pointer. */
  function Murmur(h: bv32): bv32 {
    var a := (h ^ (h >> 16)) * 0x85ebca6b;
    var b := (a ^ (a >> 13)) * 0xc2b2ae35;
    b ^ (b >> 16)
  }

  /** Where the probes for a key start in a table of `size` slots, a power of two. */
  function Start(pointer: bv32, size: nat): (b: nat)
    requires size > 0
    ensures b < size
  {
    Murmur(pointer) as nat % size
  }

  /** Probe `p` finds the key; the probes before it meet other keys. */
  ghost predicate Found<K(!new)>(t: seq<Slot<K>>, start: nat, key: K, p: nat) {
    && p < |t| && t[Probe(start, p, |t|)] == Full(key)
    && Passed(t, start, key, p)
  }

  ghost predicate Passed<K(!new)>(t: seq<Slot<K>>, start: nat, key: K, p: nat) {
    |t| > 0 && forall q :: 0 <= q < p ==> t[Probe(start, q, |t|)].Full? && t[Probe(start, q, |t|)].key != key
  }

  /** Every stored key is on its own probe path. */
  ghost predicate Table<K(!new)>(t: seq<Slot<K>>, pointer: K -> bv32) {
    && (exists k :: |t| == Pow2(k))
    && forall b :: 0 <= b < |t| && t[b].Full? ==>
      exists p ::
        Found(t, Start(pointer(t[b].key), |t|), t[b].key, p) && Probe(Start(pointer(t[b].key), |t|), p, |t|) == b
  }

  ghost function Keys<K(!new)>(t: seq<Slot<K>>): set<K> {
    set b | 0 <= b < |t| && t[b].Full? :: t[b].key
  }

  lemma FoundOnce<K(!new)>(t: seq<Slot<K>>, start: nat, key: K, p: nat, q: nat)
    requires Found(t, start, key, p) && Found(t, start, key, q)
    ensures p == q
  {
    hide Probe;
    var c, d := t[Probe(start, p, |t|)].key, t[Probe(start, q, |t|)].key;
  }

  /** No key is stored twice. */
  lemma StoredOnce<K(!new)>(t: seq<Slot<K>>, pointer: K -> bv32, a: nat, b: nat)
    requires Table(t, pointer) && a < |t| && b < |t| && t[a].Full? && t[b] == t[a]
    ensures a == b
  {
    hide Probe, Start, Found;
    var start := Start(pointer(t[a].key), |t|);
    var p :| Found(t, start, t[a].key, p) && Probe(start, p, |t|) == a;
    var q :| Found(t, start, t[b].key, q) && Probe(start, q, |t|) == b;
    FoundOnce(t, start, t[a].key, p, q);
  }

  /** A key that the probes have not met before an empty slot is not in the table. */
  lemma NotStored<K(!new)>(t: seq<Slot<K>>, pointer: K -> bv32, key: K, p: nat)
    requires Table(t, pointer) && p < |t| && Passed(t, Start(pointer(key), |t|), key, p)
    requires t[Probe(Start(pointer(key), |t|), p, |t|)].Empty?
    ensures key !in Keys(t)
  {
    hide Probe, Start;
    forall b | 0 <= b < |t| && t[b].Full? ensures t[b].key != key {
      var start := Start(pointer(t[b].key), |t|);
      var q :| Found(t, start, t[b].key, q) && Probe(start, q, |t|) == b;
      var c, d := t[Probe(start, q, |t|)], t[Probe(start, p, |t|)];
    }
  }

  lemma Inserted<K(!new)>(t: seq<Slot<K>>, pointer: K -> bv32, key: K, p: nat)
    requires Table(t, pointer) && p < |t| && Passed(t, Start(pointer(key), |t|), key, p)
    requires t[Probe(Start(pointer(key), |t|), p, |t|)].Empty?
    ensures var u := t[Probe(Start(pointer(key), |t|), p, |t|) := Full(key)];
      Table(u, pointer) && Keys(u) == Keys(t) + {key}
  {
    var c := Probe(Start(pointer(key), |t|), p, |t|);
    var u := t[c := Full(key)];
    forall b | 0 <= b < |u| && u[b].Full? ensures
      exists q ::
        Found(u, Start(pointer(u[b].key), |u|), u[b].key, q) && Probe(Start(pointer(u[b].key), |u|), q, |u|) == b
    {
      if b == c {
        assert Found(u, Start(pointer(key), |u|), key, p);
      } else {
        var start := Start(pointer(t[b].key), |t|);
        var q :| Found(t, start, t[b].key, q) && Probe(start, q, |t|) == b;
        assert Found(u, start, t[b].key, q);
      }
    }
    KeysUpdated(t, c, key);
  }

  lemma KeysUpdated<K(!new)>(t: seq<Slot<K>>, c: nat, key: K)
    requires c < |t| && t[c].Empty?
    ensures Keys(t[c := Full(key)]) == Keys(t) + {key}
  {
    var u := t[c := Full(key)];
    forall k ensures k in Keys(u) <==> k in Keys(t) + {key} {
      if k in Keys(t) {
        var b :| 0 <= b < |t| && t[b].Full? && t[b].key == k;
        assert u[b] == t[b];
      }
      if k == key {
        assert u[c].key == key;
      }
    }
  }

  /** `hash_insert`: whether the key is new. With a free slot left the loop always returns. */
  method HashInsert<K(==, !new)>(table: array<Slot<K>>, key: K, pointer: K -> bv32) returns (fresh': bool)
    requires Table(table[..], pointer) && exists b :: 0 <= b < table.Length && table[b].Empty?
    modifies table
    ensures Table(table[..], pointer)
    ensures fresh' <==> key !in old(Keys(table[..]))
    ensures Keys(table[..]) == old(Keys(table[..])) + {key}
    ensures !fresh' ==> table[..] == old(table[..])
  {
    hide Table, Murmur;
    ghost var t := table[..];
    var size := table.Length;
    ghost var start := Start(pointer(key), size);
    var bucket := Start(pointer(key), size);
    FirstProbe(start, size);
    for probe := 0 to size
      invariant table[..] == t && bucket == Probe(start, probe, size) && Passed(t, start, key, probe)
    {
      if table[bucket] == Empty {
        NotStored(t, pointer, key, probe);
        Inserted(t, pointer, key, probe);
        table[bucket] := Full(key);
        assert table[..] == t[bucket := Full(key)];
        return true;
      }
      if table[bucket] == Full(key) {
        assert t[bucket].key in Keys(t);
        return false;
      }
      ProbeStep(start, probe, size);
      bucket := (bucket + probe + 1) % size;
    }
    AllPassed(t, start, key, pointer);
    assert false;
  }

  lemma FirstProbe(start: nat, size: nat)
    requires start < size
    ensures Probe(start, 0, size) == start
  {
  }

  lemma AllPassed<K(!new)>(t: seq<Slot<K>>, start: nat, key: K, pointer: K -> bv32)
    requires Table(t, pointer) && Passed(t, start, key, |t|)
    ensures forall b :: 0 <= b < |t| ==> t[b].Full?
  {
    var k :| |t| == Pow2(k);
    forall b | 0 <= b < |t| ensures t[b].Full? {
      EverySlotProbed(start, b, k);
      var p :| 0 <= p < |t| && Probe(start, p, |t|) == b;
    }
  }

  // ----- remove_duplicates -----

  /** The first occurrence of each element, in the original order. */
  function Dedup<K(==)>(s: seq<K>): seq<K> {
    if s == [] then [] else
    Dedup(s[..|s| - 1]) + if s[|s| - 1] in s[..|s| - 1] then [] else [s[|s| - 1]]
  }

  predicate Distinct<K(==)>(s: seq<K>) {
    forall i, j :: 0 <= i < j < |s| ==> s[i] != s[j]
  }

  function Elements<K>(s: seq<K>): set<K> {
    set x | x in s
  }

  /** Nothing is lost, nothing stays twice, and what is kept is a first occurrence. */
  lemma {:induction false} DedupIsExact<K>(s: seq<K>)
    ensures Distinct(Dedup(s)) && |Dedup(s)| <= |s| && forall x :: x in Dedup(s) <==> x in s
    decreases |s|
  {
    if s != [] {
      var front, last := s[..|s| - 1], s[|s| - 1];
      DedupIsExact(front);
      assert s == front + [last];
    }
  }

  lemma {:induction false} ElementsCount<K>(s: seq<K>)
    ensures |Elements(s)| <= |s|
    decreases |s|
  {
    if s != [] {
      var front, last := s[..|s| - 1], s[|s| - 1];
      ElementsCount(front);
      assert s == front + [last];
      assert Elements(s) == Elements(front) + {last};
    }
  }

  ghost function KeysBelow<K(!new)>(t: seq<Slot<K>>, n: nat): set<K>
    requires n <= |t| && forall b :: 0 <= b < n ==> t[b].Full?
  {
    if n == 0 then {} else KeysBelow(t, n - 1) + {t[n - 1].key}
  }

  lemma {:induction false} KeysBelowCount<K(!new)>(t: seq<Slot<K>>, pointer: K -> bv32, n: nat)
    requires Table(t, pointer) && n <= |t| && forall b :: 0 <= b < n ==> t[b].Full?
    ensures |KeysBelow(t, n)| == n
    ensures forall x :: x in KeysBelow(t, n) <==> exists b :: 0 <= b < n && t[b].key == x
    decreases n
  {
    hide Table;
    if n > 0 {
      KeysBelowCount(t, pointer, n - 1);
      if t[n - 1].key in KeysBelow(t, n - 1) {
        var b :| 0 <= b < n - 1 && t[b].key == t[n - 1].key;
        StoredOnce(t, pointer, b, n - 1);
      }
      assert t[n - 1].key == t[n - 1].key;
    }
  }

  lemma FullTable<K(!new)>(t: seq<Slot<K>>, pointer: K -> bv32)
    requires Table(t, pointer) && forall b :: 0 <= b < |t| ==> t[b].Full?
    ensures |Keys(t)| == |t|
  {
    hide Table;
    KeysBelowCount(t, pointer, |t|);
    assert KeysBelow(t, |t|) == Keys(t);
  }

  /** A table that holds fewer keys than it has slots has a free one. */
  lemma FreeSlot<K(!new)>(t: seq<Slot<K>>, pointer: K -> bv32)
    requires Table(t, pointer) && |Keys(t)| < |t|
    ensures exists b :: 0 <= b < |t| && t[b].Empty?
  {
    hide Table;
    if forall b :: 0 <= b < |t| ==> t[b].Full? {
      FullTable(t, pointer);
    }
  }

  lemma EmptyTable<K(!new)>(t: seq<Slot<K>>, pointer: K -> bv32, k: nat)
    requires |t| == Pow2(k) && forall b :: 0 <= b < |t| ==> t[b].Empty?
    ensures Table(t, pointer) && Keys(t) == {}
  {
  }

  /** `*write++ = *it` so far: what has been read is deduplicated in front, the rest has not been touched. */
  predicate Compacting<K(==)>(t: seq<K>, s: seq<K>, write: nat, it: nat) {
    |t| == |s| && write <= it <= |s| && t[..write] == Dedup(s[..it]) && t[it..] == s[it..]
  }

  lemma CompactStep<K>(t: seq<K>, s: seq<K>, write: nat, it: nat)
    requires Compacting(t, s, write, it) && it < |s|
    ensures t[it] == s[it]
    ensures s[it] in Elements(s[..it]) ==> Compacting(t, s, write, it + 1)
    ensures s[it] !in Elements(s[..it]) ==> Compacting(t[write := t[it]], s, write + 1, it + 1)
  {
    assert t[it] == t[it..][0] == s[it..][0];
    assert t[it + 1..] == t[it..][1..] && s[it + 1..] == s[it..][1..];
    DedupStep(s, it);
    if s[it] !in Elements(s[..it]) {
      var u := t[write := t[it]];
      assert u[..write + 1] == t[..write] + [t[it]];
      assert u[it + 1..] == t[it + 1..];
    }
  }

  lemma CompactStart<K>(s: seq<K>)
    ensures Compacting(s, s, 0, 0)
  {
    assert s[..0] == [];
  }

  /** The hashing part of `remove_duplicates`, in place. */
  method DedupByHash<K(==, !new)>(a: array<K>, n: nat, pointer: K -> bv32) returns (write: nat)
    requires 0 < n <= a.Length
    modifies a
    ensures write <= n && a[..write] == Dedup(old(a[..n])) && a[n..] == old(a[n..])
  {
    hide Table, Keys, Compacting, Elements, Dedup, Murmur;
    ghost var s := a[..];
    var hashSize := 1;
    ghost var k := 0;
    while hashSize < n + n / 2
      invariant hashSize == Pow2(k)
      decreases n + n / 2 - hashSize
    {
      hashSize, k := hashSize * 2, k + 1;
    }
    var table := new Slot<K>[hashSize](_ => Empty);
    EmptyTable(table[..], pointer, k);
    write := 0;
    CompactStart(s);
    NoElements(s);
    for it := 0 to n
      invariant write <= it && Compacting(a[..], s, write, it)
      invariant Table(table[..], pointer) && Keys(table[..]) == Elements(s[..it])
    {
      ghost var t := a[..];
      ElementsCount(s[..it]);
      FreeSlot(table[..], pointer);
      CompactStep(t, s, write, it);
      DedupStep(s, it);
      var isNew := HashInsert(table, a[it], pointer);
      if isNew {
        a[write] := a[it];
        assert a[..] == t[write := t[it]];
        write := write + 1;
      }
    }
    CompactEnd(a[..], s, write, n);
  }

  lemma NoElements<K>(s: seq<K>)
    ensures Elements(s[..0]) == {}
  {
  }

  lemma CompactEnd<K>(t: seq<K>, s: seq<K>, write: nat, n: nat)
    requires Compacting(t, s, write, n)
    ensures t[..write] == Dedup(s[..n]) && t[n..] == s[n..]
  {
  }

  lemma DedupStep<K>(s: seq<K>, it: nat)
    requires it < |s|
    ensures Dedup(s[..it + 1]) == Dedup(s[..it]) + if s[it] in Elements(s[..it]) then [] else [s[it]]
    ensures Elements(s[..it + 1]) == Elements(s[..it]) + {s[it]}
  {
    assert s[..it + 1] == s[..it] + [s[it]];
    assert s[..it + 1][..it] == s[..it];
  }

  /** Equal elements stand side by side. */
  predicate Clustered<K(==)>(s: seq<K>) {
    forall i, j, k :: 0 <= i < k < j < |s| && s[i] == s[j] ==> s[k] == s[i]
  }

  /** In a sorted list they do. */
  lemma SortedClustered<K(!new)>(s: seq<K>, less: (K, K) -> bool)
    requires Orders(less) && SortedRange(s, 0, |s|, less)
    ensures Clustered(s)
  {
  }

  /** `unique` */
  method Unique<K(==)>(a: array<K>, n: nat) returns (end: nat)
    requires n <= a.Length && Clustered(a[..n])
    modifies a
    ensures end <= n && a[..end] == Dedup(old(a[..n])) && a[n..] == old(a[n..])
  {
    hide Compacting, Dedup, Clustered;
    ghost var s := a[..];
    assert s[..n] == a[..n];
    var begin: nat := 0;
    CompactStart(s);
    while n - begin > 1 && a[begin] != a[begin + 1]
      invariant begin <= n && (begin < n || n == 0) && a[..] == s && Compacting(s, s, begin, begin)
      invariant 0 < begin < n ==> s[begin - 1] != s[begin]
    {
      HeadStep(s, n, begin);
      begin := begin + 1;
    }
    if begin == n {
      CompactEnd(s, s, begin, n);
      return 0;
    }
    HeadStep(s, n, begin);
    var write: nat := begin;
    begin := begin + 1;
    while begin != n
      invariant write < begin <= n && a.Length == |s| && a[write] == s[begin - 1]
      invariant Compacting(a[..], s, write + 1, begin)
      decreases n - begin
    {
      ghost var t := a[..];
      CompactStep(t, s, write + 1, begin);
      LastSeen(s, n, begin);
      if a[begin] != a[write] {
        write := write + 1;
        a[write] := a[begin];
        assert a[..] == t[write := t[begin]];
      }
      begin := begin + 1;
    }
    CompactEnd(a[..], s, write + 1, n);
    end := write + 1;
  }

  /** In a clustered list an element seen before is equal to its predecessor. */
  lemma LastSeen<K>(s: seq<K>, n: nat, it: nat)
    requires n <= |s| && Clustered(s[..n]) && 0 < it < n
    ensures s[it] in Elements(s[..it]) <==> s[it] == s[it - 1]
  {
    var u := s[..n];
    if s[it] in s[..it] {
      var i :| 0 <= i < it && s[..it][i] == s[it];
      assert u[i] == u[it];
      assert i < it - 1 ==> u[it - 1] == u[i];
    } else {
      assert s[..it][it - 1] == s[it - 1];
    }
  }

  lemma HeadStep<K>(s: seq<K>, n: nat, begin: nat)
    requires begin < n <= |s| && Clustered(s[..n]) && Compacting(s, s, begin, begin)
    requires begin > 0 ==> s[begin - 1] != s[begin]
    ensures Compacting(s, s, begin + 1, begin + 1)
  {
    CompactStep(s, s, begin, begin);
    if begin > 0 {
      LastSeen(s, n, begin);
    }
    assert s[begin := s[begin]] == s;
  }

  /** `remove_duplicates` on a set with the tag `unsorted`, or with equal nodes side by side. */
  method RemoveDuplicates<K(==, !new)>(a: array<K>, n: nat, unsorted: bool, pointer: K -> bv32) returns (end: nat)
    requires n <= a.Length && (unsorted || Clustered(a[..n]))
    modifies a
    ensures end <= n && a[..end] == Dedup(old(a[..n])) && a[n..] == old(a[n..])
  {
    if unsorted && n > 2 {
      end := DedupByHash(a, n, pointer);
    } else {
      end := Unique(a, n);
    }
  }
}
