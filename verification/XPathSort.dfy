/** `sort` of pugixml: a quicksort with a three-way partition that recurses on the smaller part only, over an insertion
    sort for small ranges. */
module XPathSort {

  /** The order of different elements */
  ghost predicate Precedes<T(!new)>(less: (T, T) -> bool, a: T, b: T) {
    a != b && less(a, b)
  }

  /** A strict total order, except that nothing is said about an element and itself. */
  ghost predicate Orders<T(!new)>(less: (T, T) -> bool) {
    && (forall a, b, c :: Precedes(less, a, b) && Precedes(less, b, c) ==> Precedes(less, a, c))
    && (forall a, b :: a != b ==> Precedes(less, a, b) != Precedes(less, b, a))
  }

  /** How many elements of the list are not behind `x` */
  ghost function AtOrBefore<T(!new)>(s: seq<T>, x: T, less: (T, T) -> bool): nat {
    if s == [] then 0
    else AtOrBefore(s[..|s| - 1], x, less) + if Precedes(less, x, s[|s| - 1]) then 0 else 1
  }

  /** At most 16 elements are not behind an element that occurs more than once and counts as before itself. */
  ghost predicate Sparse<T(!new)>(s: seq<T>, less: (T, T) -> bool) {
    forall x :: less(x, x) && multiset(s)[x] > 1 ==> AtOrBefore(s, x, less) <= 16
  }

  /** The same, said of parts of the list: it is kept by permutations and by smaller lists. */
  ghost predicate Bounded<T(!new)>(all: multiset<T>, less: (T, T) -> bool) {
    forall x, m :: less(x, x) && all[x] > 1 && m <= all && (forall y :: y in m ==> !Precedes(less, x, y)) ==> |m| <= 16
  }

  lemma {:induction false} PartIsSmall<T(!new)>(s: seq<T>, x: T, m: multiset<T>, less: (T, T) -> bool)
    requires m <= multiset(s) && forall y :: y in m ==> !Precedes(less, x, y)
    ensures |m| <= AtOrBefore(s, x, less)
    decreases |s|
  {
    if s != [] {
      var front, z := s[..|s| - 1], s[|s| - 1];
      assert s == front + [z];
      if Precedes(less, x, z) {
        PartIsSmall(front, x, m, less);
      } else {
        PartIsSmall(front, x, m - multiset{z}, less);
      }
    }
  }

  lemma SparseIsBounded<T(!new)>(s: seq<T>, less: (T, T) -> bool)
    requires Sparse(s, less)
    ensures Bounded(multiset(s), less)
  {
    forall x, m | less(x, x) && multiset(s)[x] > 1 && m <= multiset(s) && (forall y :: y in m ==> !Precedes(less, x, y))
      ensures |m| <= 16
    {
      PartIsSmall(s, x, m, less);
    }
  }

  // ----- ranges of a sequence -----

  /** `t` differs from `s` by a permutation of the range. */
  ghost predicate Permuted<T(!new)>(s: seq<T>, t: seq<T>, lo: nat, hi: nat) {
    && |s| == |t| && lo <= hi <= |s| && s[..lo] == t[..lo] && s[hi..] == t[hi..]
    && multiset(s[lo..hi]) == multiset(t[lo..hi])
  }

  lemma PermutedLength<T(!new)>(s: seq<T>, t: seq<T>, lo: nat, hi: nat)
    requires Permuted(s, t, lo, hi)
    ensures |t| == |s|
  {
  }

  lemma PermutedSelf<T(!new)>(s: seq<T>, lo: nat, hi: nat)
    requires lo <= hi <= |s|
    ensures Permuted(s, s, lo, hi)
  {
  }

  lemma PermutedTransitive<T(!new)>(s: seq<T>, t: seq<T>, u: seq<T>, lo: nat, hi: nat)
    requires Permuted(s, t, lo, hi) && Permuted(t, u, lo, hi)
    ensures Permuted(s, u, lo, hi)
  {
  }

  /** A permutation of a part is one of the whole. */
  lemma PermutedWider<T(!new)>(s: seq<T>, t: seq<T>, lo: nat, hi: nat, lo': nat, hi': nat)
    requires Permuted(s, t, lo, hi) && lo' <= lo && hi <= hi' <= |s|
    ensures Permuted(s, t, lo', hi')
  {
    assert s[lo'..lo] == s[..lo][lo'..] && t[lo'..lo] == t[..lo][lo'..];
    assert s[hi..hi'] == s[hi..][..hi' - hi] && t[hi..hi'] == t[hi..][..hi' - hi];
    assert s[lo'..hi'] == s[lo'..lo] + s[lo..hi] + s[hi..hi'];
    assert t[lo'..hi'] == t[lo'..lo] + t[lo..hi] + t[hi..hi'];
    assert s[..lo'] == s[..lo][..lo'] && t[..lo'] == t[..lo][..lo'];
    assert s[hi'..] == s[hi..][hi' - hi..] && t[hi'..] == t[hi..][hi' - hi..];
  }

  function Swapped<T>(s: seq<T>, i: nat, j: nat): (t: seq<T>)
    requires i < |s| && j < |s|
    ensures |t| == |s| && forall k :: 0 <= k < |s| ==> t[k] == if k == i then s[j] else if k == j then s[i] else s[k]
  {
    s[i := s[j]][j := s[i]]
  }

  lemma SwapPermutes<T(!new)>(s: seq<T>, i: nat, j: nat, lo: nat, hi: nat)
    requires lo <= i < hi <= |s| && lo <= j < hi
    ensures Permuted(s, Swapped(s, i, j), lo, hi)
  {
    var t, u := Swapped(s, i, j), s[lo..hi];
    assert t[lo..hi] == u[i - lo := u[j - lo]][j - lo := u[i - lo]];
    SwapKeepsElements(u, i - lo, j - lo);
    assert t[..lo] == s[..lo] && t[hi..] == s[hi..];
  }

  lemma SwapKeepsElements<T(!new)>(u: seq<T>, i: nat, j: nat)
    requires i < |u| && j < |u|
    ensures multiset(u[i := u[j]][j := u[i]]) == multiset(u)
  {
  }

  /** Every element of the range was there before. */
  lemma CameFrom<T(!new)>(s: seq<T>, t: seq<T>, lo: nat, hi: nat, j: nat) returns (k: nat)
    requires Permuted(s, t, lo, hi) && lo <= j < hi
    ensures lo <= k < hi && s[k] == t[j]
  {
    assert t[j] == t[lo..hi][j - lo];
    assert t[j] in multiset(t[lo..hi]);
    assert t[j] in s[lo..hi];
    var i :| 0 <= i < hi - lo && s[lo..hi][i] == t[j];
    k := lo + i;
  }

  lemma Outside<T(!new)>(s: seq<T>, t: seq<T>, lo: nat, hi: nat, j: nat)
    requires Permuted(s, t, lo, hi) && j < |s| && !(lo <= j < hi)
    ensures s[j] == t[j]
  {
    if j < lo {
      assert s[..lo][j] == t[..lo][j];
    } else {
      assert s[hi..][j - hi] == t[hi..][j - hi];
    }
  }

  ghost predicate SortedRange<T(!new)>(s: seq<T>, lo: nat, hi: nat, less: (T, T) -> bool) {
    hi <= |s| && forall i, j :: lo <= i < j < hi ==> !Precedes(less, s[j], s[i])
  }

  method Swap<T(!new)>(a: array<T>, i: nat, j: nat)
    requires i < a.Length && j < a.Length
    modifies a
    ensures a[..] == Swapped(old(a[..]), i, j)
  {
    a[i], a[j] := a[j], a[i];
  }

  // ----- insertion sort -----

  method InsertionSort<T(!new)>(a: array<T>, begin: nat, end: nat, less: (T, T) -> bool)
    requires begin <= end <= a.Length && Orders(less)
    modifies a
    ensures Permuted(old(a[..]), a[..], begin, end) && SortedRange(a[..], begin, end, less)
  {
    hide Permuted, Orders;
    PermutedSelf(a[..], begin, end);
    if begin == end {
      return;
    }
    var it := begin + 1;
    ghost var start := a[..];
    while it != end
      invariant begin < it <= end
      invariant Permuted(start, a[..], begin, end) && SortedRange(a[..], begin, it, less)
      decreases end - it
    {
      ghost var before := a[..];
      Insert(a, begin, it, less);
      PermutedWider(before, a[..], begin, it + 1, begin, end);
      PermutedTransitive(start, before, a[..], begin, end);
      it := it + 1;
    }
  }

  /** Filling the hole with the value kept aside gives a permutation, and so it does after the hole has moved. */
  lemma HoleMoves<T(!new)>(before: seq<T>, now: seq<T>, val: T, hole: nat, lo: nat, hi: nat)
    requires lo < hole < hi <= |now| && Permuted(before, now[hole := val], lo, hi)
    ensures Permuted(before, now[hole := now[hole - 1]][hole - 1 := val], lo, hi)
  {
    hide Permuted;
    var was := now[hole := val];
    SwapPermutes(was, hole - 1, hole, lo, hi);
    HoleSwap(now, val, hole);
    PermutedTransitive(before, was, Swapped(was, hole - 1, hole), lo, hi);
  }

  lemma HoleSwap<T(!new)>(now: seq<T>, val: T, hole: nat)
    requires 0 < hole < |now|
    ensures now[hole := now[hole - 1]][hole - 1 := val] == Swapped(now[hole := val], hole - 1, hole)
  {
  }

  method Insert<T(!new)>(a: array<T>, begin: nat, it: nat, less: (T, T) -> bool)
    requires begin <= it < a.Length && Orders(less) && SortedRange(a[..], begin, it, less)
    modifies a
    ensures Permuted(old(a[..]), a[..], begin, it + 1) && SortedRange(a[..], begin, it + 1, less)
  {
    hide Permuted, Orders, SortedRange;
    var val := a[it];
    var hole := it;
    ghost var before := a[..];
    PermutedSelf(before, begin, it + 1);
    assert before[it := val] == before;
    while hole > begin && less(val, a[hole - 1])
      invariant begin <= hole <= it && |before| == a.Length
      invariant Permuted(before, a[..][hole := val], begin, it + 1)
      invariant forall k :: begin <= k < hole ==> a[k] == before[k]
      invariant forall k :: hole < k <= it ==> a[k] == before[k - 1] && less(val, a[k])
    {
      ghost var now := a[..];
      HoleMoves(before, now, val, hole, begin, it + 1);
      a[hole] := a[hole - 1];
      assert a[..] == now[hole := now[hole - 1]];
      hole := hole - 1;
    }
    ghost var now := a[..];
    a[hole] := val;
    assert a[..] == now[hole := val];
    Inserted(before, a[..], begin, it, hole, val, less);
  }

  lemma Inserted<T(!new)>(before: seq<T>, s: seq<T>, begin: nat, it: nat, hole: nat, val: T, less: (T, T) -> bool)
    requires Orders(less) && SortedRange(before, begin, it, less) && |s| == |before| && begin <= hole <= it < |s|
    requires s[hole] == val && forall k :: begin <= k < hole ==> s[k] == before[k]
    requires forall k :: hole < k <= it ==> s[k] == before[k - 1] && less(val, s[k])
    requires hole > begin ==> !less(val, before[hole - 1])
    ensures SortedRange(s, begin, it + 1, less)
  {
    forall i, j | begin <= i < j < it + 1 ensures !Precedes(less, s[j], s[i]) {
      if j == hole && i < hole - 1 {
        assert !Precedes(less, before[hole - 1], before[i]);
      }
      if j < hole {
        assert !Precedes(less, before[j], before[i]);
      } else if i < hole < j {
        assert i < j - 1 ==> !Precedes(less, before[j - 1], before[i]);
      } else if hole < i {
        assert !Precedes(less, before[j - 1], before[i - 1]);
      }
    }
  }

  // ----- partition -----

  /** `median3`: the iterators are swapped, not the elements. The three positions come back in the order of their
      elements, the middle one is the pivot. */
  method Median3<T(!new)>(a: array<T>, first: nat, middle: nat, last: nat, less: (T, T) -> bool)
    returns (f: nat, m: nat, l: nat)
    requires first < a.Length && middle < a.Length && last < a.Length && Orders(less)
    ensures multiset{f, m, l} == multiset{first, middle, last}
    ensures f < a.Length && m < a.Length && l < a.Length && !Precedes(less, a[m], a[f]) && !Precedes(less, a[l], a[m])
  {
    f, m, l := first, middle, last;
    if less(a[m], a[f]) { m, f := f, m; }
    if less(a[l], a[m]) { l, m := m, l; }
    if less(a[m], a[f]) { m, f := f, m; }
  }

  /** The four groups while the range is being partitioned: equal, less, unknown, greater. */
  ghost predicate Groups<T(!new)>(s: seq<T>, begin: nat, eq: nat, lt: nat, gt: nat, end: nat, pivot: T,
                                  less: (T, T) -> bool) {
    && begin <= eq <= lt <= gt <= end <= |s|
    && (forall k :: begin <= k < eq ==> s[k] == pivot)
    && (forall k :: eq <= k < lt ==> less(s[k], pivot))
    && (forall k :: gt <= k < end ==> Precedes(less, pivot, s[k]))
    && (begin < eq ==> !less(pivot, pivot))
  }

  /** The result of a partition: less, equal, greater. */
  ghost predicate Partitioned<T(!new)>(s: seq<T>, begin: nat, eqbeg: nat, eqend: nat, end: nat, pivot: T,
                                       less: (T, T) -> bool) {
    && begin <= eqbeg <= eqend <= end <= |s|
    && (forall k :: begin <= k < eqbeg ==> less(s[k], pivot))
    && (forall k :: eqbeg <= k < eqend ==> s[k] == pivot)
    && (forall k :: eqend <= k < end ==> Precedes(less, pivot, s[k]))
    && (eqbeg < eqend ==> !less(pivot, pivot))
  }

  /** The equal elements on their way to the middle: `t` of them have been swapped with the end of the less ones. The
      two runs may cross, and then only equal elements change places. */
  ghost predicate Moving<T(!new)>(s: seq<T>, begin: nat, eq: nat, gt: nat, t: nat, pivot: T, less: (T, T) -> bool) {
    var m := if t < gt - eq then t else gt - eq;
    && begin <= eq <= gt <= |s| && t <= eq - begin
    && forall k :: begin <= k < gt ==>
      if k < begin + m || eq <= k < gt - m then less(s[k], pivot) else s[k] == pivot
  }

  lemma MoveOne<T(!new)>(s: seq<T>, begin: nat, eq: nat, gt: nat, t: nat, pivot: T, less: (T, T) -> bool)
    requires Moving(s, begin, eq, gt, t, pivot, less) && t < eq - begin
    ensures Moving(Swapped(s, begin + t, gt - t - 1), begin, eq, gt, t + 1, pivot, less)
  {
  }

  /** The three moves of the partition keep the groups. */
  lemma GroupsStep<T(!new)>(s: seq<T>, begin: nat, eq: nat, lt: nat, gt: nat, end: nat, pivot: T, less: (T, T) -> bool)
    requires Groups(s, begin, eq, lt, gt, end, pivot, less) && lt < gt && Orders(less)
    ensures less(s[lt], pivot) ==> Groups(s, begin, eq, lt + 1, gt, end, pivot, less)
    ensures s[lt] == pivot && !less(s[lt], pivot)
      ==> Groups(Swapped(s, eq, lt), begin, eq + 1, lt + 1, gt, end, pivot, less)
    ensures !less(s[lt], pivot) && s[lt] != pivot
      ==> Groups(Swapped(s, lt, gt - 1), begin, eq, lt, gt - 1, end, pivot, less)
  {
  }

  lemma GroupsStart<T(!new)>(s: seq<T>, begin: nat, end: nat, pivot: T, less: (T, T) -> bool)
    requires begin <= end <= |s|
    ensures Groups(s, begin, begin, begin, end, end, pivot, less)
  {}

  /** What the first loop of `partition3` makes of `[lt, gt)` when the pivot counts as before itself, so that there are
      no equal elements. */
  ghost function Scan<T(!new)>(s: seq<T>, lt: nat, gt: nat, pivot: T, less: (T, T) -> bool): (t: seq<T>)
    requires lt <= gt <= |s|
    ensures |t| == |s|
    decreases gt - lt
  {
    if lt == gt then s
    else if less(s[lt], pivot) then Scan(s, lt + 1, gt, pivot, less)
    else Scan(Swapped(s, lt, gt - 1), lt, gt - 1, pivot, less)
  }

  /** `partition3` */
  method Partition3<T(==, !new)>(a: array<T>, begin: nat, end: nat, pivot: T, less: (T, T) -> bool)
    returns (eqbeg: nat, eqend: nat)
    requires begin <= end <= a.Length && Orders(less)
    modifies a
    ensures Permuted(old(a[..]), a[..], begin, end)
    ensures Partitioned(a[..], begin, eqbeg, eqend, end, pivot, less)
    ensures less(pivot, pivot) ==> a[..] == Scan(old(a[..]), begin, end, pivot, less)
  {
    hide *;
    var eq: nat, lt: nat, gt: nat := begin, begin, end;
    ghost var start := a[..];
    PartingStarts(start, begin, end, pivot, less);
    while lt < gt
      invariant begin <= eq <= lt <= gt <= end
      invariant Parting(start, a[..], begin, eq, lt, gt, end, pivot, less)
    {
      PartingStep(start, a[..], begin, eq, lt, gt, end, pivot, less);
      if less(a[lt], pivot) {
        lt := lt + 1;
      } else if a[lt] == pivot {
        Swap(a, eq, lt);
        eq, lt := eq + 1, lt + 1;
      } else {
        gt := gt - 1;
        Swap(a, lt, gt);
      }
    }
    eqend := gt;
    PartingEnds(start, a[..], begin, eq, gt, end, pivot, less);
    eqbeg := MoveEqual(a, begin, eq, gt, end, pivot, less, start);
  }

  /** The range while it is being partitioned: grouped, a permutation of what it was, and `Scan` of the rest is `Scan`
      of all. */
  ghost predicate Parting<T(!new)>(start: seq<T>, s: seq<T>, begin: nat, eq: nat, lt: nat, gt: nat, end: nat, pivot: T,
                                   less: (T, T) -> bool) {
    && Groups(s, begin, eq, lt, gt, end, pivot, less) && Permuted(start, s, begin, end)
    && ScanGoesOn(start, s, begin, eq, lt, gt, end, pivot, less)
  }

  ghost predicate ScanGoesOn<T(!new)>(start: seq<T>, s: seq<T>, begin: nat, eq: nat, lt: nat, gt: nat, end: nat,
                                      pivot: T, less: (T, T) -> bool) {
    && begin <= lt <= gt <= end <= |s| == |start|
    && (less(pivot, pivot) ==> eq == begin && Scan(s, lt, gt, pivot, less) == Scan(start, begin, end, pivot, less))
  }

  lemma ScanGoesOnStep<T(!new)>(start: seq<T>, s: seq<T>, begin: nat, eq: nat, lt: nat, gt: nat, end: nat, pivot: T,
                                less: (T, T) -> bool)
    requires ScanGoesOn(start, s, begin, eq, lt, gt, end, pivot, less) && begin <= eq <= lt < gt
    ensures if less(s[lt], pivot) then ScanGoesOn(start, s, begin, eq, lt + 1, gt, end, pivot, less)
      else if s[lt] == pivot then ScanGoesOn(start, Swapped(s, eq, lt), begin, eq + 1, lt + 1, gt, end, pivot, less)
      else ScanGoesOn(start, Swapped(s, lt, gt - 1), begin, eq, lt, gt - 1, end, pivot, less)
  {
    ScanStep(s, lt, gt, pivot, less);
    hide Scan;
  }

  lemma PartingStarts<T(!new)>(s: seq<T>, begin: nat, end: nat, pivot: T, less: (T, T) -> bool)
    requires begin <= end <= |s|
    ensures Parting(s, s, begin, begin, begin, end, end, pivot, less)
  {
    PermutedSelf(s, begin, end);
    GroupsStart(s, begin, end, pivot, less);
  }

  /** The three moves of the first loop. */
  lemma PartingStep<T(!new)>(start: seq<T>, s: seq<T>, begin: nat, eq: nat, lt: nat, gt: nat, end: nat, pivot: T,
                             less: (T, T) -> bool)
    requires Parting(start, s, begin, eq, lt, gt, end, pivot, less) && lt < gt && Orders(less)
    ensures begin <= eq <= lt < gt <= end <= |s|
    ensures if less(s[lt], pivot) then Parting(start, s, begin, eq, lt + 1, gt, end, pivot, less)
      else if s[lt] == pivot then Parting(start, Swapped(s, eq, lt), begin, eq + 1, lt + 1, gt, end, pivot, less)
      else Parting(start, Swapped(s, lt, gt - 1), begin, eq, lt, gt - 1, end, pivot, less)
  {
    hide Permuted, ScanGoesOn, Scan, Orders, Groups, Precedes, Swapped;
    GroupsBounds(s, begin, eq, lt, gt, end, pivot, less);
    GroupsStep(s, begin, eq, lt, gt, end, pivot, less);
    ScanGoesOnStep(start, s, begin, eq, lt, gt, end, pivot, less);
    SwapAgain(start, s, eq, lt, begin, end);
    SwapAgain(start, s, lt, gt - 1, begin, end);
  }

  lemma GroupsBounds<T(!new)>(s: seq<T>, begin: nat, eq: nat, lt: nat, gt: nat, end: nat, pivot: T,
                              less: (T, T) -> bool)
    requires Groups(s, begin, eq, lt, gt, end, pivot, less)
    ensures begin <= eq <= lt <= gt <= end <= |s|
  {
  }

  lemma SwapAgain<T(!new)>(start: seq<T>, s: seq<T>, i: nat, j: nat, lo: nat, hi: nat)
    requires Permuted(start, s, lo, hi) && lo <= i < hi <= |s| && lo <= j < hi
    ensures Permuted(start, Swapped(s, i, j), lo, hi)
  {
    hide Permuted;
    SwapPermutes(s, i, j, lo, hi);
    PermutedTransitive(start, s, Swapped(s, i, j), lo, hi);
  }

  lemma PartingEnds<T(!new)>(start: seq<T>, s: seq<T>, begin: nat, eq: nat, gt: nat, end: nat, pivot: T,
                             less: (T, T) -> bool)
    requires Parting(start, s, begin, eq, gt, gt, end, pivot, less)
    ensures Groups(s, begin, eq, gt, gt, end, pivot, less) && Permuted(start, s, begin, end)
    ensures less(pivot, pivot) ==> eq == begin && s == Scan(start, begin, end, pivot, less)
  {
  }

  lemma ScanStep<T(!new)>(s: seq<T>, lt: nat, gt: nat, pivot: T, less: (T, T) -> bool)
    requires lt < gt <= |s|
    ensures Scan(s, lt, gt, pivot, less)
      == if less(s[lt], pivot) then Scan(s, lt + 1, gt, pivot, less)
        else Scan(Swapped(s, lt, gt - 1), lt, gt - 1, pivot, less)
  {}

  lemma ScanEnd<T(!new)>(s: seq<T>, lt: nat, pivot: T, less: (T, T) -> bool)
    requires lt <= |s|
    ensures Scan(s, lt, lt, pivot, less) == s
  {}

  /** One equal element changes places. */
  method SwapEqual<T(!new)>(a: array<T>, i: nat, j: nat, ghost begin: nat, ghost eq: nat, ghost gt: nat, ghost t: nat,
                            ghost pivot: T, ghost less: (T, T) -> bool, ghost before: seq<T>)
    requires begin <= eq <= gt <= a.Length && t < eq - begin && i == begin + t && j == gt - t - 1
    requires Moving(a[..], begin, eq, gt, t, pivot, less) && Permuted(before, a[..], begin, gt)
    modifies a
    ensures Moving(a[..], begin, eq, gt, t + 1, pivot, less) && Permuted(before, a[..], begin, gt)
  {
    hide *;
    ghost var s := a[..];
    MoveOne(s, begin, eq, gt, t, pivot, less);
    SwapPermutes(s, i, j, begin, gt);
    Swap(a, i, j);
    PermutedTransitive(before, s, a[..], begin, gt);
  }

  /** The final loop: the equal elements go from the front of the range to its middle. */
  method MoveEqual<T(!new)>(a: array<T>, begin: nat, eq: nat, gt: nat, end: nat, pivot: T, less: (T, T) -> bool,
                            ghost start: seq<T>)
    returns (eqbeg: nat)
    requires begin <= eq <= gt <= end <= a.Length
    requires Groups(a[..], begin, eq, gt, gt, end, pivot, less) && Permuted(start, a[..], begin, end)
    modifies a
    ensures Permuted(start, a[..], begin, end) && Partitioned(a[..], begin, eqbeg, gt, end, pivot, less)
    ensures eq == begin ==> a[..] == old(a[..])
  {
    hide *;
    eqbeg := gt;
    var it := begin;
    ghost var t: nat := 0;
    ghost var before := a[..];
    MoveStart(before, begin, eq, gt, end, pivot, less);
    PermutedSelf(before, begin, gt);
    while it != eq
      invariant it == begin + t <= eq && eqbeg == gt - t
      invariant Moving(a[..], begin, eq, gt, t, pivot, less) && Permuted(before, a[..], begin, gt)
      invariant t == 0 ==> a[..] == before
      decreases eq - it
    {
      eqbeg := eqbeg - 1;
      SwapEqual(a, it, eqbeg, begin, eq, gt, t, pivot, less, before);
      it, t := it + 1, t + 1;
    }
    Moved(start, before, a[..], begin, eq, gt, end, pivot, less);
  }

  lemma Moved<T(!new)>(start: seq<T>, before: seq<T>, s: seq<T>, begin: nat, eq: nat, gt: nat, end: nat, pivot: T,
                       less: (T, T) -> bool)
    requires begin <= eq <= gt <= end <= |before|
    requires Permuted(start, before, begin, end) && Groups(before, begin, eq, gt, gt, end, pivot, less)
    requires Permuted(before, s, begin, gt) && Moving(s, begin, eq, gt, eq - begin, pivot, less)
    ensures Permuted(start, s, begin, end) && Partitioned(s, begin, gt - (eq - begin), gt, end, pivot, less)
  {
    hide *;
    MoveEnd(before, s, begin, eq, gt, end, pivot, less);
    PermutedWider(before, s, begin, gt, begin, end);
    PermutedTransitive(start, before, s, begin, end);
  }

  lemma MoveStart<T(!new)>(s: seq<T>, begin: nat, eq: nat, gt: nat, end: nat, pivot: T, less: (T, T) -> bool)
    requires Groups(s, begin, eq, gt, gt, end, pivot, less)
    ensures Moving(s, begin, eq, gt, 0, pivot, less)
  {
  }

  lemma MoveEnd<T(!new)>(s: seq<T>, t: seq<T>, begin: nat, eq: nat, gt: nat, end: nat, pivot: T, less: (T, T) -> bool)
    requires Groups(s, begin, eq, gt, gt, end, pivot, less) && Permuted(s, t, begin, gt)
    requires Moving(t, begin, eq, gt, eq - begin, pivot, less)
    ensures Partitioned(t, begin, gt - (eq - begin), gt, end, pivot, less)
  {
    forall k | gt <= k < end ensures Precedes(less, pivot, t[k]) {
      Outside(s, t, begin, gt, k);
    }
  }

  // ----- the sort -----

  function Pow2(n: nat): (r: nat)
    ensures r > 0
  {
    if n == 0 then 1 else 2 * Pow2(n - 1)
  }

  /** A recursion of depth `d` on a range of `n` elements: `d` is at most the binary logarithm of `n`. */
  predicate Shallow(d: nat, n: nat) {
    Pow2(d) <= if n == 0 then 1 else n
  }

  /** Whatever is outside `[b, e)` already stands where it belongs. */
  ghost predicate Fenced<T(!new)>(s: seq<T>, lo: nat, hi: nat, b: nat, e: nat, less: (T, T) -> bool) {
    && lo <= b <= e <= hi <= |s|
    && forall i, j :: lo <= i < j < hi && !(b <= i && j < e) ==> !Precedes(less, s[j], s[i])
  }

  /** A permutation inside the fence keeps it. */
  lemma FenceKept<T(!new)>(s: seq<T>, t: seq<T>, lo: nat, hi: nat, b: nat, e: nat, less: (T, T) -> bool)
    requires Fenced(s, lo, hi, b, e, less) && Permuted(s, t, b, e)
    ensures Fenced(t, lo, hi, b, e, less)
  {
    PermutedLength(s, t, b, e);
    hide Permuted;
    forall i, j | lo <= i < j < hi && !(b <= i && j < e) ensures !Precedes(less, t[j], t[i]) {
      var k, m := i, j;
      if b <= i < e { k := CameFrom(s, t, b, e, i); } else { Outside(s, t, b, e, i); }
      if b <= j < e { m := CameFrom(s, t, b, e, j); } else { Outside(s, t, b, e, j); }
    }
  }

  /** With the right part sorted only the left part is left to do. */
  lemma FenceLeft<T(!new)>(s: seq<T>, lo: nat, hi: nat, b: nat, eqbeg: nat, eqend: nat, e: nat, pivot: T,
                           less: (T, T) -> bool)
    requires Orders(less) && Fenced(s, lo, hi, b, e, less) && Partitioned(s, b, eqbeg, eqend, e, pivot, less)
    requires SortedRange(s, eqend, e, less)
    ensures Fenced(s, lo, hi, b, eqbeg, less)
  {
  }

  lemma FenceRight<T(!new)>(s: seq<T>, lo: nat, hi: nat, b: nat, eqbeg: nat, eqend: nat, e: nat, pivot: T,
                            less: (T, T) -> bool)
    requires Orders(less) && Fenced(s, lo, hi, b, e, less) && Partitioned(s, b, eqbeg, eqend, e, pivot, less)
    requires SortedRange(s, b, eqbeg, less)
    ensures Fenced(s, lo, hi, eqend, e, less)
  {
  }

  /** Sorting either part keeps the fence and the partition. */
  lemma FenceBoth<T(!new)>(s: seq<T>, t: seq<T>, lo: nat, hi: nat, b: nat, eqbeg: nat, eqend: nat, e: nat, pivot: T,
                           less: (T, T) -> bool, x: nat, y: nat)
    requires Fenced(s, lo, hi, b, e, less) && Partitioned(s, b, eqbeg, eqend, e, pivot, less)
    requires Permuted(s, t, x, y) && ((x == eqend && y == e) || (x == b && y == eqbeg))
    ensures Fenced(t, lo, hi, b, e, less) && Partitioned(t, b, eqbeg, eqend, e, pivot, less)
  {
    PermutedWider(s, t, x, y, b, e);
    FenceKept(s, t, lo, hi, b, e, less);
    hide Permuted;
    forall k | b <= k < e ensures
      if k < eqbeg then less(t[k], pivot) else if k < eqend then t[k] == pivot else Precedes(less, pivot, t[k])
    {
      if x <= k < y { var m := CameFrom(s, t, x, y, k); } else { Outside(s, t, x, y, k); }
    }
  }

  /** `sort`: the larger part is left to the loop, so the recursion is no deeper than the binary logarithm. */
  method Sort<T(==, !new)>(a: array<T>, first: nat, last: nat, less: (T, T) -> bool) returns (ghost depth: nat)
    requires first <= last <= a.Length && Orders(less) && Sparse(a[first..last], less)
    modifies a
    ensures Permuted(old(a[..]), a[..], first, last) && SortedRange(a[..], first, last, less)
    ensures Shallow(depth, last - first)
    decreases last - first
  {
    hide Permuted, Orders, Sparse, Bounded;
    SparseIsBounded(a[first..last], less);
    depth := SortBounded(a, first, last, less);
  }

  /** The same for the calls that `sort` makes of itself. */
  method SortBounded<T(==, !new)>(a: array<T>, first: nat, last: nat, less: (T, T) -> bool) returns (ghost depth: nat)
    requires first <= last <= a.Length && Orders(less) && Bounded(multiset(a[first..last]), less)
    modifies a
    ensures Permuted(old(a[..]), a[..], first, last) && SortedRange(a[..], first, last, less)
    ensures Shallow(depth, last - first)
    decreases last - first
  {
    hide Permuted, Orders, Bounded;
    var begin, end := first, last;
    ghost var start := a[..];
    PermutedSelf(start, first, last);
    depth := 0;
    while end - begin > 16
      invariant Fenced(a[..], first, last, begin, end, less)
      invariant Permuted(start, a[..], first, last)
      invariant Bounded(multiset(a[begin..end]), less)
      invariant Shallow(depth, last - first)
      decreases end - begin
    {
      begin, end, depth := SortPart(a, first, last, begin, end, less, start, depth);
    }
    ghost var s := a[..];
    InsertionSort(a, begin, end, less);
    FenceKept(s, a[..], first, last, begin, end, less);
    PermutedWider(s, a[..], begin, end, first, last);
    PermutedTransitive(start, s, a[..], first, last);
  }

  /** One turn of the loop: partition, sort the smaller part, keep the larger one. */
  method SortPart<T(==, !new)>(a: array<T>, ghost first: nat, ghost last: nat, b: nat, e: nat, less: (T, T) -> bool,
                           ghost start: seq<T>, ghost deepest: nat)
    returns (begin: nat, end: nat, ghost depth: nat)
    requires first <= b <= e <= last <= a.Length && Fenced(a[..], first, last, b, e, less) && e - b > 16 && Orders(less)
    requires Permuted(start, a[..], first, last) && Shallow(deepest, last - first) && Bounded(multiset(a[b..e]), less)
    modifies a
    ensures Fenced(a[..], first, last, begin, end, less) && b <= begin <= end <= e && end - begin < e - b
    ensures Permuted(start, a[..], first, last) && Shallow(depth, last - first)
      && Bounded(multiset(a[begin..end]), less)
    decreases last - first, 0
  {
    hide Permuted, Orders, SortedRange, Fenced, Partitioned, Bounded, Precedes;
    var middle := b + (e - b) / 2;
    ghost var f, l;
    var median;
    f, median, l := Median3(a, b, middle, e - 1, less);
    assert Candidates(a[..], b, e, f, median, l, less);
    ghost var s, pivot := a[..], a[median];
    var eqbeg, eqend := Partition3(a, b, e, a[median], less);
    Progress(s, a[..], b, eqbeg, eqend, e, f, median, l, less);
    BoundedKept(s, a[..], b, e, less);
    BoundedPart(a[..], b, e, b, eqbeg, less);
    BoundedPart(a[..], b, e, eqend, e, less);
    ghost var t, d := a[..], 0;
    if eqbeg - b > e - eqend {
      d := SortBounded(a, eqend, e, less);
      begin, end := b, eqbeg;
      RightSorted(start, s, t, a[..], first, last, b, eqbeg, eqend, e, pivot, less);
    } else {
      d := SortBounded(a, b, eqbeg, less);
      begin, end := eqend, e;
      LeftSorted(start, s, t, a[..], first, last, b, eqbeg, eqend, e, pivot, less);
    }
    depth := if d + 1 > deepest then d + 1 else deepest;
    Deeper(d, if begin == b then e - eqend else eqbeg - b, last - first);
  }

  /** The right part has been sorted: what is left to do is the left part. */
  lemma RightSorted<T(!new)>(start: seq<T>, s: seq<T>, t: seq<T>, u: seq<T>, lo: nat, hi: nat, b: nat, eqbeg: nat,
                             eqend: nat, e: nat, pivot: T, less: (T, T) -> bool)
    requires Orders(less) && Permuted(start, s, lo, hi) && Fenced(s, lo, hi, b, e, less) && Permuted(s, t, b, e)
    requires Partitioned(t, b, eqbeg, eqend, e, pivot, less)
    requires Permuted(t, u, eqend, e) && SortedRange(u, eqend, e, less)
    ensures Fenced(u, lo, hi, b, eqbeg, less) && Permuted(start, u, lo, hi)
    ensures b <= eqbeg <= eqend <= e <= |t| == |u| && u[b..eqbeg] == t[b..eqbeg]
  {
    FencedParts(s, t, lo, hi, b, eqbeg, eqend, e, pivot, less);
    hide *;
    FenceKept(s, t, lo, hi, b, e, less);
    SameOutside(t, u, eqend, e, b, eqbeg);
    FenceBoth(t, u, lo, hi, b, eqbeg, eqend, e, pivot, less, eqend, e);
    FenceLeft(u, lo, hi, b, eqbeg, eqend, e, pivot, less);
    Widen(start, s, t, u, b, e, eqend, e, lo, hi);
  }

  /** The left part has been sorted: what is left to do is the right part. */
  lemma LeftSorted<T(!new)>(start: seq<T>, s: seq<T>, t: seq<T>, u: seq<T>, lo: nat, hi: nat, b: nat, eqbeg: nat,
                            eqend: nat, e: nat, pivot: T, less: (T, T) -> bool)
    requires Orders(less) && Permuted(start, s, lo, hi) && Fenced(s, lo, hi, b, e, less) && Permuted(s, t, b, e)
    requires Partitioned(t, b, eqbeg, eqend, e, pivot, less)
    requires Permuted(t, u, b, eqbeg) && SortedRange(u, b, eqbeg, less)
    ensures Fenced(u, lo, hi, eqend, e, less) && Permuted(start, u, lo, hi)
    ensures b <= eqbeg <= eqend <= e <= |t| == |u| && u[eqend..e] == t[eqend..e]
  {
    FencedParts(s, t, lo, hi, b, eqbeg, eqend, e, pivot, less);
    hide *;
    FenceKept(s, t, lo, hi, b, e, less);
    SameOutside(t, u, b, eqbeg, eqend, e);
    FenceBoth(t, u, lo, hi, b, eqbeg, eqend, e, pivot, less, b, eqbeg);
    FenceRight(u, lo, hi, b, eqbeg, eqend, e, pivot, less);
    Widen(start, s, t, u, b, e, b, eqbeg, lo, hi);
  }

  lemma FencedParts<T(!new)>(s: seq<T>, t: seq<T>, lo: nat, hi: nat, b: nat, eqbeg: nat, eqend: nat, e: nat, pivot: T,
                             less: (T, T) -> bool)
    requires Fenced(s, lo, hi, b, e, less) && Partitioned(t, b, eqbeg, eqend, e, pivot, less) && Permuted(s, t, b, e)
    ensures lo <= b <= eqbeg <= eqend <= e <= hi <= |s| == |t|
  {
  }

  lemma Deeper(d: nat, part: nat, n: nat)
    requires Shallow(d, part) && 2 * part <= n && 2 <= n
    ensures Shallow(d + 1, n)
  {
  }

  lemma Widen<T(!new)>(start: seq<T>, s: seq<T>, t: seq<T>, u: seq<T>, b: nat, e: nat, x: nat, y: nat, lo: nat, hi: nat)
    requires Permuted(start, s, lo, hi) && Permuted(s, t, b, e) && Permuted(t, u, x, y)
    requires lo <= b <= x <= y <= e <= hi
    ensures Permuted(start, u, lo, hi)
  {
    PermutedWider(s, t, b, e, lo, hi);
    PermutedWider(t, u, x, y, lo, hi);
  }

  lemma BoundedKept<T(!new)>(s: seq<T>, t: seq<T>, lo: nat, hi: nat, less: (T, T) -> bool)
    requires Permuted(s, t, lo, hi) && Bounded(multiset(s[lo..hi]), less)
    ensures Bounded(multiset(t[lo..hi]), less)
  {
    hide Bounded;
  }

  lemma BoundedPart<T(!new)>(s: seq<T>, lo: nat, hi: nat, x: nat, y: nat, less: (T, T) -> bool)
    requires lo <= x <= y <= hi <= |s| && Bounded(multiset(s[lo..hi]), less)
    ensures Bounded(multiset(s[x..y]), less)
  {
    assert s[lo..hi] == s[lo..x] + s[x..y] + s[y..hi];
    assert multiset(s[x..y]) <= multiset(s[lo..hi]);
  }

  /** A range outside the permuted one is as it was. */
  lemma SameOutside<T(!new)>(s: seq<T>, t: seq<T>, lo: nat, hi: nat, x: nat, y: nat)
    requires Permuted(s, t, lo, hi) && x <= y <= |s| && (y <= lo || hi <= x)
    ensures |t| == |s| && t[x..y] == s[x..y]
  {
    PermutedLength(s, t, lo, hi);
    forall k | x <= k < y ensures s[k] == t[k] {
      Outside(s, t, lo, hi, k);
    }
  }

  /** The three candidates for the pivot, in the order of their elements */
  ghost predicate Candidates<T(!new)>(s: seq<T>, b: nat, e: nat, f: nat, m: nat, l: nat, less: (T, T) -> bool) {
    && b + 2 < e <= |s| && multiset{f, m, l} == multiset{b, b + (e - b) / 2, e - 1}
    && f < |s| && m < |s| && l < |s| && !Precedes(less, s[m], s[f]) && !Precedes(less, s[l], s[m])
  }

  lemma Places(f: nat, m: nat, l: nat, first: nat, middle: nat, last: nat)
    requires multiset{f, m, l} == multiset{first, middle, last} && first < middle < last
    ensures first <= m <= last && first <= l <= last && first <= f <= last && m != l && m != f && f != l
  {
    var all := multiset{f, m, l};
    assert f in all && m in all && l in all;
    assert all[m] == 1 && all[f] == 1;
  }

  /** Two equal elements count twice. */
  lemma Twice<T(!new)>(s: seq<T>, lo: nat, hi: nat, m: nat, l: nat)
    requires lo <= m < hi <= |s| && lo <= l < hi && m != l && s[m] == s[l]
    ensures multiset(s[lo..hi])[s[m]] > 1
  {
    var i, j := if m < l then m else l, if m < l then l else m;
    assert s[lo..hi] == s[lo..i] + [s[i]] + s[i + 1..j] + [s[j]] + s[j + 1..hi];
  }

  /** One turn of the loop leaves the range as it is exactly if the pivot counts as before itself and nothing in the
      range is behind it. The right part is always smaller than the range. */
  lemma NoProgressIff<T(!new)>(s: seq<T>, t: seq<T>, b: nat, eqbeg: nat, eqend: nat, e: nat, m: nat,
                               less: (T, T) -> bool)
    requires Permuted(s, t, b, e) && b <= m < e && Orders(less) && Partitioned(t, b, eqbeg, eqend, e, s[m], less)
    ensures b <= eqbeg <= eqend <= e && b < eqend
    ensures eqbeg == e <==> less(s[m], s[m]) && forall k :: b <= k < e ==> !Precedes(less, s[m], s[k])
  {
    PermutedBack(s, t, b, e);
    hide Permuted;
    var n := CameFrom(t, s, b, e, m);
    if eqbeg == e {
      forall k | b <= k < e ensures !Precedes(less, s[m], s[k]) {
        var j := CameFrom(t, s, b, e, k);
      }
    } else if less(s[m], s[m]) {
      var j := CameFrom(s, t, b, e, e - 1);
    }
  }

  /** In a bounded range of more than 16 elements both outer groups of the first turn are smaller than the range. */
  lemma Progress<T(!new)>(s: seq<T>, t: seq<T>, b: nat, eqbeg: nat, eqend: nat, e: nat, f: nat, m: nat, l: nat,
                          less: (T, T) -> bool)
    requires Permuted(s, t, b, e) && Candidates(s, b, e, f, m, l, less) && e - b > 16 && Orders(less)
    requires Bounded(multiset(s[b..e]), less) && Partitioned(t, b, eqbeg, eqend, e, s[m], less)
    ensures b <= eqbeg <= eqend <= e && eqbeg < e && b < eqend
  {
    hide Permuted, Orders, Partitioned, Bounded;
    Places(f, m, l, b, b + (e - b) / 2, e - 1);
    NoProgressIff(s, t, b, eqbeg, eqend, e, m, less);
    if s[m] == s[l] {
      Twice(s, b, e, m, l);
      SomeBehind(s, b, e, s[m], less);
    }
    CandidatesDiffer(s, b, e, f, m, l, less);
  }

  /** If nothing in the range is behind the pivot, the last candidate is the same element. */
  lemma CandidatesDiffer<T(!new)>(s: seq<T>, b: nat, e: nat, f: nat, m: nat, l: nat, less: (T, T) -> bool)
    requires Candidates(s, b, e, f, m, l, less) && Orders(less)
    ensures b <= l < e && (s[m] != s[l] ==> Precedes(less, s[m], s[l]))
  {
    Places(f, m, l, b, b + (e - b) / 2, e - 1);
  }

  /** In a bounded range of more than 16 elements something is behind a repeated element that counts as before
      itself. */
  lemma SomeBehind<T(!new)>(s: seq<T>, b: nat, e: nat, x: T, less: (T, T) -> bool)
    requires b + 16 < e <= |s| && multiset(s[b..e])[x] > 1 && Bounded(multiset(s[b..e]), less)
    ensures less(x, x) ==> exists k :: b <= k < e && Precedes(less, x, s[k])
  {
    var part := s[b..e];
    assert |multiset(part)| == |part|;
    if less(x, x) {
      var y :| y in multiset(part) && Precedes(less, x, y);
      var i :| 0 <= i < |part| && part[i] == y;
      assert s[b + i] == y;
    }
  }

  // ----- lists that are not sparse -----

  /** A turn of the loop on this range changes nothing: the pivot counts as before itself, nothing in the range is
      behind it, so that the whole range is the left group again, and every element stays where it is. */
  ghost predicate Stuck<T(!new)>(s: seq<T>, b: nat, e: nat, less: (T, T) -> bool) {
    && b + 16 < e <= |s|
    && forall f: nat, m: nat, l: nat :: Candidates(s, b, e, f, m, l, less) ==>
         && less(s[m], s[m]) && (forall k :: b <= k < e ==> !Precedes(less, s[m], s[k]))
         && Scan(s, b, e, s[m], less) == s
  }

  /** Elements before the pivot stay where they are. */
  lemma {:induction false} ScanSkips<T(!new)>(s: seq<T>, lt: nat, p: nat, gt: nat, pivot: T, less: (T, T) -> bool)
    requires lt <= p <= gt <= |s| && forall k :: lt <= k < p ==> less(s[k], pivot)
    ensures Scan(s, lt, gt, pivot, less) == Scan(s, p, gt, pivot, less)
    decreases p - lt
  {
    if lt < p {
      ScanSkips(s, lt + 1, p, gt, pivot, less);
    }
  }

  /** What the loop has passed stays as it is. */
  lemma {:induction false} ScanKeepsFront<T(!new)>(s: seq<T>, lt: nat, gt: nat, pivot: T, less: (T, T) -> bool)
    requires lt <= gt <= |s|
    ensures Scan(s, lt, gt, pivot, less)[..lt] == s[..lt]
    ensures Permuted(s, Scan(s, lt, gt, pivot, less), lt, gt)
    decreases gt - lt
  {
    hide Permuted, Scan;
    if lt == gt {
      PermutedSelf(s, lt, gt);
      ScanEnd(s, lt, pivot, less);
    } else {
      ScanStep(s, lt, gt, pivot, less);
      if less(s[lt], pivot) {
        ScanKeepsFront(s, lt + 1, gt, pivot, less);
        PermutedWider(s, Scan(s, lt + 1, gt, pivot, less), lt + 1, gt, lt, gt);
      } else {
        var u := Swapped(s, lt, gt - 1);
        ScanKeepsFront(u, lt, gt - 1, pivot, less);
        SwapPermutes(s, lt, gt - 1, lt, gt);
        PermutedWider(u, Scan(u, lt, gt - 1, pivot, less), lt, gt - 1, lt, gt);
        PermutedTransitive(s, u, Scan(u, lt, gt - 1, pivot, less), lt, gt);
      }
    }
    PermutedFront(s, Scan(s, lt, gt, pivot, less), lt, gt);
  }

  lemma PermutedFront<T(!new)>(s: seq<T>, t: seq<T>, lo: nat, hi: nat)
    requires Permuted(s, t, lo, hi)
    ensures t[..lo] == s[..lo]
  {
  }

  /** A range is stuck if the same greatest element, which counts as before itself, stands at both ends. */
  lemma EndsStick<T(!new)>(s: seq<T>, b: nat, e: nat, x: T, less: (T, T) -> bool)
    requires b + 16 < e <= |s| && s[b] == x && s[e - 1] == x && less(x, x) && Orders(less)
    requires forall k :: b <= k < e ==> !Precedes(less, x, s[k])
    ensures Stuck(s, b, e, less)
  {
    hide Candidates;
    forall f: nat, m: nat, l: nat | Candidates(s, b, e, f, m, l, less)
      ensures m < |s| && s[m] == x && Scan(s, b, e, x, less) == s
    {
      EndsDecide(s, b, e, f, m, l, x, less);
      ScanSkips(s, b, e, e, x, less);
    }
  }

  /** With the same element at both ends the median is that element. */
  lemma EndsDecide<T(!new)>(t: seq<T>, b: nat, e: nat, f: nat, m: nat, l: nat, x: T, less: (T, T) -> bool)
    requires Candidates(t, b, e, f, m, l, less) && t[b] == x && t[e - 1] == x && Orders(less)
    ensures m < |t| && t[m] == x
  {
    Places(f, m, l, b, b + (e - b) / 2, e - 1);
    Among(f, m, l, b, b + (e - b) / 2, e - 1);
  }

  lemma Among(f: nat, m: nat, l: nat, first: nat, middle: nat, last: nat)
    requires multiset{f, m, l} == multiset{first, middle, last} && first < middle < last
    ensures m == first || m == last || (m == middle && ((f == first && l == last) || (f == last && l == first)))
  {
    Places(f, m, l, first, middle, last);
    var all := multiset{first, middle, last};
    assert f in all && m in all && l in all;
  }

  /** The elements of the list that are not behind `x`, or those that are */
  ghost function Side<T(!new)>(s: seq<T>, x: T, behind: bool, less: (T, T) -> bool): (t: seq<T>)
    ensures forall k :: 0 <= k < |t| ==> Precedes(less, x, t[k]) == behind
  {
    if s == [] then []
    else Side(s[..|s| - 1], x, behind, less) + if Precedes(less, x, s[|s| - 1]) == behind then [s[|s| - 1]] else []
  }

  lemma {:induction false} SidesMakeList<T(!new)>(s: seq<T>, x: T, less: (T, T) -> bool)
    ensures multiset(s) == multiset(Side(s, x, false, less)) + multiset(Side(s, x, true, less))
    ensures |Side(s, x, false, less)| == AtOrBefore(s, x, less)
    decreases |s|
  {
    if s != [] {
      SidesMakeList(s[..|s| - 1], x, less);
      assert s == s[..|s| - 1] + [s[|s| - 1]];
    }
  }

  /** A repeated element can be brought to both ends. */
  lemma BothEnds<T(!new)>(s: seq<T>, x: T) returns (t: seq<T>)
    requires multiset(s)[x] > 1
    ensures |t| == |s| >= 2 && multiset(t) == multiset(s) && t[0] == x && t[|t| - 1] == x
  {
    var rest := WithoutOne(s, x);
    var inner := WithoutOne(rest, x);
    t := [x] + inner + [x];
  }

  lemma WithoutOne<T(!new)>(s: seq<T>, x: T) returns (t: seq<T>)
    requires multiset(s)[x] > 0
    ensures |t| == |s| - 1 && multiset(s) == multiset(t) + multiset{x}
  {
    assert x in s;
    var i :| 0 <= i < |s| && s[i] == x;
    t := s[..i] + s[i + 1..];
    assert s == s[..i] + [x] + s[i + 1..];
  }

  /** The arrangement of a list that is not sparse on which `sort` does not end: the pivot `x` of the first turn counts
      as before itself, and the left group `[0, q)` of that turn is stuck. */
  ghost predicate Endless<T(!new)>(t: seq<T>, q: nat, x: T, less: (T, T) -> bool) {
    && q <= |t| && less(x, x)
    && (forall f: nat, m: nat, l: nat :: Candidates(t, 0, |t|, f, m, l, less) ==> t[m] == x)
    && Partitioned(Scan(t, 0, |t|, x, less), 0, q, q, |t|, x, less)
    && Stuck(Scan(t, 0, |t|, x, less), 0, q, less)
  }

  /** The condition is needed: a list that is not sparse can be arranged so that `sort` does not end. */
  lemma SparseIsNeeded<T(!new)>(s: seq<T>, less: (T, T) -> bool) returns (t: seq<T>, q: nat, x: T)
    requires Orders(less) && !Sparse(s, less)
    ensures multiset(t) == multiset(s) && Endless(t, q, x, less)
    ensures t != [] && t[0] == x && t[|t| - 1] == x
  {
    hide *;
    x := Witness(s, less);
    SidesMakeList(s, x, less);
    var left, right := Side(s, x, false, less), Side(s, x, true, less);
    q := |left|;
    NotBehind(left, right, x, less);
    var ends := BothEnds(left, x);
    t := ends[..q - 1] + right + [x];
    assert t[0] == ends[0];
    SameElements(ends, right, x);
    FrontKept(left, ends, x, less);
    ArrangedEndless(ends, right, x, less);
  }

  lemma Witness<T(!new)>(s: seq<T>, less: (T, T) -> bool) returns (x: T)
    requires !Sparse(s, less)
    ensures less(x, x) && multiset(s)[x] > 1 && AtOrBefore(s, x, less) > 16
  {
    x :| less(x, x) && multiset(s)[x] > 1 && AtOrBefore(s, x, less) > 16;
  }

  lemma SameElements<T(!new)>(ends: seq<T>, right: seq<T>, x: T)
    requires ends != [] && ends[|ends| - 1] == x
    ensures multiset(ends[..|ends| - 1] + right + [x]) == multiset(ends) + multiset(right)
  {
    assert ends == ends[..|ends| - 1] + [x];
  }

  lemma FrontKept<T(!new)>(left: seq<T>, ends: seq<T>, x: T, less: (T, T) -> bool)
    requires multiset(ends) == multiset(left) && forall k :: 0 <= k < |left| ==> !Precedes(less, x, left[k])
    ensures forall k :: 0 <= k < |ends| ==> !Precedes(less, x, ends[k])
  {
    hide Precedes;
    forall k | 0 <= k < |ends| ensures !Precedes(less, x, ends[k]) {
      assert ends[k] in multiset(left);
      assert ends[k] in left;
    }
  }

  lemma NotBehind<T(!new)>(left: seq<T>, right: seq<T>, x: T, less: (T, T) -> bool)
    requires multiset(left)[x] + multiset(right)[x] > 1 && forall k :: 0 <= k < |right| ==> Precedes(less, x, right[k])
    ensures multiset(left)[x] > 1
  {
    assert x !in right;
  }

  lemma ArrangedEndless<T(!new)>(ends: seq<T>, right: seq<T>, x: T, less: (T, T) -> bool)
    requires |ends| > 16 && ends[0] == x && ends[|ends| - 1] == x && less(x, x) && Orders(less)
    requires forall k :: 0 <= k < |ends| ==> !Precedes(less, x, ends[k])
    requires forall k :: 0 <= k < |right| ==> Precedes(less, x, right[k])
    ensures Endless(ends[..|ends| - 1] + right + [x], |ends|, x, less)
  {
    var q, t := |ends|, ends[..|ends| - 1] + right + [x];
    var u := Scan(t, 0, |t|, x, less);
    ArrangedScan(ends, right, x, less);
    assert u == ends + u[q..];
    assert forall k :: 0 <= k < q ==> u[k] == ends[k];
    hide Scan;
    EndsStick(u, 0, q, x, less);
    assert Partitioned(u, 0, q, q, |t|, x, less);
    forall f: nat, m: nat, l: nat | Candidates(t, 0, |t|, f, m, l, less) ensures t[m] == x {
      EndsDecide(t, 0, |t|, f, m, l, x, less);
    }
  }

  /** The partition swaps the last copy of `x` with the first element behind `x` and leaves the rest of the left
      group. */
  lemma ArrangedScan<T(!new)>(ends: seq<T>, right: seq<T>, x: T, less: (T, T) -> bool)
    requires |ends| > 16 && ends[|ends| - 1] == x && less(x, x) && Orders(less)
    requires forall k :: 0 <= k < |ends| ==> !Precedes(less, x, ends[k])
    requires forall k :: 0 <= k < |right| ==> Precedes(less, x, right[k])
    ensures var t := ends[..|ends| - 1] + right + [x]; var u := Scan(t, 0, |t|, x, less);
      u[..|ends|] == ends && forall k :: |ends| <= k < |t| ==> Precedes(less, x, u[k])
  {
    var q, t := |ends|, ends[..|ends| - 1] + right + [x];
    var u, n := Scan(t, 0, |t|, x, less), |t|;
    ScanSkips(t, 0, q - 1, n, x, less);
    ScanStep(t, q - 1, n, x, less);
    if right == [] {
      assert t == ends;
      ScanSkips(t, 0, q, q, x, less);
    } else {
      var v := Swapped(t, q - 1, n - 1);
      ScanStep(v, q - 1, n - 1, x, less);
      ScanKeepsFront(v, q, n - 1, x, less);
      assert v[..q] == ends;
      forall k | q <= k < n ensures Precedes(less, x, u[k]) {
        if k < n - 1 {
          var j := CameFrom(v, u, q, n - 1, k);
        } else {
          Outside(v, u, q, n - 1, k);
        }
      }
    }
  }

  /** `t` is what one turn of the loop makes of the range before it sorts a part: `m` is the place of the pivot. */
  ghost predicate Turned<T(!new)>(s: seq<T>, t: seq<T>, b: nat, e: nat, f: nat, m: nat, l: nat, eqbeg: nat, eqend: nat,
                                  less: (T, T) -> bool) {
    && Candidates(s, b, e, f, m, l, less) && Permuted(s, t, b, e)
    && Partitioned(t, b, eqbeg, eqend, e, s[m], less)
  }

  /** One element behind many copies of an element that counts as before itself: whatever the pivot, the first turn
      leaves the copies as the left group, and that group is stuck. */
  lemma CopiesStay<T(!new)>(z: T, x: T, n: nat, less: (T, T) -> bool, f: nat, m: nat, l: nat, t: seq<T>, eqbeg: nat,
                            eqend: nat)
    requires n >= 17 && less(x, x) && Precedes(less, x, z) && Orders(less)
    requires Turned(InFront(z, x, n), t, 0, n + 1, f, m, l, eqbeg, eqend, less)
    ensures eqbeg == eqend == n && Stuck(t, 0, n, less)
  {
    var s := InFront(z, x, n);
    hide Permuted, Stuck;
    Places(f, m, l, 0, (n + 1) / 2, n);
    assert s[m] == x;
    PermutedLength(s, t, 0, n + 1);
    forall k | 0 <= k < n + 1 ensures t[k] == x || t[k] == z {
      var h := CameFrom(s, t, 0, n + 1, k);
    }
    PermutedBack(s, t, 0, n + 1);
    var k := CameFrom(t, s, 0, n + 1, 0);
    assert t[k] == z && eqend <= k;
    OnceInFront(z, x, n);
    Same(s, t, n + 1);
    if eqend < n {
      assert t[n - 1] == z && t[n] == z;
      Twice(t, 0, n + 1, n - 1, n);
    }
    assert forall k :: 0 <= k < n ==> t[k] == x;
    EndsStick(t, 0, n, x, less);
  }

  function InFront<T>(z: T, x: T, n: nat): (s: seq<T>)
    ensures |s| == n + 1 && s[0] == z && forall k :: 0 < k <= n ==> s[k] == x
  {
    [z] + seq(n, i => x)
  }

  lemma Same<T(!new)>(s: seq<T>, t: seq<T>, n: nat)
    requires Permuted(s, t, 0, n) && |s| == n
    ensures multiset(t[0..n]) == multiset(s)
  {
    assert s[0..n] == s;
  }

  lemma {:induction false} OnceInFront<T(!new)>(z: T, x: T, n: nat)
    requires z != x
    ensures multiset(InFront(z, x, n))[z] == 1
  {
    var c := seq(n, i => x);
    assert z !in c;
  }

  lemma PermutedBack<T(!new)>(s: seq<T>, t: seq<T>, lo: nat, hi: nat)
    requires Permuted(s, t, lo, hi)
    ensures Permuted(t, s, lo, hi)
  {
  }
}
