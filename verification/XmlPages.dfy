/** The page list of the document allocator as a value: what is carved out of each page, what has been given back, and
    what whole runs of requests keep. */
module XmlPages {
  /** `sizeof(void*)`, `sizeof(xml_memory_page)` and `xml_memory_page_size` on a 64-bit target */
  const ALIGN: nat := 8
  const PAGE_HEADER: nat := 40
  const PAGE_SIZE: nat := 32768 - PAGE_HEADER

  /** `large_allocation_threshold` */
  const LARGE: nat := PAGE_SIZE / 4

  /** A live block of a page: an object, or a string with its header in front. */
  datatype Block = Block(offset: nat, size: nat, isString: bool)

  /** `live` lists the blocks not yet given back, in the order they were carved out. */
  datatype Page = Page(base: nat, capacity: nat, busy: nat, freed: nat, live: seq<Block>)

  /** A live block in absolute addresses, with the address of its page */
  datatype Extent = Extent(base: nat, start: nat, size: nat, isString: bool)

  function DataOf(p: Page): nat {
    p.base + PAGE_HEADER
  }

  function ExtentOf(p: Page, b: Block): Extent {
    Extent(p.base, DataOf(p) + b.offset, b.size, b.isString)
  }

  function Total(live: seq<Block>): nat {
    if live == [] then 0 else Total(live[..|live| - 1]) + live[|live| - 1].size
  }

  predicate Aligned(b: Block) {
    0 < b.size && b.size % ALIGN == 0 && b.offset % ALIGN == 0
  }

  /** The blocks are aligned, in order of address, apart, and end before `busy`. */
  predicate Carved(live: seq<Block>, busy: nat) {
    && (forall k :: 0 <= k < |live| ==> Aligned(live[k]) && live[k].offset + live[k].size <= busy)
    && (forall k, l :: 0 <= k < l < |live| ==> live[k].offset + live[k].size <= live[l].offset)
  }

  /** A page above the ordinary size belongs to one block. */
  predicate Solo(p: Page) {
    PAGE_SIZE < p.capacity ==> p.busy == p.capacity && forall k :: 0 <= k < |p.live| ==> p.live[k].size == p.capacity
  }

  /** Every busy byte is live or freed. */
  predicate PageSound(p: Page) {
    && p.busy <= p.capacity && p.busy % ALIGN == 0 && Carved(p.live, p.busy)
    && Total(p.live) + p.freed == p.busy && Solo(p)
  }

  /** The document's own first page, which pretends to be full */
  predicate Sentinel(p: Page) {
    p.capacity == 0 && p.busy == PAGE_SIZE && p.freed == 0 && p.live == []
  }

  predicate Apart(p: Page, q: Page) {
    DataOf(p) + p.capacity <= q.base || DataOf(q) + q.capacity <= p.base
  }

  /** A page to carve from: of the ordinary size, and started over when nothing in it is live */
  predicate Fresh(p: Page) {
    p.capacity == PAGE_SIZE && (p.live == [] ==> p.busy == 0)
  }

  /** The last page, from which small blocks are carved, is an ordinary one; it alone may be empty; and pages lie
      apart. */
  predicate Sound(ps: seq<Page>) {
    && |ps| > 0 && Sentinel(ps[0])
    && (forall i :: 0 <= i < |ps| ==> ps[i].base % ALIGN == 0)
    && (forall i :: 0 < i < |ps| ==> PageSound(ps[i]))
    && (forall i :: 0 < i < |ps| - 1 ==> ps[i].live != [])
    && (|ps| > 1 ==> Fresh(ps[|ps| - 1]))
    && (forall i, j :: 0 <= i < j < |ps| ==> Apart(ps[i], ps[j]))
  }

  function Extents(p: Page): set<Extent> {
    set k | 0 <= k < |p.live| :: ExtentOf(p, p.live[k])
  }

  /** All live blocks */
  function Outstanding(ps: seq<Page>): set<Extent> {
    set i, e | 0 <= i < |ps| && e in Extents(ps[i]) :: e
  }

  predicate Disjoint(a: Extent, b: Extent) {
    a.start + a.size <= b.start || b.start + b.size <= a.start
  }

  /** The bytes of `e` are data bytes of `p`. */
  predicate Inside(e: Extent, p: Page) {
    DataOf(p) <= e.start && e.start + e.size <= DataOf(p) + p.capacity && 0 < e.size
  }

  /** The new page of `allocate_memory_oob`, if one is needed */
  function NewPage(place: nat, size: nat, isString: bool): Page {
    Page(place, if size <= LARGE then PAGE_SIZE else size, size, 0, [Block(0, size, isString)])
  }

  predicate NeedsPage(ps: seq<Page>, size: nat)
    requires |ps| > 0
  {
    ps[|ps| - 1].busy + size > PAGE_SIZE
  }

  /** The system gives memory that is aligned and free. */
  predicate Vacant(ps: seq<Page>, p: Page) {
    p.base % ALIGN == 0 && forall i :: 0 <= i < |ps| ==> Apart(ps[i], p)
  }

  /** `allocate_memory` may be called: sizes are whole numbers of alignment units, a large block needs an ordinary page
      to go before, and new memory is vacant. */
  predicate MayTake(ps: seq<Page>, size: nat, isString: bool, place: nat)
    requires |ps| > 0
  {
    && 0 < size && size % ALIGN == 0
    && (NeedsPage(ps, size) ==> (LARGE < size ==> |ps| > 1) && Vacant(ps, NewPage(place, size, isString)))
  }

  /** The list with `p` in front of the last page */
  function Tucked(ps: seq<Page>, p: Page): (r: seq<Page>)
    requires |ps| > 0
    ensures |r| == |ps| + 1
  {
    ps[..|ps| - 1] + [p] + [ps[|ps| - 1]]
  }

  /** The page list after `allocate_memory`: the last page goes on, a new page becomes the last, or a large block gets a
      page of its own before the last. */
  function Take(ps: seq<Page>, size: nat, isString: bool, place: nat): seq<Page>
    requires |ps| > 0 && MayTake(ps, size, isString, place)
  {
    var last := |ps| - 1;
    var p := NewPage(place, size, isString);
    if !NeedsPage(ps, size) then ps[last := Grown(ps[last], size, isString)]
    else if size <= LARGE then ps + [p]
    else Tucked(ps, p)
  }

  function Grown(p: Page, size: nat, isString: bool): Page {
    p.(busy := p.busy + size, live := p.live + [Block(p.busy, size, isString)])
  }

  /** Where the new block is */
  function Given(ps: seq<Page>, size: nat, isString: bool, place: nat): Extent
    requires |ps| > 0
  {
    var p := ps[|ps| - 1];
    if NeedsPage(ps, size) then Extent(place, place + PAGE_HEADER, size, isString)
    else Extent(p.base, DataOf(p) + p.busy, size, isString)
  }

  function Without<T>(s: seq<T>, k: nat): seq<T>
    requires k < |s|
  {
    s[..k] + s[k + 1..]
  }

  predicate IsLive(ps: seq<Page>, i: nat, k: nat) {
    i < |ps| && k < |ps[i].live|
  }

  /** A page one of whose blocks has been given back */
  function Shrunk(p: Page, k: nat): Page
    requires k < |p.live|
  {
    p.(freed := p.freed + p.live[k].size, live := Without(p.live, k))
  }

  /** The page list after `deallocate_memory`: an exhausted page leaves the list, or starts over if it is the last. */
  function Give(ps: seq<Page>, i: nat, k: nat): seq<Page>
    requires IsLive(ps, i, k)
  {
    var p := Shrunk(ps[i], k);
    if p.freed != p.busy then ps[i := p]
    else if i == |ps| - 1 then ps[i := p.(busy := 0, freed := 0)]
    else Without(ps, i)
  }

  // ----- sums -----

  lemma {:induction false} TotalOfBlocks(live: seq<Block>)
    requires forall k :: 0 <= k < |live| ==> 0 < live[k].size
    ensures Total(live) == 0 <==> live == []
  {}

  lemma {:induction false} TotalWithout(live: seq<Block>, k: nat)
    requires k < |live|
    ensures Total(Without(live, k)) + live[k].size == Total(live)
  {
    var n := |live| - 1;
    if k == n {
      assert Without(live, k) == live[..n];
    } else {
      TotalWithout(live[..n], k);
      var w := Without(live, k);
      assert w[..|w| - 1] == Without(live[..n], k);
    }
  }

  lemma TotalAppended(live: seq<Block>, b: Block)
    ensures Total(live + [b]) == Total(live) + b.size
  {
    assert (live + [b])[..|live|] == live;
  }

  // ----- taking -----

  lemma GrownSound(p: Page, size: nat, isString: bool)
    requires PageSound(p) && 0 < size && size % ALIGN == 0 && p.busy + size <= p.capacity
    ensures PageSound(Grown(p, size, isString))
  {
    TotalAppended(p.live, Block(p.busy, size, isString));
  }

  lemma NewPageSound(place: nat, size: nat, isString: bool)
    requires 0 < size && size % ALIGN == 0
    ensures PageSound(NewPage(place, size, isString))
  {
    TotalAppended([], Block(0, size, isString));
    assert [] + [Block(0, size, isString)] == [Block(0, size, isString)];
  }

  lemma Replaced(ps: seq<Page>, i: nat, p: Page)
    requires Sound(ps) && 0 < i < |ps| && PageSound(p) && p.base == ps[i].base && p.capacity == ps[i].capacity
    requires if i < |ps| - 1 then p.live != [] else Fresh(p)
    ensures Sound(ps[i := p])
  {
    hide PageSound, Fresh;
    var qs := ps[i := p];
    assert forall j :: 0 <= j < |qs| ==> qs[j].base == ps[j].base && qs[j].capacity == ps[j].capacity;
  }

  lemma Appended(ps: seq<Page>, p: Page)
    requires Sound(ps) && PageSound(p) && Fresh(p) && Vacant(ps, p) && (|ps| > 1 ==> ps[|ps| - 1].live != [])
    ensures Sound(ps + [p])
  {
    hide PageSound, Fresh;
  }

  lemma TuckedAt(ps: seq<Page>, p: Page, j: nat)
    requires |ps| > 0 && j <= |ps|
    ensures Tucked(ps, p)[j] == if j < |ps| - 1 then ps[j] else if j == |ps| - 1 then p else ps[|ps| - 1]
  {}

  lemma TuckedApart(ps: seq<Page>, p: Page, i: nat, j: nat)
    requires Sound(ps) && Vacant(ps, p) && i < j <= |ps|
    ensures Apart(Tucked(ps, p)[i], Tucked(ps, p)[j])
  {
    hide PageSound, Fresh, Tucked, Sentinel;
    TuckedAt(ps, p, i);
    TuckedAt(ps, p, j);
  }

  lemma TuckedSound(ps: seq<Page>, p: Page)
    requires Sound(ps) && |ps| > 1 && PageSound(p) && p.live != [] && Vacant(ps, p)
    ensures Sound(Tucked(ps, p))
  {
    hide PageSound, Fresh, Tucked, Apart;
    forall j: nat | j <= |ps|
      ensures Tucked(ps, p)[j] == if j < |ps| - 1 then ps[j] else if j == |ps| - 1 then p else ps[|ps| - 1]
    {
      TuckedAt(ps, p, j);
    }
    forall i: nat, j: nat | i < j <= |ps|
      ensures Apart(Tucked(ps, p)[i], Tucked(ps, p)[j])
    {
      TuckedApart(ps, p, i, j);
    }
  }

  /** Allocation keeps the page list sound. */
  lemma TakeSound(ps: seq<Page>, size: nat, isString: bool, place: nat)
    requires Sound(ps) && MayTake(ps, size, isString, place)
    ensures Sound(Take(ps, size, isString, place))
  {
    hide Sound, PageSound, Carved, Vacant;
    var last := |ps| - 1;
    LastPage(ps);
    if !NeedsPage(ps, size) {
      GrownSound(ps[last], size, isString);
      Replaced(ps, last, Grown(ps[last], size, isString));
    } else {
      NewPageSound(place, size, isString);
      if size <= LARGE {
        Appended(ps, NewPage(place, size, isString));
      } else {
        TuckedSound(ps, NewPage(place, size, isString));
      }
    }
  }

  lemma LastPage(ps: seq<Page>)
    requires Sound(ps)
    ensures |ps| > 0
    ensures |ps| == 1 ==> ps[0].busy == PAGE_SIZE
    ensures |ps| > 1 ==> PageSound(ps[|ps| - 1]) && Fresh(ps[|ps| - 1])
  {}

  // ----- giving back -----

  lemma CarvedWithout(live: seq<Block>, busy: nat, k: nat)
    requires Carved(live, busy) && k < |live|
    ensures Carved(Without(live, k), busy)
  {
    var w := Without(live, k);
    assert forall l :: 0 <= l < |w| ==> w[l] == live[if l < k then l else l + 1];
  }

  /** The accounting of a page says it is exhausted exactly when its last live block has been given back. */
  lemma ShrunkSound(p: Page, k: nat)
    requires PageSound(p) && k < |p.live|
    ensures PageSound(Shrunk(p, k))
    ensures Shrunk(p, k).freed == p.busy <==> |p.live| == 1
  {
    CarvedWithout(p.live, p.busy, k);
    TotalWithout(p.live, k);
    TotalOfBlocks(Without(p.live, k));
  }

  lemma RemovedSound(ps: seq<Page>, i: nat)
    requires Sound(ps) && 0 < i < |ps| - 1
    ensures Sound(Without(ps, i))
  {
    hide PageSound, Fresh, Apart, Sentinel;
    var w := Without(ps, i);
    assert forall l :: 0 <= l < |w| ==> w[l] == ps[if l < i then l else l + 1];
  }

  lemma LivePage(ps: seq<Page>, i: nat, k: nat)
    requires Sound(ps) && IsLive(ps, i, k)
    ensures 0 < i && PageSound(ps[i])
    ensures i == |ps| - 1 ==> ps[i].capacity == PAGE_SIZE
  {}

  lemma StartedOver(p: Page)
    requires PageSound(p) && p.freed == p.busy
    ensures p.capacity <= PAGE_SIZE ==> PageSound(p.(busy := 0, freed := 0))
    ensures p.live == []
  {
    TotalOfBlocks(p.live);
  }

  /** Deallocation keeps the page list sound. */
  lemma GiveSound(ps: seq<Page>, i: nat, k: nat)
    requires Sound(ps) && IsLive(ps, i, k)
    ensures i > 0 && Sound(Give(ps, i, k))
  {
    hide Sound, PageSound, Without;
    LivePage(ps, i, k);
    ShrunkSound(ps[i], k);
    WithoutEmpty(ps[i].live, k);
    var p := Shrunk(ps[i], k);
    if p.freed != p.busy {
      Replaced(ps, i, p);
    } else if i == |ps| - 1 {
      StartedOver(p);
      Replaced(ps, i, p.(busy := 0, freed := 0));
    } else {
      RemovedSound(ps, i);
    }
  }

  lemma WithoutEmpty<T>(s: seq<T>, k: nat)
    requires k < |s|
    ensures Without(s, k) == [] <==> |s| == 1
  {}

  // ----- live blocks -----

  lemma ExtentsInside(p: Page, e: Extent)
    requires PageSound(p) && e in Extents(p)
    ensures Inside(e, p) && e.start % ALIGN == p.base % ALIGN
  {
    var k :| 0 <= k < |p.live| && e == ExtentOf(p, p.live[k]);
    assert Aligned(p.live[k]);
  }

  lemma BlocksDisjoint(p: Page, k: nat, l: nat)
    requires PageSound(p) && k < |p.live| && l < |p.live| && k != l
    ensures Disjoint(ExtentOf(p, p.live[k]), ExtentOf(p, p.live[l]))
    ensures ExtentOf(p, p.live[k]) != ExtentOf(p, p.live[l])
  {
    if k < l {
      assert p.live[k].offset + p.live[k].size <= p.live[l].offset && Aligned(p.live[k]);
    } else {
      assert p.live[l].offset + p.live[l].size <= p.live[k].offset && Aligned(p.live[l]);
    }
  }

  lemma PagesDisjoint(p: Page, q: Page, a: Extent, b: Extent)
    requires Apart(p, q) && Inside(a, p) && Inside(b, q)
    ensures Disjoint(a, b) && a != b
  {}

  lemma PageOf(ps: seq<Page>, e: Extent) returns (i: nat)
    requires e in Outstanding(ps)
    ensures i < |ps| && e in Extents(ps[i])
  {
    i :| i < |ps| && e in Extents(ps[i]);
  }

  lemma BlockOf(p: Page, e: Extent) returns (k: nat)
    requires e in Extents(p)
    ensures k < |p.live| && e == ExtentOf(p, p.live[k])
  {
    k :| k < |p.live| && e == ExtentOf(p, p.live[k]);
  }

  lemma SoundPage(ps: seq<Page>, i: nat, e: Extent)
    requires Sound(ps) && i < |ps| && e in Extents(ps[i])
    ensures 0 < i && PageSound(ps[i]) && Inside(e, ps[i])
  {
    var k := BlockOf(ps[i], e);
    LivePage(ps, i, k);
    ExtentsInside(ps[i], e);
  }

  lemma ApartPages(ps: seq<Page>, i: nat, j: nat)
    requires Sound(ps) && i < |ps| && j < |ps| && i != j
    ensures Apart(ps[i], ps[j])
  {
    if i < j { assert Apart(ps[i], ps[j]); } else { assert Apart(ps[j], ps[i]); }
  }

  /** Live blocks lie inside pages of the list and never overlap. */
  lemma LiveBlocksApart(ps: seq<Page>, a: Extent, b: Extent)
    requires Sound(ps) && a in Outstanding(ps) && b in Outstanding(ps) && a != b
    ensures Disjoint(a, b)
    ensures exists i :: 0 <= i < |ps| && Inside(a, ps[i])
  {
    hide Sound, PageSound, Outstanding, Extents;
    var i := PageOf(ps, a);
    var j := PageOf(ps, b);
    SoundPage(ps, i, a);
    SoundPage(ps, j, b);
    if i == j {
      var k := BlockOf(ps[i], a);
      var l := BlockOf(ps[j], b);
      BlocksDisjoint(ps[i], k, l);
    } else {
      ApartPages(ps, i, j);
      PagesDisjoint(ps[i], ps[j], a, b);
    }
  }

  lemma GrownExtents(p: Page, size: nat, isString: bool)
    ensures Extents(Grown(p, size, isString)) == Extents(p) + {Extent(p.base, DataOf(p) + p.busy, size, isString)}
  {
    var g := Grown(p, size, isString);
    var e := Extent(p.base, DataOf(p) + p.busy, size, isString);
    assert g.live[|p.live|] == Block(p.busy, size, isString);
    assert forall k :: 0 <= k < |p.live| ==> g.live[k] == p.live[k];
    forall x | x in Extents(p) + {e} ensures x in Extents(g) {
      if x == e {
        assert ExtentOf(g, g.live[|p.live|]) == e;
      } else {
        var k := BlockOf(p, x);
        assert ExtentOf(g, g.live[k]) == x;
      }
    }
  }

  lemma MoreOutstanding(ps: seq<Page>, i: nat, p: Page, e: Extent)
    requires i < |ps| && Extents(p) == Extents(ps[i]) + {e}
    ensures Outstanding(ps[i := p]) == Outstanding(ps) + {e}
  {
    hide Extents;
    var qs := ps[i := p];
    assert qs[i] == p;
    forall x | x in Outstanding(ps) + {e} ensures x in Outstanding(qs) {
      if x != e {
        var j := PageOf(ps, x);
        assert x in Extents(qs[j]);
      }
    }
  }

  /** Pages added at position `i` */
  lemma AddedOutstanding(ps: seq<Page>, i: nat, p: Page)
    requires i <= |ps|
    ensures Outstanding(ps[..i] + [p] + ps[i..]) == Outstanding(ps) + Extents(p)
  {
    hide Extents;
    var qs := ps[..i] + [p] + ps[i..];
    assert qs[i] == p;
    forall x | x in Outstanding(ps) + Extents(p) ensures x in Outstanding(qs) {
      if x !in Extents(p) {
        var j := PageOf(ps, x);
        assert qs[if j < i then j else j + 1] == ps[j];
      }
    }
    forall x | x in Outstanding(qs) ensures x in Outstanding(ps) + Extents(p) {
      var j := PageOf(qs, x);
      if j != i { assert ps[if j < i then j else j - 1] == qs[j]; }
    }
  }

  lemma NewPageExtents(place: nat, size: nat, isString: bool)
    ensures Extents(NewPage(place, size, isString)) == {Extent(place, place + PAGE_HEADER, size, isString)}
  {
    var p := NewPage(place, size, isString);
    assert ExtentOf(p, p.live[0]) == Extent(place, place + PAGE_HEADER, size, isString);
  }

  /** Allocation adds one live block and changes no other. */
  lemma TakeOutstanding(ps: seq<Page>, size: nat, isString: bool, place: nat)
    requires Sound(ps) && MayTake(ps, size, isString, place)
    ensures Outstanding(Take(ps, size, isString, place)) == Outstanding(ps) + {Given(ps, size, isString, place)}
  {
    hide Sound, Outstanding, Extents, Grown;
    LastPage(ps);
    var last := |ps| - 1;
    var p := NewPage(place, size, isString);
    NewPageExtents(place, size, isString);
    if !NeedsPage(ps, size) {
      GrownExtents(ps[last], size, isString);
      MoreOutstanding(ps, last, Grown(ps[last], size, isString), Given(ps, size, isString, place));
    } else if size <= LARGE {
      AddedOutstanding(ps, |ps|, p);
      assert ps[..|ps|] + [p] + ps[|ps|..] == ps + [p];
    } else {
      AddedOutstanding(ps, last, p);
      assert ps[last..] == [ps[last]];
    }
  }

  /** The new block overlaps no live block. */
  lemma TakeApart(ps: seq<Page>, size: nat, isString: bool, place: nat, e: Extent)
    requires Sound(ps) && MayTake(ps, size, isString, place) && e in Outstanding(ps)
    ensures Disjoint(e, Given(ps, size, isString, place)) && e != Given(ps, size, isString, place)
  {
    hide Sound, PageSound, Outstanding, Extents, Sentinel;
    var i := PageOf(ps, e);
    SoundPage(ps, i, e);
    var last := |ps| - 1;
    var g := Given(ps, size, isString, place);
    if NeedsPage(ps, size) {
      PagesDisjoint(ps[i], NewPage(place, size, isString), e, g);
    } else if i == last {
      BehindBusy(ps[i], e);
    } else {
      ApartPages(ps, i, last);
      LastPage(ps);
      LastHasRoom(ps, size);
      PagesDisjoint(ps[i], ps[last], e, g);
    }
  }

  lemma BehindBusy(p: Page, e: Extent)
    requires PageSound(p) && e in Extents(p)
    ensures e.start + e.size <= DataOf(p) + p.busy && 0 < e.size
  {
    var k := BlockOf(p, e);
    assert Aligned(p.live[k]);
  }

  lemma LastHasRoom(ps: seq<Page>, size: nat)
    requires Sound(ps) && 0 < size && !NeedsPage(ps, size)
    ensures var p := ps[|ps| - 1]; |ps| > 1 && p.busy + size <= p.capacity
  {}

  lemma ShrunkExtents(p: Page, k: nat)
    requires PageSound(p) && k < |p.live|
    ensures Extents(Shrunk(p, k)) == Extents(p) - {ExtentOf(p, p.live[k])}
  {
    hide PageSound, Extents;
    var q, e := Shrunk(p, k), ExtentOf(p, p.live[k]);
    assert forall l :: 0 <= l < |q.live| ==> q.live[l] == p.live[if l < k then l else l + 1];
    forall x | x in Extents(q) ensures x in Extents(p) - {e} {
      var l := BlockOf(q, x);
      BlocksDisjoint(p, if l < k then l else l + 1, k);
      LiveExtent(p, if l < k then l else l + 1);
      assert x == ExtentOf(p, p.live[if l < k then l else l + 1]);
    }
    forall x | x in Extents(p) - {e} ensures x in Extents(q) {
      var l := BlockOf(p, x);
      LiveExtent(q, if l < k then l else l - 1);
      assert x == ExtentOf(q, q.live[if l < k then l else l - 1]);
    }
  }

  /** No other page has the block. */
  lemma OnlyThere(ps: seq<Page>, i: nat, j: nat, e: Extent)
    requires Sound(ps) && i < |ps| && j < |ps| && i != j && e in Extents(ps[i])
    ensures e !in Extents(ps[j])
  {
    hide Sound, PageSound, Extents;
    if e in Extents(ps[j]) {
      SoundPage(ps, i, e);
      SoundPage(ps, j, e);
      ApartPages(ps, i, j);
      PagesDisjoint(ps[i], ps[j], e, e);
    }
  }

  lemma FewerOutstanding(ps: seq<Page>, i: nat, p: Page, e: Extent)
    requires Sound(ps) && i < |ps| && e in Extents(ps[i]) && Extents(p) == Extents(ps[i]) - {e}
    ensures Outstanding(ps[i := p]) == Outstanding(ps) - {e}
  {
    hide Sound, Extents;
    var qs := ps[i := p];
    forall x | x in Outstanding(ps) - {e} ensures x in Outstanding(qs) {
      var j := PageOf(ps, x);
      assert x in Extents(qs[j]);
    }
    forall x | x in Outstanding(qs) ensures x in Outstanding(ps) - {e} {
      var j := PageOf(qs, x);
      if j != i { OnlyThere(ps, i, j, e); }
      assert x in Extents(ps[j]);
    }
  }

  lemma EmptyPageLeaves(ps: seq<Page>, i: nat)
    requires i < |ps| && ps[i].live == []
    ensures Outstanding(Without(ps, i)) == Outstanding(ps)
  {
    var qs := Without(ps, i);
    AddedOutstanding(qs, i, ps[i]);
    assert qs[..i] + [ps[i]] + qs[i..] == ps;
    assert Extents(ps[i]) == {};
  }

  /** Deallocation ends the life of one block and of no other. */
  lemma GiveOutstanding(ps: seq<Page>, i: nat, k: nat)
    requires Sound(ps) && IsLive(ps, i, k)
    ensures Outstanding(Give(ps, i, k)) == Outstanding(ps) - {ExtentOf(ps[i], ps[i].live[k])}
  {
    hide Sound, PageSound, Extents, Outstanding, Without;
    LivePage(ps, i, k);
    var e := ExtentOf(ps[i], ps[i].live[k]);
    var p := Shrunk(ps[i], k);
    LiveExtent(ps[i], k);
    ShrunkSound(ps[i], k);
    ShrunkExtents(ps[i], k);
    FewerOutstanding(ps, i, p, e);
    if p.freed == p.busy {
      StartedOver(p);
      if i == |ps| - 1 {
        SameExtents(p, p.(busy := 0, freed := 0));
        FewerOutstanding(ps, i, p.(busy := 0, freed := 0), e);
      } else {
        EmptyPageLeaves(ps[i := p], i);
        ReplacedWithout(ps, i, p);
      }
    }
  }

  lemma LiveExtent(p: Page, k: nat)
    requires k < |p.live|
    ensures ExtentOf(p, p.live[k]) in Extents(p)
  {}

  lemma SameExtents(p: Page, q: Page)
    requires p.live == q.live && p.base == q.base
    ensures Extents(p) == Extents(q)
  {
    assert forall k :: 0 <= k < |p.live| ==> ExtentOf(p, p.live[k]) == ExtentOf(q, q.live[k]);
  }

  lemma ReplacedWithout<T>(s: seq<T>, i: nat, x: T)
    requires i < |s|
    ensures Without(s[i := x], i) == Without(s, i)
  {}

  /** A page leaves the list exactly when its last live block is given back, unless it is the last page, which starts
      over. */
  lemma PageLeavesExactly(ps: seq<Page>, i: nat, k: nat)
    requires Sound(ps) && IsLive(ps, i, k)
    ensures |Give(ps, i, k)| == |ps| - 1 <==> |ps[i].live| == 1 && i < |ps| - 1
    ensures |Give(ps, i, k)| == |ps| - 1 || |Give(ps, i, k)| == |ps|
    ensures |Give(ps, i, k)| == |ps| - 1 ==> Give(ps, i, k) == ps[..i] + ps[i + 1..]
  {
    LivePage(ps, i, k);
    hide Sound, PageSound;
    ShrunkSound(ps[i], k);
  }

  // ----- runs -----

  datatype Request = Alloc(size: nat, isString: bool, place: nat) | Free(extent: Extent)

  /** What callers may ask for: allocations as above, and the release of what they hold. */
  predicate Legal(ps: seq<Page>, r: Request)
    requires |ps| > 0
  {
    match r
    case Alloc(size, isString, place) => MayTake(ps, size, isString, place)
    case Free(e) => e in Outstanding(ps)
  }

  lemma PlaceOf(ps: seq<Page>, e: Extent) returns (i: nat, k: nat)
    requires e in Outstanding(ps)
    ensures IsLive(ps, i, k) && ExtentOf(ps[i], ps[i].live[k]) == e
  {
    i := PageOf(ps, e);
    k := BlockOf(ps[i], e);
  }

  /** `qs` is the page list after the request. */
  ghost predicate Steps(ps: seq<Page>, r: Request, qs: seq<Page>)
    requires |ps| > 0 && Legal(ps, r)
  {
    match r
    case Alloc(size, isString, place) => qs == Take(ps, size, isString, place)
    case Free(e) => exists i: nat, k: nat ::
      IsLive(ps, i, k) && ExtentOf(ps[i], ps[i].live[k]) == e && qs == Give(ps, i, k)
  }

  /** `states` are the page lists of a run of legal requests from a fresh document. */
  ghost predicate Run(states: seq<seq<Page>>, rs: seq<Request>) {
    && |states| == |rs| + 1
    && (exists base: nat :: base % ALIGN == 0 && states[0] == [Page(base, 0, PAGE_SIZE, 0, [])])
    && forall n :: 0 <= n < |rs| ==>
         |states[n]| > 0 && Legal(states[n], rs[n]) && Steps(states[n], rs[n], states[n + 1])
  }

  /** What the callers of a run hold: everything they were given and have not given back */
  function Held(states: seq<seq<Page>>, rs: seq<Request>): set<Extent>
    requires |states| == |rs| + 1 && forall n :: 0 <= n < |rs| ==> |states[n]| > 0
  {
    if rs == [] then {}
    else
      var n := |rs| - 1;
      var before := Held(states[..|rs|], rs[..n]);
      match rs[n]
      case Alloc(size, isString, place) => before + {Given(states[n], size, isString, place)}
      case Free(e) => before - {e}
  }

  /** After every run the page list is sound and its live blocks are exactly what the callers hold. */
  lemma {:induction false} RunIsSafe(states: seq<seq<Page>>, rs: seq<Request>)
    requires Run(states, rs)
    ensures Sound(states[|rs|]) && Outstanding(states[|rs|]) == Held(states, rs)
  {
    if rs == [] {
      assert Outstanding(states[0]) == {};
    } else {
      var n := |rs| - 1;
      assert states[..|rs|][0] == states[0];
      RunIsSafe(states[..|rs|], rs[..n]);
      var ps := states[n];
      match rs[n]
      case Alloc(size, isString, place) =>
        TakeSound(ps, size, isString, place);
        TakeOutstanding(ps, size, isString, place);
      case Free(e) =>
        var i: nat, k: nat :| IsLive(ps, i, k) && ExtentOf(ps[i], ps[i].live[k]) == e
          && states[n + 1] == Give(ps, i, k);
        GiveSound(ps, i, k);
        GiveOutstanding(ps, i, k);
    }
  }
}
