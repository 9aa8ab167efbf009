/** `xml_allocator`: pages linked in a list, carved from the end of the last one, and strings that find their page and
    size again from a four-byte header. */
module XmlAllocator {
  import opened XmlPages

  /** `max_encoded_offset` and `sizeof(xml_memory_string_header)` */
  const MAX_ENCODED: nat := 0x1_0000 * ALIGN
  const STRING_HEADER: nat := 4

  /** `xml_memory_string_header`, two 16-bit fields in units of the alignment */
  datatype Header = Header(pageOffset: nat, fullSize: nat)

  function Truncated(x: nat): (r: nat)
    ensures r < 0x1_0000
  {
    x % 0x1_0000
  }

  /** What `allocate_string` writes for a block at `offset` of its page */
  function Packed(offset: nat, fullSize: nat): Header {
    Header(Truncated(offset / ALIGN), Truncated(if fullSize < MAX_ENCODED then fullSize / ALIGN else 0))
  }

  function UnpackedOffset(h: Header): nat {
    h.pageOffset * ALIGN
  }

  function UnpackedSize(h: Header, busy: nat): nat {
    if h.fullSize == 0 then busy else h.fullSize * ALIGN
  }

  /** Header and text, rounded up to whole alignment units */
  function FullSize(length: nat): (r: nat)
    ensures r % ALIGN == 0 && STRING_HEADER + length <= r < STRING_HEADER + length + ALIGN && 0 < r
  {
    (STRING_HEADER + length + (ALIGN - 1)) / ALIGN * ALIGN
  }

  /** The header leads back to the page and the size of the block, also when the size does not fit it: such a block is
      alone on its page, whose busy size is its own. */
  lemma HeaderLeadsBack(offset: nat, fullSize: nat, busy: nat)
    requires offset % ALIGN == 0 && offset < PAGE_SIZE && fullSize % ALIGN == 0 && 0 < fullSize
    requires MAX_ENCODED <= fullSize ==> busy == fullSize
    ensures UnpackedOffset(Packed(offset, fullSize)) == offset
    ensures UnpackedSize(Packed(offset, fullSize), busy) == fullSize
  {}

  /** `xml_memory_page` */
  class PageHeader {
    const base: nat
    const capacity: nat
    var prev: PageHeader?
    var next: PageHeader?
    var busy: nat
    var freed: nat

    constructor (base: nat, capacity: nat)
      ensures this.base == base && this.capacity == capacity
      ensures prev == null && next == null && busy == 0 && freed == 0
    {
      this.base, this.capacity := base, capacity;
      prev, next, busy, freed := null, null, 0, 0;
    }
  }

  ghost predicate Joined(a: PageHeader, b: PageHeader)
    reads a`next, b`prev
  {
    a.next == b && b.prev == a
  }

  /** The pages are different and chained both ways in this order. */
  ghost predicate Chained(pages: seq<PageHeader>)
    reads pages`next, pages`prev
  {
    && |pages| > 0
    && (forall i, j :: 0 <= i < j < |pages| ==> pages[i] != pages[j])
    && pages[0].prev == null && pages[|pages| - 1].next == null
    && forall i :: 0 <= i < |pages| - 1 ==> Joined(pages[i], pages[i + 1])
  }

  ghost predicate Shows(h: PageHeader, p: Page)
    reads h`freed
  {
    h.base == p.base && h.capacity == p.capacity && h.freed == p.freed
  }

  /** The pages have these sizes; the busy size of the last one is kept elsewhere. */
  ghost predicate Sized(pages: seq<PageHeader>, ps: seq<Page>)
    reads pages`freed, pages`busy
  {
    && |pages| == |ps|
    && (forall i :: 0 <= i < |pages| ==> Shows(pages[i], ps[i]))
    && forall i :: 0 <= i < |pages| - 1 ==> pages[i].busy == ps[i].busy
  }

  /** A page goes behind the last one. */
  method LinkLast(ghost pages: seq<PageHeader>, root: PageHeader, page: PageHeader)
    requires Chained(pages) && root == pages[|pages| - 1] && page !in pages && page.next == null
    modifies root`next, page`prev
    ensures Chained(pages + [page])
  {
    page.prev := root;
    root.next := page;
    ghost var qs := pages + [page];
    forall i | 0 <= i < |pages| - 1 ensures Joined(qs[i], qs[i + 1]) {
      assert old(Joined(pages[i], pages[i + 1]));
    }
    assert Joined(qs[|pages| - 1], qs[|pages|]);
  }

  /** A page goes in front of the last one. */
  method LinkBeforeLast(ghost pages: seq<PageHeader>, ghost before: PageHeader, root: PageHeader, page: PageHeader)
    requires Chained(pages) && |pages| > 1 && root == pages[|pages| - 1] && before == pages[|pages| - 2]
      && page !in pages
    modifies root`prev, before`next, page`prev, page`next
    ensures Chained(pages[..|pages| - 1] + [page] + [root])
  {
    ghost var n := |pages| - 1;
    assert Joined(pages[n - 1], pages[n]);
    page.prev := root.prev;
    page.next := root;
    root.prev.next := page;
    root.prev := page;
    ghost var qs := pages[..n] + [page] + [root];
    forall i | 0 <= i < n - 1 ensures Joined(qs[i], qs[i + 1]) {
      assert old(Joined(pages[i], pages[i + 1]));
    }
    assert Joined(qs[n - 1], qs[n]) && Joined(qs[n], qs[n + 1]);
  }

  /** A page between two others leaves the chain. */
  method Unlink(ghost pages: seq<PageHeader>, ghost i: nat, ghost before: PageHeader, ghost after: PageHeader,
                page: PageHeader)
    requires Chained(pages) && 0 < i < |pages| - 1 && before == pages[i - 1] && page == pages[i]
      && after == pages[i + 1]
    modifies before`next, after`prev
    ensures Chained(Without(pages, i))
  {
    assert Joined(pages[i - 1], pages[i - 1 + 1]) && Joined(pages[i], pages[i + 1]);
    page.prev.next := page.next;
    page.next.prev := page.prev;
    ghost var qs := Without(pages, i);
    assert forall j :: 0 <= j < |qs| ==> qs[j] == pages[if j < i then j else j + 1];
    forall j | 0 <= j < |qs| - 1 ensures Joined(qs[j], qs[j + 1]) {
      if j != i - 1 {
        ghost var k := if j < i then j else j + 1;
        assert old(Joined(pages[k], pages[k + 1]));
      }
    }
  }

  /** A page that is not the last one leaves the list. */
  method RemovePage(ghost pages: seq<PageHeader>, ghost ps: seq<Page>, ghost i: nat, ghost before: PageHeader,
                    ghost after: PageHeader, page: PageHeader)
    requires Chained(pages) && Sized(pages, ps) && 0 < i < |pages| - 1
    requires before == pages[i - 1] && page == pages[i] && after == pages[i + 1]
    modifies before`next, after`prev
    ensures |ps| == |pages| && Chained(Without(pages, i)) && Sized(Without(pages, i), Without(ps, i))
  {
    hide Chained, Shows;
    Unlink(pages, i, before, after, page);
    SizedWithout(pages, ps, i);
  }

  /** The header of a live string is in front of its text. */
  predicate Labelled(es: set<Extent>, headers: map<nat, Header>) {
    forall e :: e in es && e.isString ==>
      e.start in headers && e.base + PAGE_HEADER <= e.start
        && headers[e.start] == Packed(e.start - e.base - PAGE_HEADER, e.size)
  }

  lemma SizedAppended(pages: seq<PageHeader>, ps: seq<Page>, page: PageHeader, p: Page)
    requires Sized(pages, ps) && |pages| > 0 && pages[|pages| - 1].busy == ps[|pages| - 1].busy && Shows(page, p)
    ensures Sized(pages + [page], ps + [p])
  {}

  lemma SizedTucked(pages: seq<PageHeader>, ps: seq<Page>, page: PageHeader, p: Page)
    requires Sized(pages, ps) && |pages| > 0 && Shows(page, p) && page.busy == p.busy
    ensures Sized(pages[..|pages| - 1] + [page] + [pages[|pages| - 1]], Tucked(ps, p))
  {
    var n := |pages| - 1;
    var qs, rs := pages[..n] + [page] + [pages[n]], Tucked(ps, p);
    assert qs[n] == page && rs[n] == p && qs[n + 1] == pages[n] && rs[n + 1] == ps[n];
    assert forall i :: 0 <= i < n ==> qs[i] == pages[i] && rs[i] == ps[i];
  }

  lemma SizedWithout(pages: seq<PageHeader>, ps: seq<Page>, i: nat)
    requires Sized(pages, ps) && i < |pages| - 1
    ensures Sized(Without(pages, i), Without(ps, i))
  {
    var qs, rs := Without(pages, i), Without(ps, i);
    assert forall j ::
      0 <= j < |qs| ==> qs[j] == pages[if j < i then j else j + 1] && rs[j] == ps[if j < i then j else j + 1];
  }

  lemma Lengths(pages: seq<PageHeader>, ps: seq<Page>)
    requires Chained(pages) && Sized(pages, ps)
    ensures |pages| == |ps| > 0
  {}

  /** The last page's own busy size is brought up to date. */
  method StoreBusy(ghost pages: seq<PageHeader>, ghost ps: seq<Page>, root: PageHeader, busy: nat)
    requires Chained(pages) && Sized(pages, ps) && root == pages[|pages| - 1]
    modifies root`busy
    ensures Sized(pages, ps) && root.busy == busy
  {
    root.busy := busy;
  }

  /** The new page becomes the last one. */
  method AddLast(ghost pages: seq<PageHeader>, ghost ps: seq<Page>, root: PageHeader, busySize: nat, page: PageHeader,
                 ghost p: Page)
    requires Chained(pages) && Sized(pages, ps) && root == pages[|pages| - 1] && busySize == ps[|pages| - 1].busy
    requires page !in pages && page.next == null && Shows(page, p)
    modifies root`busy, root`next, page`prev
    ensures Chained(pages + [page]) && Sized(pages + [page], ps + [p])
  {
    hide Chained, Sized, Shows;
    Lengths(pages, ps);
    StoreBusy(pages, ps, root, busySize);
    LinkLast(pages, root, page);
    SizedAppended(pages, ps, page, p);
  }

  /** The new page goes before the last one. */
  method AddBeforeLast(ghost pages: seq<PageHeader>, ghost ps: seq<Page>, ghost before: PageHeader, root: PageHeader,
                       size: nat, page: PageHeader, ghost p: Page)
    requires Chained(pages) && Sized(pages, ps) && |pages| > 1 && root == pages[|pages| - 1]
      && before == pages[|pages| - 2]
    requires page !in pages && Shows(page, p) && p.busy == size
    modifies root`prev, before`next, page`prev, page`next, page`busy
    ensures Chained(pages[..|pages| - 1] + [page] + [root])
    ensures |ps| == |pages| && Sized(pages[..|pages| - 1] + [page] + [root], Tucked(ps, p))
  {
    hide Chained, Shows;
    page.busy := size;
    Lengths(pages, ps);
    LinkBeforeLast(pages, before, root, page);
    SizedTucked(pages, ps, page, p);
  }

  ghost predicate Found(memory: map<nat, PageHeader>, pages: seq<PageHeader>) {
    forall p :: p in pages ==> p.base in memory && memory[p.base] == p
  }

  lemma FoundMore(memory: map<nat, PageHeader>, pages: seq<PageHeader>, page: PageHeader, qs: seq<PageHeader>)
    requires Found(memory, pages) && forall q :: q in qs ==> q in pages || q == page
    requires forall p :: p in pages ==> p.base != page.base
    ensures Found(memory[page.base := page], qs)
  {}

  /** No page of the list is where a vacant place is. */
  lemma VacantBase(pages: seq<PageHeader>, ps: seq<Page>, p: Page)
    requires Sized(pages, ps) && Vacant(ps, p)
    ensures forall q :: q in pages ==> q.base != p.base
  {
    forall q | q in pages ensures q.base != p.base {
      var i :| 0 <= i < |pages| && pages[i] == q;
      assert Apart(ps[i], p) && Shows(pages[i], ps[i]);
    }
  }

  /** A block that needs a page starts it. */
  lemma TakeNew(ps: seq<Page>, size: nat, isString: bool, place: nat)
    requires |ps| > 0 && MayTake(ps, size, isString, place) && NeedsPage(ps, size)
    ensures Given(ps, size, isString, place) == Extent(place, place + PAGE_HEADER, size, isString)
    ensures var p := NewPage(place, size, isString);
            && Vacant(ps, p) && p.base == place && p.freed == 0
            && Take(ps, size, isString, place) == (if size <= LARGE then ps + [p] else Tucked(ps, p))
            && (LARGE < size ==> |ps| > 1)
  {
    hide Vacant;
  }

  lemma BasesDiffer(ps: seq<Page>, i: nat, j: nat)
    requires Sound(ps) && i < |ps| && j < |ps| && ps[i].base == ps[j].base
    ensures i == j
  {
    if i != j {
      ApartPages(ps, i, j);
    }
  }

  /** The page of a live block and the block in it */
  lemma Located(pages: seq<PageHeader>, ps: seq<Page>, page: PageHeader, e: Extent) returns (i: nat, k: nat)
    requires Sound(ps) && Sized(pages, ps) && e in Outstanding(ps) && page in pages && page.base == e.base
    ensures IsLive(ps, i, k) && ExtentOf(ps[i], ps[i].live[k]) == e && 0 < i < |pages| && pages[i] == page
    ensures ps[i].live[k].size == e.size && PageSound(ps[i]) && ps[i].base == e.base
    ensures page.base + PAGE_HEADER <= e.start && e.start + e.size <= page.base + PAGE_HEADER + ps[i].busy && 0 < e.size
    ensures i < |pages| - 1 ==> page.busy == ps[i].busy
  {
    hide Sound, PageSound, Outstanding;
    i, k := PlaceOf(ps, e);
    LivePage(ps, i, k);
    LiveExtent(ps[i], k);
    ExtentsInside(ps[i], e);
    BehindBusy(ps[i], e);
    var j :| 0 <= j < |pages| && pages[j] == page;
    assert Shows(pages[j], ps[j]);
    BasesDiffer(ps, i, j);
  }

  /** Bytes of a page are counted as freed. */
  method AddFreed(ghost pages: seq<PageHeader>, ghost ps: seq<Page>, ghost i: nat, ghost k: nat, page: PageHeader,
                  size: nat)
    requires Chained(pages) && Sized(pages, ps) && i < |pages| && page == pages[i] && IsLive(ps, i, k)
    requires size == ps[i].live[k].size
    modifies page`freed
    ensures Sized(pages, ps[i := Shrunk(ps[i], k)]) && page.freed == Shrunk(ps[i], k).freed
  {
    assert Shows(pages[i], ps[i]);
    page.freed := page.freed + size;
  }

  /** The last page starts over. */
  method StartOver(ghost pages: seq<PageHeader>, ghost ps: seq<Page>, root: PageHeader)
    requires Chained(pages) && Sized(pages, ps) && root == pages[|pages| - 1]
    modifies root`busy, root`freed
    ensures |ps| > 0 && Sized(pages, ps[|ps| - 1 := ps[|ps| - 1].(busy := 0, freed := 0)])
  {
    assert Shows(root, ps[|ps| - 1]);
    root.busy := 0;
    root.freed := 0;
  }

  /** Only the last page has no next one, and only the first no previous one. */
  lemma NextOf(pages: seq<PageHeader>, i: nat)
    requires Chained(pages) && i < |pages|
    ensures pages[i].next == null <==> i == |pages| - 1
    ensures pages[i].prev == null <==> i == 0
    ensures pages[i] == pages[|pages| - 1] <==> i == |pages| - 1
  {
    if i < |pages| - 1 {
      assert Joined(pages[i], pages[i + 1]);
    }
    if 0 < i {
      var h := i - 1;
      assert Joined(pages[h], pages[h + 1]);
    }
  }

  lemma FoundFewer(memory: map<nat, PageHeader>, pages: seq<PageHeader>, ps: seq<Page>, i: nat)
    requires Sound(ps) && Sized(pages, ps) && Found(memory, pages) && i < |pages|
    ensures Found(memory - {pages[i].base}, Without(pages, i))
  {
    hide Sound;
    var qs := Without(pages, i);
    forall q | q in qs ensures q.base in memory - {pages[i].base} && memory[q.base] == q {
      var l :| 0 <= l < |qs| && qs[l] == q;
      var j := if l < i then l else l + 1;
      assert q == pages[j] && Shows(pages[i], ps[i]) && Shows(pages[j], ps[j]);
      if q.base == pages[i].base {
        BasesDiffer(ps, i, j);
      }
    }
  }

  /** `xml_allocator`. `memory` is what a page pointer leads to, `headers` the bytes in front of strings. */
  class Allocator {
    var root: PageHeader
    var busySize: nat
    var memory: map<nat, PageHeader>
    var headers: map<nat, Header>
    ghost var pages: seq<PageHeader>
    ghost var states: seq<Page>

    /** The list, the sizes and the ghost page list agree. */
    ghost predicate Listed()
      reads this, pages
    {
      && Sound(states) && Chained(pages) && Sized(pages, states) && Found(memory, pages)
      && root == pages[|pages| - 1] && busySize == states[|states| - 1].busy
    }

    ghost predicate Valid()
      reads this, pages
    {
      Listed() && Labelled(Outstanding(states), headers)
    }

    /** A fresh document: the sentinel page, at an aligned address */
    constructor (place: nat)
      requires place % ALIGN == 0
      ensures Valid() && states == [Page(place, 0, PAGE_SIZE, 0, [])] && Outstanding(states) == {} && fresh(pages)
    {
      var page := new PageHeader(place, 0);
      root, busySize, memory, headers := page, PAGE_SIZE, map[place := page], map[];
      pages, states := [page], [Page(place, 0, PAGE_SIZE, 0, [])];
      new;
      page.busy := PAGE_SIZE;
      assert Outstanding(states) == {};
    }

    /** `allocate_memory`: the address of the block and its page. `place` is where the system puts a new page. */
    method AllocateMemory(size: nat, ghost isString: bool, place: nat) returns (buf: nat, page: PageHeader)
      requires Listed() && MayTake(states, size, isString, place)
      modifies `root, `busySize, `memory, `pages, `states, pages
      ensures Listed() && fresh(set p | p in pages && p !in old(pages))
      ensures states == Take(old(states), size, isString, place)
      ensures Given(old(states), size, isString, place) == Extent(page.base, buf, size, isString) && page in pages
    {
      hide Sound, Chained, Found, Shows, Vacant, Sized;
      Lengths(pages, states);
      TakeSound(states, size, isString, place);
      BusyOf(pages, states);
      if busySize + size > PAGE_SIZE {
        buf, page := AllocateMemoryOob(size, isString, place);
        return;
      }
      buf := root.base + PAGE_HEADER + busySize;
      SizedGrown(pages, states, size, isString);
      ghost var last := |states| - 1;
      states := states[last := Grown(states[last], size, isString)];
      busySize := busySize + size;
      page := root;
    }

    /** `allocate_memory_oob`: on a new page, which becomes the last one for small blocks only */
    method AllocateMemoryOob(size: nat, ghost isString: bool, place: nat) returns (buf: nat, page: PageHeader)
      requires Listed() && MayTake(states, size, isString, place) && NeedsPage(states, size)
      modifies `root, `busySize, `memory, `pages, `states, pages
      ensures Listed() && fresh(set p | p in pages && p !in old(pages))
      ensures states == Take(old(states), size, isString, place)
      ensures Given(old(states), size, isString, place) == Extent(page.base, buf, size, isString) && page in pages
    {
      hide Sound, Chained, Found, Sized, Take, Given, NeedsPage;
      Lengths(pages, states);
      TakeSound(states, size, isString, place);
      TakeNew(states, size, isString, place);
      ghost var p := NewPage(place, size, isString);
      VacantBase(pages, states, p);
      page := new PageHeader(place, if size <= LARGE then PAGE_SIZE else size);
      FoundMore(memory, pages, page, pages + [page]);
      FoundMore(memory, pages, page, pages[..|pages| - 1] + [page] + [root]);
      memory := memory[place := page];
      if size <= LARGE {
        AddLast(pages, states, root, busySize, page, p);
        root := page;
        busySize := size;
        pages, states := pages + [page], states + [p];
        assert Sized(pages, states) && Chained(pages) && Found(memory, pages);
      } else {
        AddBeforeLast(pages, states, pages[|pages| - 2], root, size, page, p);
        pages := pages[..|pages| - 1] + [page] + [root];
        states := Tucked(states, p);
        assert Sized(pages, states) && Chained(pages) && Found(memory, pages);
      }
      buf := page.base + PAGE_HEADER;
    }

    /** `deallocate_memory`: `e` is the live block at the address, `i` and `k` say where it was. */
    method DeallocateMemory(address: nat, size: nat, page: PageHeader, ghost e: Extent)
      returns (ghost i: nat, ghost k: nat)
      requires Listed() && e in Outstanding(states) && page in pages
      requires page.base == e.base && address == e.start && size == e.size
      modifies `busySize, `memory, `pages, `states, pages
      ensures Listed() && (forall q :: q in pages ==> q in old(pages))
      ensures IsLive(old(states), i, k) && ExtentOf(old(states)[i], old(states)[i].live[k]) == e
      ensures states == Give(old(states), i, k)
      ensures pages == if |states| < |old(states)| then Without(old(pages), i) else old(pages)
    {
      hide Sound, Chained, Found, Sized, PageSound, Shrunk, Give, Inside, Without, Outstanding;
      i, k := Located(pages, states, page, e);
      Lengths(pages, states);
      NextOf(pages, i);
      FoundFewer(memory, pages, states, i);
      WithoutFacts(pages, i);
      WithoutFacts(states, i);
      GiveSound(states, i, k);
      GiveCases(states, i, k);
      ghost var p := Shrunk(states[i], k);
      ShrunkPage(states[i], k);
      if page == root {
        StoreBusy(pages, states, page, busySize);
      }
      assert page.base + PAGE_HEADER <= address < page.base + PAGE_HEADER + page.busy;
      AddFreed(pages, states, i, k, page, size);
      assert page.freed <= page.busy;
      ghost var ps := states[i := p];
      WithoutFacts(ps, i);
      if page.freed == page.busy {
        if page.next == null {
          StartOver(pages, ps, page);
          busySize := 0;
          states := ps[i := p.(busy := 0, freed := 0)];
        } else {
          RemovePage(pages, ps, i, pages[i - 1], pages[i + 1], page);
          memory := memory - {page.base};
          pages, states := Without(pages, i), Without(ps, i);
        }
      } else {
        states := ps;
      }
    }

    /** `allocate_object`: a block apart from every live block, on a page of the list */
    method AllocateObject(size: nat, place: nat) returns (result: nat, page: PageHeader, ghost e: Extent)
      requires Valid() && MayTake(states, size, false, place)
      modifies `root, `busySize, `memory, `pages, `states, pages
      ensures Valid() && fresh(set p | p in pages && p !in old(pages))
      ensures e == Extent(page.base, result, size, false) && page in pages
      ensures Outstanding(states) == old(Outstanding(states)) + {e}
      ensures forall o :: o in old(Outstanding(states)) ==> Disjoint(o, e)
    {
      hide Sound, Chained, Found, Sized, Outstanding, Take, Given, Disjoint;
      TakeSafe(states, size, false, place);
      e := Given(states, size, false, place);
      result, page := AllocateMemory(size, false, place);
      PageFound(pages, states, page, e);
    }

    /** `allocate_string`: room for the text behind a header that leads back to its page and its size */
    method AllocateString(length: nat, place: nat) returns (text: nat, ghost e: Extent)
      requires Valid() && MayTake(states, FullSize(length), true, place)
      modifies this, pages
      ensures Valid() && fresh(set p | p in pages && p !in old(pages))
      ensures e.isString && text == e.start + STRING_HEADER && text + length <= e.start + e.size < text + length + ALIGN
      ensures Outstanding(states) == old(Outstanding(states)) + {e}
      ensures forall o :: o in old(Outstanding(states)) ==> Disjoint(o, e)
    {
      hide Sound, Chained, Found, Sized, Outstanding, Take, Given, Labelled, MayTake, Packed, FullSize;
      var fullSize := FullSize(length);
      TakeSafe(states, fullSize, true, place);
      e := Given(states, fullSize, true, place);
      var header, page := AllocateMemory(fullSize, true, place);
      PageFound(pages, states, page, e);
      var pageOffset := header - page.base - PAGE_HEADER;
      LabelledMore(old(Outstanding(states)), headers, e);
      headers := headers[header := Packed(pageOffset, fullSize)];
      text := header + STRING_HEADER;
    }

    /** `deallocate_string`: from the address of the text alone, releases exactly the block it is in. */
    method DeallocateString(text: nat, ghost e: Extent)
      requires Valid() && e in Outstanding(states) && e.isString && text == e.start + STRING_HEADER
      modifies `busySize, `memory, `pages, `states, pages
      ensures Valid() && (forall q :: q in pages ==> q in old(pages))
      ensures Outstanding(states) == old(Outstanding(states)) - {e}
    {
      hide Sound, Chained, Sized, Outstanding, Give, Packed;
      var header := text - STRING_HEADER;
      HeaderFound(pages, states, memory, headers, e);
      var pageOffset := PAGE_HEADER + UnpackedOffset(headers[header]);
      var page := memory[header - pageOffset];
      var fullSize := UnpackedSize(headers[header], page.busy);
      ghost var was := states;
      ghost var i, k := DeallocateMemory(header, fullSize, page, e);
      GiveOutstanding(was, i, k);
    }

    /** An object is released by its address, size and page. */
    method DeallocateObject(address: nat, size: nat, page: PageHeader)
      requires Valid() && page in pages && Extent(page.base, address, size, false) in Outstanding(states)
      modifies `busySize, `memory, `pages, `states, pages
      ensures Valid() && (forall q :: q in pages ==> q in old(pages))
      ensures Outstanding(states) == old(Outstanding(states)) - {Extent(page.base, address, size, false)}
    {
      hide Sound, Chained, Found, Sized, Outstanding, Give;
      ghost var was := states;
      ghost var i, k := DeallocateMemory(address, size, page, Extent(page.base, address, size, false));
      GiveOutstanding(was, i, k);
    }
  }

  lemma TakeSafe(ps: seq<Page>, size: nat, isString: bool, place: nat)
    requires Sound(ps) && MayTake(ps, size, isString, place)
    ensures Outstanding(Take(ps, size, isString, place)) == Outstanding(ps) + {Given(ps, size, isString, place)}
    ensures forall o :: o in Outstanding(ps) ==> Disjoint(o, Given(ps, size, isString, place)) && 0 < o.size
    ensures |ps| > 0
  {
    hide Sound, Outstanding, Given, Take, Disjoint, Extents;
    LastPage(ps);
    TakeOutstanding(ps, size, isString, place);
    forall o | o in Outstanding(ps) ensures Disjoint(o, Given(ps, size, isString, place)) && 0 < o.size {
      TakeApart(ps, size, isString, place, o);
      var i := PageOf(ps, o);
      SoundPage(ps, i, o);
    }
  }

  /** The page of a live block is on the list, and the block lies behind its header. */
  lemma PageFound(pages: seq<PageHeader>, ps: seq<Page>, page: PageHeader, e: Extent)
    requires Sound(ps) && Sized(pages, ps) && e in Outstanding(ps) && page.base == e.base
    ensures e.base + PAGE_HEADER <= e.start
  {
    hide Sound, Extents;
    var i := PageOf(ps, e);
    SoundPage(ps, i, e);
    var k := BlockOf(ps[i], e);
  }

  /** A block too large for its header is alone on a page that is not the last. */
  lemma StringFacts(ps: seq<Page>, i: nat, k: nat)
    requires Sound(ps) && IsLive(ps, i, k)
    ensures var b := ps[i].live[k];
            && b.offset % ALIGN == 0 && b.size % ALIGN == 0 && 0 < b.size && b.offset < PAGE_SIZE
            && (MAX_ENCODED <= b.size ==> i < |ps| - 1 && ps[i].busy == b.size)
  {
    LivePage(ps, i, k);
    assert Aligned(ps[i].live[k]) && Carved(ps[i].live, ps[i].busy) && Solo(ps[i]);
  }

  /** The header of a live string leads to its page, which is on the list, and to its size. */
  lemma HeaderFound(pages: seq<PageHeader>, ps: seq<Page>, memory: map<nat, PageHeader>, headers: map<nat, Header>,
                    e: Extent)
    requires Sound(ps) && Sized(pages, ps) && Found(memory, pages) && Labelled(Outstanding(ps), headers)
    requires e in Outstanding(ps) && e.isString
    ensures e.start in headers && e.start == e.base + PAGE_HEADER + UnpackedOffset(headers[e.start])
    ensures e.base in memory && memory[e.base].base == e.base && memory[e.base] in pages
    ensures UnpackedSize(headers[e.start], memory[e.base].busy) == e.size
  {
    hide Sound, Outstanding, Packed, UnpackedOffset, UnpackedSize;
    var i, k := PlaceOf(ps, e);
    StringFacts(ps, i, k);
    assert Shows(pages[i], ps[i]) && pages[i] in pages;
    HeaderLeadsBack(e.start - e.base - PAGE_HEADER, e.size, pages[i].busy);
  }

  lemma LabelledMore(es: set<Extent>, headers: map<nat, Header>, e: Extent)
    requires Labelled(es, headers) && e.base + PAGE_HEADER <= e.start && 0 < e.size
    requires forall o :: o in es ==> Disjoint(o, e) && 0 < o.size
    ensures Labelled(es + {e}, headers[e.start := Packed(e.start - e.base - PAGE_HEADER, e.size)])
  {
    hide Packed;
  }

  lemma WithoutFacts<T>(s: seq<T>, i: nat)
    requires i < |s|
    ensures |Without(s, i)| == |s| - 1
    ensures forall x :: x in Without(s, i) ==> x in s
    ensures i < |s| - 1 ==> Without(s, i)[|s| - 2] == s[|s| - 1]
  {}

  lemma GiveCases(ps: seq<Page>, i: nat, k: nat)
    requires IsLive(ps, i, k)
    ensures var p := Shrunk(ps[i], k);
            Give(ps, i, k) == if p.freed != p.busy then ps[i := p]
                              else if i == |ps| - 1 then ps[i := p][i := p.(busy := 0, freed := 0)]
                              else Without(ps[i := p], i)
    ensures |Give(ps, i, k)| < |ps| <==> Shrunk(ps[i], k).freed == Shrunk(ps[i], k).busy && i < |ps| - 1
  {
    hide Shrunk;
    ReplacedWithout(ps, i, Shrunk(ps[i], k));
  }

  lemma ShrunkPage(p: Page, k: nat)
    requires PageSound(p) && k < |p.live|
    ensures Shrunk(p, k).base == p.base && Shrunk(p, k).busy == p.busy && Shrunk(p, k).freed <= p.busy
  {
    ShrunkSound(p, k);
  }

  lemma BusyOf(pages: seq<PageHeader>, ps: seq<Page>)
    requires Sized(pages, ps) && |ps| > 0
    ensures pages[|pages| - 1].base == ps[|ps| - 1].base
  {
    assert Shows(pages[|pages| - 1], ps[|ps| - 1]);
  }

  lemma SizedGrown(pages: seq<PageHeader>, ps: seq<Page>, size: nat, isString: bool)
    requires Sized(pages, ps) && |ps| > 0
    ensures Sized(pages, ps[|ps| - 1 := Grown(ps[|ps| - 1], size, isString)])
  {
    assert Shows(pages[|pages| - 1], ps[|ps| - 1]);
  }
}
