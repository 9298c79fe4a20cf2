/** An allocator that takes whole pages from the kernel and gives out pieces of them. */
module PageAllocator {
  import opened Addresses
  import opened SymbolModule

  const HEADER_SIZE: nat := 16

  /** At the start of each set of pages: the address of the next header, or zero, and the number of pages. */
  datatype PageHeader = PageHeader(next: Address, numPages: nat)

  function BytesIn(pages: int, pageSize: nat): int {
    pageSize * pages
  }

  lemma Quotient(x: nat, d: nat)
    requires 0 < d
    ensures BytesIn(x / d, d) <= x < BytesIn(x / d, d) + d
    ensures BytesIn(x / d - 1, d) == BytesIn(x / d, d) - d
    ensures d <= x ==> 0 < x / d && d <= BytesIn(x / d, d)
  {
  }

  /** Whole pages for a request and its header, in the arithmetic of a 64-bit `size_t`. */
  function PagesFor(bytes: Address, pageSize: nat): nat
    requires 0 < pageSize
  {
    (bytes + HEADER_SIZE + pageSize - 1) % TWO_64 / pageSize
  }

  /** The pages hold the request and its header exactly if the sum of the three does not wrap, and then
      there is less than a page to spare. */
  lemma PagesHoldRequest(bytes: Address, pageSize: nat)
    requires HEADER_SIZE < pageSize < TWO_64 / 2
    ensures var pages := PagesFor(bytes, pageSize);
      && (bytes + HEADER_SIZE <= BytesIn(pages, pageSize) <==> bytes + HEADER_SIZE + pageSize - 1 < TWO_64)
      && (bytes + HEADER_SIZE <= BytesIn(pages, pageSize) ==>
            0 < pages && pageSize <= BytesIn(pages, pageSize) < bytes + HEADER_SIZE + pageSize)
      && BytesIn(pages - 1, pageSize) == BytesIn(pages, pageSize) - pageSize
  {
    hide BytesIn;
    var wrapped := (bytes + HEADER_SIZE + pageSize - 1) % TWO_64;
    assert wrapped == bytes + HEADER_SIZE + pageSize - 1 || wrapped == bytes + HEADER_SIZE + pageSize - 1 - TWO_64;
    Quotient(wrapped, pageSize);
  }

  /** Where the last `spare` bytes of a page start, or zero if there are none. */
  function OffsetBefore(spare: nat, pageSize: nat): (offset: nat)
    requires spare < pageSize
    ensures offset == if spare == 0 then 0 else pageSize - spare
  {
    (pageSize - spare) % pageSize
  }

  /** The greatest size makes the sum wrap: one page is asked for. */
  lemma GreatestSizeGetsOnePage()
    ensures var bytes: Address := TWO_64 - 1;
      PagesFor(bytes, 4096) == 1 && BytesIn(PagesFor(bytes, 4096), 4096) < bytes
  {
  }

  /** A wrapping size asks for no page, or for one that is far too small. */
  lemma WrappedPages(bytes: Address, pageSize: nat)
    requires HEADER_SIZE < pageSize < TWO_64 / 2 && bytes + HEADER_SIZE + pageSize - 1 >= TWO_64
    ensures PagesFor(bytes, pageSize) == if bytes + HEADER_SIZE - 1 < TWO_64 then 0 else 1
  {
    var wrapped := bytes + HEADER_SIZE + pageSize - 1 - TWO_64;
    assert (bytes + HEADER_SIZE + pageSize - 1) % TWO_64 == wrapped;
    if wrapped < pageSize {
      SmallQuotient(wrapped, pageSize, 0);
    } else {
      SmallQuotient(wrapped, pageSize, 1);
    }
  }

  lemma SmallQuotient(x: nat, d: nat, q: nat)
    requires 0 < d && q <= 1 && q * d <= x < q * d + d
    ensures x / d == q
  {
  }

  /** `list` are the addresses of the headers reached from `head`. */
  ghost predicate Chain(memory: map<Address, PageHeader>, head: Address, list: seq<Address>)
    decreases |list|
  {
    if list == [] then head == 0
    else head == list[0] != 0 && head in memory && Chain(memory, memory[head].next, list[1..])
  }

  /** The mapping that starts with the header at `a`. */
  ghost function Mapping(memory: map<Address, PageHeader>, a: Address, pageSize: nat): Range
    requires a in memory
  {
    Range(a, BytesIn(memory[a].numPages, pageSize))
  }

  ghost function Mappings(memory: map<Address, PageHeader>, list: seq<Address>, pageSize: nat): (ms: seq<Range>)
    requires forall a :: a in list ==> a in memory
    ensures |ms| == |list| && forall i :: 0 <= i < |ms| ==> ms[i] == Mapping(memory, list[i], pageSize)
  {
    seq(|list|, i requires 0 <= i < |list| => Mapping(memory, list[i], pageSize))
  }

  ghost function TotalPages(memory: map<Address, PageHeader>, list: seq<Address>): nat
    requires forall a :: a in list ==> a in memory
  {
    if list == [] then 0 else memory[list[0]].numPages + TotalPages(memory, list[1..])
  }

  /** `b` lies in mapping `m`, behind its header. */
  predicate InsideMapping(b: Range, m: Range) {
    m.base + HEADER_SIZE <= b.base && b.End() <= m.End()
  }

  predicate Separate(a: Range, b: Range) {
    a.End() <= b.base || b.End() <= a.base
  }

  /** Blocks lie in mappings, behind the headers, and apart from each other. */
  ghost predicate WellPlaced(blocks: seq<Range>, ms: seq<Range>) {
    && (forall i :: 0 <= i < |blocks| ==> PlacedIn(blocks[i], ms))
    && forall i, j :: 0 <= i < j < |blocks| ==> Separate(blocks[i], blocks[j])
  }

  ghost predicate PlacedIn(b: Range, ms: seq<Range>) {
    exists k :: 0 <= k < |ms| && InsideMapping(b, ms[k])
  }

  ghost predicate AllSeparate(ms: seq<Range>) {
    forall i, j :: 0 <= i < j < |ms| ==> Separate(ms[i], ms[j])
  }

  /** So no block touches any header, not even another mapping's. */
  lemma BlocksMissHeaders(blocks: seq<Range>, ms: seq<Range>, i: nat, k: nat)
    requires WellPlaced(blocks, ms) && AllSeparate(ms) && i < |blocks| && k < |ms| && ms[k].size >= HEADER_SIZE
    requires blocks[i].size >= 0
    ensures Separate(blocks[i], Range(ms[k].base, HEADER_SIZE))
  {
    var j :| 0 <= j < |ms| && InsideMapping(blocks[i], ms[j]);
    assert j != k ==> Separate(ms[j], ms[k]);
  }

  /** A chain is a matter of its own headers only. */
  lemma {:induction false} ChainAgrees(memory: map<Address, PageHeader>, other: map<Address, PageHeader>,
                                       head: Address, list: seq<Address>)
    requires Chain(memory, head, list)
    requires forall a :: a in list && a in memory ==> a in other && other[a] == memory[a]
    ensures Chain(other, head, list)
    ensures forall a :: a in list ==> a in memory && a in other
    ensures TotalPages(other, list) == TotalPages(memory, list)
    decreases |list|
  {
    if list != [] {
      ChainAgrees(memory, other, memory[head].next, list[1..]);
    }
  }

  /** The chain from `last` is all there is in `memory`, and its mappings have room for their headers
      and are apart. */
  ghost predicate HeadersOk(memory: map<Address, PageHeader>, last: Address, list: seq<Address>,
                            pageSize: nat)
    ensures HeadersOk(memory, last, list, pageSize) ==> forall a :: a in list ==> a in memory
  {
    && Chain(memory, last, list) && Distinct(list) && (forall a :: a in memory <==> a in list)
    && MappingsOk(Mappings(memory, list, pageSize))
  }

  ghost predicate MappingsOk(ms: seq<Range>) {
    AllSeparate(ms) && forall k :: 0 <= k < |ms| ==> HEADER_SIZE <= ms[k].size && ms[k].End() < TWO_64
  }

  /** What the kernel promises of the pages it maps: they are neither at zero nor at the end of the address space, and
      apart from all others. */
  ghost predicate Fresh(m: Range, ms: seq<Range>) {
    m.base != 0 && m.End() < TWO_64 && forall k :: 0 <= k < |ms| ==> Separate(m, ms[k])
  }

  lemma ChainOfHeaders(memory: map<Address, PageHeader>, last: Address, list: seq<Address>, pageSize: nat)
    requires HeadersOk(memory, last, list, pageSize)
    ensures Chain(memory, last, list)
  {
  }

  lemma FirstOfChain(memory: map<Address, PageHeader>, head: Address, list: seq<Address>, i: nat)
    requires i <= |list| && head != 0 && Chain(memory, head, list[i..])
    ensures i < |list| && head == list[i] && head in memory && Chain(memory, memory[head].next, list[i + 1..])
  {
    assert list[i..][1..] == list[i + 1..];
  }

  lemma EndOfChain(memory: map<Address, PageHeader>, list: seq<Address>)
    requires Chain(memory, 0, list)
    ensures list == []
  {
  }

  lemma PushChain(memory: map<Address, PageHeader>, last: Address, list: seq<Address>, a: Address, h: PageHeader)
    requires Chain(memory, last, list) && h.next == last && a != 0 && a !in list
    ensures Chain(memory[a := h], a, [a] + list)
    ensures forall x :: x in list ==> x in memory
    ensures TotalPages(memory[a := h], [a] + list) == h.numPages + TotalPages(memory, list)
  {
    assert ([a] + list)[1..] == list;
    ChainAgrees(memory, memory[a := h], last, list);
  }

  lemma PushMaps(memory: map<Address, PageHeader>, list: seq<Address>, pageSize: nat, a: Address, h: PageHeader)
    requires (forall x :: x in list ==> x in memory) && a !in list
    ensures Mappings(memory[a := h], [a] + list, pageSize)
         == [Range(a, BytesIn(h.numPages, pageSize))] + Mappings(memory, list, pageSize)
  {
  }

  lemma PushDomain(memory: map<Address, PageHeader>, list: seq<Address>, a: Address, h: PageHeader)
    requires (forall x :: x in memory <==> x in list) && Distinct(list) && a !in list
    ensures Distinct([a] + list)
    ensures forall x :: x in memory[a := h] <==> x in [a] + list
  {
  }

  lemma PushHeader(memory: map<Address, PageHeader>, last: Address, list: seq<Address>, pageSize: nat,
                   a: Address, numPages: nat)
    requires HeadersOk(memory, last, list, pageSize) && HEADER_SIZE <= BytesIn(numPages, pageSize)
    requires Fresh(Range(a, BytesIn(numPages, pageSize)), Mappings(memory, list, pageSize))
    ensures var memory' := memory[a := PageHeader(last, numPages)];
      && HeadersOk(memory', a, [a] + list, pageSize)
      && Mappings(memory', [a] + list, pageSize)
         == [Range(a, BytesIn(numPages, pageSize))] + Mappings(memory, list, pageSize)
      && TotalPages(memory', [a] + list) == numPages + TotalPages(memory, list)
  {
    hide AllSeparate, BytesIn, Chain, TotalPages, MappingsOk, Mappings, Distinct;
    var h := PageHeader(last, numPages);
    var m, ms := Range(a, BytesIn(numPages, pageSize)), Mappings(memory, list, pageSize);
    NotMappedYet(m, memory, list, pageSize);
    PushChain(memory, last, list, a, h);
    PushMaps(memory, list, pageSize, a, h);
    PushMapping(m, ms);
    PushDomain(memory, list, a, h);
  }

  lemma NotMappedYet(m: Range, memory: map<Address, PageHeader>, list: seq<Address>, pageSize: nat)
    requires forall a :: a in list ==> a in memory
    requires MappingsOk(Mappings(memory, list, pageSize)) && Fresh(m, Mappings(memory, list, pageSize))
    requires HEADER_SIZE <= m.size
    ensures m.base !in list
  {
    forall k | 0 <= k < |list| ensures list[k] != m.base {
      assert Separate(m, Mappings(memory, list, pageSize)[k]);
    }
  }

  lemma PushMapping(m: Range, ms: seq<Range>)
    requires MappingsOk(ms) && Fresh(m, ms) && HEADER_SIZE <= m.size
    ensures MappingsOk([m] + ms)
  {
  }

  /** Every block is apart from `free`. */
  ghost predicate Avoid(blocks: seq<Range>, free: Range) {
    forall i :: 0 <= i < |blocks| ==> Separate(blocks[i], free)
  }

  function FirstBytes(free: Range, bytes: nat): Range {
    Range(free.base, bytes)
  }

  function WithoutFirst(free: Range, bytes: nat): Range {
    Range(free.base + bytes, free.size - bytes)
  }

  /** Handing out the first bytes of free room keeps everything in its place. */
  lemma Carve(blocks: seq<Range>, ms: seq<Range>, free: Range, bytes: nat)
    requires WellPlaced(blocks, ms) && PlacedIn(free, ms) && Avoid(blocks, free) && bytes <= free.size
    ensures WellPlaced(blocks + [FirstBytes(free, bytes)], ms)
    ensures PlacedIn(WithoutFirst(free, bytes), ms)
    ensures Avoid(blocks + [FirstBytes(free, bytes)], WithoutFirst(free, bytes))
  {
    var k :| 0 <= k < |ms| && InsideMapping(free, ms[k]);
    assert InsideMapping(FirstBytes(free, bytes), ms[k]) && InsideMapping(WithoutFirst(free, bytes), ms[k]);
  }

  function BehindHeader(m: Range): Range {
    Range(m.base + HEADER_SIZE, m.size - HEADER_SIZE)
  }

  lemma PageForHeader(pages: nat, pageSize: nat)
    requires HEADER_SIZE < pageSize && 0 < pages
    ensures HEADER_SIZE <= pageSize <= BytesIn(pages, pageSize) == BytesIn(pages - 1, pageSize) + pageSize
  {
    assert pageSize * pages == pageSize * (pages - 1) + pageSize;
  }

  /** The code's difference, on `size_t`, of what was asked for and what is used is less than a page. */
  lemma UsedOfPages(bytes: Address, pageSize: nat)
    requires HEADER_SIZE < pageSize < TWO_64 / 2 && 0 < PagesFor(bytes, pageSize)
    requires BytesIn(PagesFor(bytes, pageSize), pageSize) < TWO_64
    ensures var used := Plus(bytes, HEADER_SIZE);
      used <= BytesIn(PagesFor(bytes, pageSize), pageSize) < used + pageSize
  {
    hide BytesIn, PagesFor;
    PagesHoldRequest(bytes, pageSize);
    if bytes + HEADER_SIZE + pageSize - 1 >= TWO_64 {
      WrappedPages(bytes, pageSize);
      OnePage(pageSize);
    }
  }

  lemma OnePage(pageSize: nat)
    ensures BytesIn(1, pageSize) == pageSize
  {
  }

  /** A block that ends behind every mapping is in none. */
  lemma NotPlaced(blocks: seq<Range>, b: Range, memory: map<Address, PageHeader>, last: Address, list: seq<Address>,
                  pageSize: nat)
    requires HeadersOk(memory, last, list, pageSize) && TWO_64 <= b.End()
    ensures !WellPlaced(blocks + [b], Mappings(memory, list, pageSize))
  {
    assert (blocks + [b])[|blocks|] == b;
    assert !PlacedIn(b, Mappings(memory, list, pageSize));
  }

  /** A fresh mapping brings free room of its own. */
  lemma MoreRoom(blocks: seq<Range>, ms: seq<Range>, m: Range)
    requires WellPlaced(blocks, ms) && Fresh(m, ms) && HEADER_SIZE <= m.size
    ensures WellPlaced(blocks, [m] + ms) && PlacedIn(BehindHeader(m), [m] + ms) && Avoid(blocks, BehindHeader(m))
  {
    assert InsideMapping(BehindHeader(m), ([m] + ms)[0]);
    forall i | 0 <= i < |blocks|
      ensures PlacedIn(blocks[i], [m] + ms) && Separate(blocks[i], BehindHeader(m))
    {
      assert PlacedIn(blocks[i], ms);
      var k :| 0 <= k < |ms| && InsideMapping(blocks[i], ms[k]);
      assert Separate(m, ms[k]) && InsideMapping(blocks[i], ([m] + ms)[k + 1]);
    }
  }

  lemma AllButFirst(list: seq<Address>, i: nat)
    requires Distinct(list) && i < |list|
    ensures forall a :: a in list[i + 1..] <==> a in list[i..] && a != list[i]
  {
    assert list[i..] == [list[i]] + list[i + 1..];
  }

  /** Of all the headers in `whole`, `memory` still has those at `list`. */
  ghost predicate StillMapped(memory: map<Address, PageHeader>, whole: map<Address, PageHeader>, list: seq<Address>) {
    (forall a :: a in memory <==> a in list) && forall a :: a in memory ==> a in whole && memory[a] == whole[a]
  }

  /** Once its successor has been read, a header can go, and the rest stays reachable. */
  lemma UnmapFirst(memory: map<Address, PageHeader>, whole: map<Address, PageHeader>, cur: Address,
                   list: seq<Address>, i: nat)
    requires i <= |list| && cur != 0 && Chain(memory, cur, list[i..])
    requires StillMapped(memory, whole, list[i..]) && Distinct(list)
    ensures i < |list| && cur == list[i] && cur in memory && cur in whole && memory[cur] == whole[cur]
    ensures StillMapped(memory - {cur}, whole, list[i + 1..])
    ensures Chain(memory - {cur}, memory[cur].next, list[i + 1..])
  {
    AllButFirst(list, i);
    assert list[i..][1..] == list[i + 1..] && list[i] == cur;
    ChainAgrees(memory, memory - {cur}, memory[cur].next, list[i + 1..]);
  }

  lemma AllMapped(memory: map<Address, PageHeader>, last: Address, list: seq<Address>, pageSize: nat)
    requires HeadersOk(memory, last, list, pageSize)
    ensures StillMapped(memory, memory, list) && Chain(memory, last, list) && Distinct(list)
  {
  }

  lemma AllUnmapped(memory: map<Address, PageHeader>, whole: map<Address, PageHeader>, list: seq<Address>)
    requires Chain(memory, 0, list) && StillMapped(memory, whole, list)
    ensures list == [] && memory == map[]
  {
  }

  class PageAllocator {
    const pageSize: nat
    var memory: map<Address, PageHeader>  // the headers of the pages the kernel has mapped for us
    var last: Address
    var currentPage: Address  // the page with room left, or zero
    var pageOffset: nat
    var pagesAllocated: nat
    ghost var list: seq<Address>  // the headers, latest first
    ghost var blocks: seq<Range>  // what has been given out

    ghost function Maps(): seq<Range>
      requires forall a :: a in list ==> a in memory
      reads this
    {
      Mappings(memory, list, pageSize)
    }

    /** The room left in the current page. */
    function Free(): Range
      reads this
    {
      Range(currentPage + pageOffset, pageSize - pageOffset)
    }

    predicate HasRoom(bytes: nat)
      reads this
    {
      currentPage != 0 && pageSize - pageOffset >= bytes
    }

    ghost predicate Headers()
      reads this
      ensures Headers() ==> forall a :: a in list ==> a in memory
    {
      HeadersOk(memory, last, list, pageSize) && pagesAllocated == TotalPages(memory, list)
    }

    ghost predicate Valid()
      reads this
    {
      && HEADER_SIZE < pageSize < TWO_64 / 2 && Headers()
      && WellPlaced(blocks, Maps())
      && (currentPage != 0 ==>
            0 < pageOffset < pageSize && PlacedIn(Free(), Maps()) && Avoid(blocks, Free()))
    }

    constructor (pageSize: nat)
      requires HEADER_SIZE < pageSize < TWO_64 / 2
      ensures Valid() && blocks == [] && this.pageSize == pageSize && list == []
    {
      this.pageSize := pageSize;
      memory, last, currentPage, pageOffset, pagesAllocated := map[], 0, 0, 0, 0;
      list, blocks := [], [];
    }

    /** `mapped` is what the kernel answers: an address, or none if the mapping failed. It maps no less than
        a page. */
    method GetNPages(numPages: nat, mapped: Option<Address>) returns (ret: Address)
      requires HEADER_SIZE < pageSize && Headers()
      requires mapped.Some? ==> 0 < numPages && Fresh(Range(mapped.value, BytesIn(numPages, pageSize)), Maps())
      modifies this`memory, this`last, this`pagesAllocated, this`list
      ensures Headers() && ret == if mapped.Some? then mapped.value else 0
      ensures if mapped.Some? then list == [ret] + old(list)
        else list == old(list) && memory == old(memory) && last == old(last)
      ensures Maps() == (if mapped.Some? then [Range(ret, BytesIn(numPages, pageSize))] else []) + old(Maps())
      ensures pagesAllocated == old(pagesAllocated) + if mapped.Some? then numPages else 0
    {
      hide HeadersOk, MappingsOk, BytesIn, TotalPages, Mappings;
      if mapped.None? {
        assert [] + Maps() == Maps();
        return 0;
      }
      ret := mapped.value;
      PageForHeader(numPages, pageSize);
      PushHeader(memory, last, list, pageSize, ret, numPages);
      memory := memory[ret := PageHeader(last, numPages)];
      last, list := ret, [ret] + list;
      pagesAllocated := pagesAllocated + numPages;
    }

    /** The request fits the current page, or the pages asked for hold it. */
    predicate Holds(bytes: Address)
      reads this
    {
      HasRoom(bytes) || bytes + HEADER_SIZE + pageSize - 1 < TWO_64
    }

    /** `mapped` is the kernel's answer, should it be asked. */
    method Alloc(bytes: Address, mapped: Option<Address>) returns (ret: int)
      requires Valid()
      requires var pages := PagesFor(bytes, pageSize);
        mapped.Some? ==> 0 < pages && Fresh(Range(mapped.value, BytesIn(pages, pageSize)), Maps())
      modifies this
      ensures Headers() && (Valid() <==> ret == 0 || old(Holds(bytes)))
      ensures ret == 0 <==> bytes == 0 || (!old(HasRoom(bytes)) && mapped.None?)
      ensures ret == 0 ==> unchanged(this)
      ensures ret != 0 ==> blocks == old(blocks) + [Range(ret, bytes)]
      ensures ret == 0 || old(HasRoom(bytes)) ==> list == old(list) && memory == old(memory)
      ensures ret != 0 && !old(HasRoom(bytes)) ==> (
                && list == [mapped.value] + old(list)
                && Maps() == [Range(mapped.value, BytesIn(PagesFor(bytes, pageSize), pageSize))] + old(Maps()))
      ensures ret != 0 && old(Holds(bytes)) ==> (
                var room := if old(HasRoom(bytes)) then old(Free()) else BehindHeader(Maps()[0]);
                && ret == room.base && (currentPage == 0 <==> bytes == room.size)
                && (currentPage != 0 ==> Free() == WithoutFirst(room, bytes)))
      ensures bytes > 0 && old(currentPage != 0 && pageSize - pageOffset >= bytes) ==>
        ret == old(currentPage + pageOffset)
      ensures bytes > 0 && !old(currentPage != 0 && pageSize - pageOffset >= bytes) && mapped.Some? ==>
        ret == mapped.value + 16
      ensures ret != 0 && old(Holds(bytes)) && currentPage != 0 ==> currentPage + pageOffset == ret + bytes
    {
      hide WellPlaced, PlacedIn, Avoid, HeadersOk, TotalPages, BytesIn, Mappings, PagesFor, Fresh;
      if bytes == 0 {
        return 0;
      }
      if HasRoom(bytes) {
        Carve(blocks, Maps(), Free(), bytes);
        ret := currentPage + pageOffset;
        pageOffset := pageOffset + bytes;
        if pageOffset == pageSize {
          pageOffset, currentPage := 0, 0;
        }
        blocks := blocks + [Range(ret, bytes)];
        return;
      }
      ret := AllocPages(bytes, mapped);
    }

    /** The rest of Alloc, when the current page has no room. */
    method AllocPages(bytes: Address, mapped: Option<Address>) returns (ret: int)
      requires Valid() && bytes > 0 && !HasRoom(bytes)
      requires var pages := PagesFor(bytes, pageSize);
        mapped.Some? ==> 0 < pages && Fresh(Range(mapped.value, BytesIn(pages, pageSize)), Maps())
      modifies this
      ensures Headers() && (Valid() <==> ret == 0 || old(Holds(bytes)))
      ensures ret == if mapped.Some? then mapped.value + 16 else 0
      ensures ret == 0 ==> unchanged(this)
      ensures ret != 0 ==> (
                && blocks == old(blocks) + [Range(ret, bytes)] && list == [mapped.value] + old(list)
                && Maps() == [Range(mapped.value, BytesIn(PagesFor(bytes, pageSize), pageSize))] + old(Maps()))
      ensures ret != 0 && old(Holds(bytes)) ==> (
                var room := BehindHeader(Maps()[0]);
                && ret == room.base && (currentPage == 0 <==> bytes == room.size)
                && (currentPage != 0 ==> Free() == WithoutFirst(room, bytes)))
    {
      hide WellPlaced, PlacedIn, Avoid, HeadersOk, TotalPages, BytesIn, Mappings, PagesFor;
      var pages := PagesFor(bytes, pageSize);
      PagesHoldRequest(bytes, pageSize);
      ghost var ms, holds := Maps(), Holds(bytes);
      var a := GetNPages(pages, mapped);
      if a == 0 {
        return 0;
      }
      ghost var m := Range(a, BytesIn(pages, pageSize));
      PageForHeader(pages, pageSize);
      MoreRoom(blocks, ms, m);
      if holds {
        Carve(blocks, Maps(), BehindHeader(m), bytes);
      }
      UsedOfPages(bytes, pageSize);
      pageOffset := OffsetBefore(Minus(BytesIn(pages, pageSize), Plus(bytes, HEADER_SIZE)), pageSize);
      currentPage := if pageOffset != 0 then a + BytesIn(pages - 1, pageSize) else 0;
      ret := a + HEADER_SIZE;
      if !holds {
        NotPlaced(blocks, Range(ret, bytes), memory, last, list, pageSize);
      }
      blocks := blocks + [Range(ret, bytes)];
    }

    method OwnsPointer(p: Address) returns (owns: bool)
      requires Headers()
      ensures owns <==> exists k :: 0 <= k < |Maps()| && Maps()[k].Has(p)
    {
      hide HeadersOk, Chain, BytesIn, TotalPages;
      ChainOfHeaders(memory, last, list, pageSize);
      var header: Address := last;
      ghost var i: nat := 0;
      assert list[0..] == list;
      while header != 0
        invariant i <= |list| && Chain(memory, header, list[i..])
        invariant forall k :: 0 <= k < i ==> !Maps()[k].Has(p)
        decreases |list| - i
      {
        FirstOfChain(memory, header, list, i);
        assert Maps()[i] == Mapping(memory, header, pageSize);
        if header <= p < header + BytesIn(memory[header].numPages, pageSize) {
          return true;
        }
        header, i := memory[header].next, i + 1;
      }
      EndOfChain(memory, list[i..]);
      owns := false;
    }

    /** `released` lists the calls that give mappings back to the kernel. */
    method FreeAll() returns (released: seq<Range>)
      requires Headers()
      modifies this`memory
      ensures released == old(Maps()) && memory == map[]
    {
      hide Distinct, BytesIn, MappingsOk, HeadersOk, Chain, StillMapped, Mappings, TotalPages;
      AllMapped(memory, last, list, pageSize);
      var cur: Address := last;
      released := [];
      ghost var ms, i := Maps(), 0;
      assert list[0..] == list;
      while cur != 0
        invariant 0 <= i <= |list| && Chain(memory, cur, list[i..])
        invariant StillMapped(memory, old(memory), list[i..]) && released == ms[..i]
        decreases |list| - i
      {
        UnmapFirst(memory, old(memory), cur, list, i);
        assert ms[..i + 1] == ms[..i] + [ms[i]];
        var next: Address := memory[cur].next;
        released := released + [Range(cur, BytesIn(memory[cur].numPages, pageSize))];
        memory := memory - {cur};
        cur, i := next, i + 1;
      }
      AllUnmapped(memory, old(memory), list[i..]);
    }
  }
}
