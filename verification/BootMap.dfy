/** Filling the page allocator at boot: pmm_init of kernel/pmm.c, which walks the
    Multiboot2 information structure (section 3.6.8, "Memory map", of the
    Multiboot2 Specification 2.0), frees every available page and then takes back
    the pages of the kernel image and of the bitmap. */
module BootMap {
  import opened Pmm

  /** Physical memory as the boot loader left it: the 32-bit little-endian word at each address. */
  type Memory = nat -> nat

  const MMAP_TAG: nat := 6
  const AVAILABLE: nat := 1
  const ADDRESS_LIMIT: nat := 0x1_0000_0000_0000_0000

  function U32(m: Memory, a: nat): nat {
    m(a)
  }

  function U64(m: Memory, a: nat): nat {
    m(a) + 0x1_0000_0000 * m(a + 4)
  }

  /** A half-open range of physical addresses the kernel may use: it starts at or above the base. */
  datatype AnyRegion = Region(start: nat, end: nat)
  type Region = r: AnyRegion | BASE_ADDR <= r.start witness Region(BASE_ADDR, BASE_ADDR)

  // ----- what the information structure says -----

  predicate EntryOk(m: Memory, p: nat) {
    U64(m, p) + U64(m, p + 8) + 4096 <= ADDRESS_LIMIT
  }

  /** What one entry offers: its range if it is of type 1 and starts at or above the base. */
  function EntryRegion(m: Memory, p: nat): seq<Region> {
    if U32(m, p + 16) == AVAILABLE && U64(m, p) >= BASE_ADDR
    then [Region(U64(m, p), U64(m, p) + U64(m, p + 8))] else []
  }

  /** What the entries of one memory map tag offer. */
  function EntryRegions(m: Memory, p: nat, end: nat, step: nat): seq<Region>
    requires step > 0
    decreases end - p
  {
    if p >= end then [] else EntryRegion(m, p) + EntryRegions(m, p + step, end, step)
  }

  predicate EntriesOk(m: Memory, p: nat, end: nat, step: nat)
    requires step > 0
    decreases end - p
  {
    p >= end || (EntryOk(m, p) && EntriesOk(m, p + step, end, step))
  }

  /** The next tag starts at the next multiple of eight. */
  function NextTag(m: Memory, p: nat): nat {
    (p + U32(m, p + 4) + 7) / 8 * 8
  }

  /** What the walk needs in order to end: no empty tag, no zero entry stride, no wrap-around. */
  predicate TagsOk(m: Memory, p: nat, end: nat)
    decreases end - p
  {
    p >= end
    || (&& U32(m, p + 4) > 0
        && (U32(m, p) == MMAP_TAG ==>
              U32(m, p + 8) > 0 && EntriesOk(m, p + 16, p + U32(m, p + 4), U32(m, p + 8)))
        && TagsOk(m, NextTag(m, p), end))
  }

  /** What one tag offers. */
  function TagRegion(m: Memory, p: nat): seq<Region>
    requires U32(m, p) == MMAP_TAG ==> U32(m, p + 8) > 0
  {
    if U32(m, p) == MMAP_TAG then EntryRegions(m, p + 16, p + U32(m, p + 4), U32(m, p + 8)) else []
  }

  function TagRegions(m: Memory, p: nat, end: nat): seq<Region>
    requires TagsOk(m, p, end)
    decreases end - p
  {
    if p >= end then [] else TagRegion(m, p) + TagRegions(m, NextTag(m, p), end)
  }

  predicate InfoOk(m: Memory, info: nat) {
    TagsOk(m, info + 8, info + U32(m, info))
  }

  function AvailableRegions(m: Memory, info: nat): seq<Region>
    requires InfoOk(m, info)
  {
    TagRegions(m, info + 8, info + U32(m, info))
  }

  // ----- the pages the loops touch -----

  /** The pages met by a loop that steps through [start, end) one page size at a time. */
  function Swept(start: nat, end: int): set<nat>
    decreases end - start
  {
    if start >= end then {}
    else (if Managed(start) then {IndexOf(start)} else {}) + Swept(start + 4096, end)
  }

  /** How many of its iterations meet a managed page. */
  function Steps(start: nat, end: int): nat
    decreases end - start
  {
    if start >= end then 0 else (if Managed(start) then 1 else 0) + Steps(start + 4096, end)
  }

  /** A step of the walk needs a whole page before the end of the region. */
  function LastStart(r: Region): int {
    r.end - 4095
  }

  /** The pages a list of regions offers, and how many times it offers one. */
  function Offered(rs: seq<Region>): set<nat> {
    if rs == [] then {} else Swept(rs[0].start, LastStart(rs[0])) + Offered(rs[1..])
  }

  function Offers(rs: seq<Region>): nat {
    if rs == [] then 0 else Steps(rs[0].start, LastStart(rs[0])) + Offers(rs[1..])
  }

  const BITMAP_BYTES: nat := MAX_PAGES / 8

  function KernelEndSafe(kernelEnd: nat): nat {
    if kernelEnd + 0x100000 < 0x400000 then 0x400000 else kernelEnd + 0x100000
  }

  function Min(a: nat, b: nat): nat {
    if a < b then a else b
  }

  /** Everything the three reservation loops take back. */
  function Reserved(kernelStart: nat, kernelEnd: nat, bitmapStart: nat): set<nat> {
    Swept(kernelStart, KernelEndSafe(kernelEnd))
    + (if bitmapStart >= BASE_ADDR then Swept(bitmapStart, bitmapStart + BITMAP_BYTES) else {})
    + Swept(BASE_ADDR, Min(BASE_ADDR + 0x1000000, KernelEndSafe(kernelEnd)))
  }

  lemma {:induction false} OfferedAppend(a: seq<Region>, b: seq<Region>)
    ensures Offered(a + b) == Offered(a) + Offered(b)
    ensures Offers(a + b) == Offers(a) + Offers(b)
  {
    if a == [] {
      assert a + b == b;
    } else {
      OfferedAppend(a[1..], b);
      assert (a + b)[1..] == a[1..] + b;
    }
  }

  /** What the entries from p on offer. */
  ghost function EntryPages(m: Memory, p: nat, end: nat, step: nat): set<nat>
    requires 0 < step
  {
    Offered(EntryRegions(m, p, end, step))
  }

  ghost function EntryOffers(m: Memory, p: nat, end: nat, step: nat): nat
    requires 0 < step
  {
    Offers(EntryRegions(m, p, end, step))
  }

  lemma EntryStep(m: Memory, p: nat, end: nat, step: nat)
    requires 0 < step && p < end
    ensures forall x :: x in EntryPages(m, p, end, step)
                        <==> x in Offered(EntryRegion(m, p)) || x in EntryPages(m, p + step, end, step)
    ensures EntryOffers(m, p, end, step) == Offers(EntryRegion(m, p)) + EntryOffers(m, p + step, end, step)
  {
    OfferedAppend(EntryRegion(m, p), EntryRegions(m, p + step, end, step));
  }

  // ----- the loops -----

  /** Inner loop of the walk: free every whole page-sized step of one region. */
  method FreeRegion(pmm: PageAllocator, r: Region)
    requires pmm.Consistent()
    modifies pmm, pmm.bitmap
    ensures pmm.Consistent()
    ensures forall x :: x in pmm.free <==> x in old(pmm.free) || x in Swept(r.start, LastStart(r))
    ensures pmm.totalPages - pmm.freePages == old(pmm.totalPages - pmm.freePages)
    ensures pmm.freePages == old(pmm.freePages) + Steps(r.start, LastStart(r))
  {
    var addr := r.start;
    while addr + 4096 <= r.end
      invariant BASE_ADDR <= addr && pmm.Consistent()
      invariant forall x :: x in pmm.free || x in Swept(addr, LastStart(r))
                            <==> x in old(pmm.free) || x in Swept(r.start, LastStart(r))
      invariant pmm.totalPages - pmm.freePages == old(pmm.totalPages - pmm.freePages)
      invariant pmm.freePages + Steps(addr, LastStart(r)) == old(pmm.freePages) + Steps(r.start, LastStart(r))
      decreases r.end - addr
    {
      var i := (addr - BASE_ADDR) / 4096;
      if i < MAX_PAGES {
        pmm.SetPageFree(i);
        pmm.totalPages := pmm.totalPages + 1;
        pmm.freePages := pmm.freePages + 1;
      }
      addr := addr + 4096;
    }
  }

  /** One entry of the map. */
  method FreeEntry(pmm: PageAllocator, m: Memory, p: nat)
    requires pmm.Consistent()
    modifies pmm, pmm.bitmap
    ensures pmm.Consistent()
    ensures forall x :: x in pmm.free <==> x in old(pmm.free) || x in Offered(EntryRegion(m, p))
    ensures pmm.totalPages - pmm.freePages == old(pmm.totalPages - pmm.freePages)
    ensures pmm.freePages == old(pmm.freePages) + Offers(EntryRegion(m, p))
  {
    if U32(m, p + 16) == AVAILABLE && U64(m, p) >= BASE_ADDR {
      FreeRegion(pmm, Region(U64(m, p), U64(m, p) + U64(m, p + 8)));
      assert EntryRegion(m, p)[1..] == [];
    }
  }

  /** The memory map tag's entries, `entry_size` bytes apart. */
  method FreeEntries(pmm: PageAllocator, m: Memory, first: nat, end: nat, step: nat)
    requires pmm.Consistent() && step > 0
    modifies pmm, pmm.bitmap
    ensures pmm.Consistent()
    ensures forall x :: x in pmm.free <==> x in old(pmm.free) || x in Offered(EntryRegions(m, first, end, step))
    ensures pmm.totalPages - pmm.freePages == old(pmm.totalPages - pmm.freePages)
    ensures pmm.freePages == old(pmm.freePages) + Offers(EntryRegions(m, first, end, step))
  {
    var p := first;
    ghost var free0, pages0 := pmm.free, pmm.freePages;
    ghost var all, many := EntryPages(m, first, end, step), EntryOffers(m, first, end, step);
    ghost var rest, left := all, many;
    while p < end
      invariant pmm.Consistent()
      invariant rest == EntryPages(m, p, end, step) && left == EntryOffers(m, p, end, step)
      invariant forall x :: x in pmm.free || x in rest <==> x in free0 || x in all
      invariant pmm.totalPages - pmm.freePages == old(pmm.totalPages - pmm.freePages)
      invariant pmm.freePages + left == pages0 + many
      decreases end - p
    {
      EntryStep(m, p, end, step);
      FreeEntry(pmm, m, p);
      p := p + step;
      rest, left := EntryPages(m, p, end, step), EntryOffers(m, p, end, step);
    }
  }

  /** One reservation loop. The counter and the bitmap drift apart by nothing. */
  method ReserveRange(pmm: PageAllocator, start: nat, end: nat)
    requires pmm.Consistent()
    modifies pmm`freePages, pmm`free, pmm.bitmap
    ensures pmm.Consistent()
    ensures forall x :: x in pmm.free <==> x in old(pmm.free) && x !in Swept(start, end)
    ensures pmm.freePages - |pmm.free| == old(pmm.freePages - |pmm.free|)
  {
    var addr := start;
    while addr < end
      invariant pmm.Consistent()
      invariant forall x :: x in pmm.free && x !in Swept(addr, end) <==> x in old(pmm.free) && x !in Swept(start, end)
      invariant pmm.freePages - |pmm.free| == old(pmm.freePages - |pmm.free|)
      decreases end - addr
    {
      if addr >= BASE_ADDR {
        var i := (addr - BASE_ADDR) / 4096;
        if i < MAX_PAGES {
          var clear := pmm.IsPageFree(i);
          if clear {
            pmm.SetPageUsed(i);
            pmm.freePages := pmm.freePages - 1;
          }
        }
      }
      addr := addr + 4096;
    }
  }

  lemma AllUsed(bitmap: seq<bv8>)
    requires |bitmap| == MAX_PAGES / 8 && forall i :: 0 <= i < |bitmap| ==> bitmap[i] == 0xFF
    ensures Describes(bitmap, {})
  {
    forall i: nat | i < MAX_PAGES
      ensures !IsClear(bitmap, i)
    {
      assert Mask(i % 8) & 0xFF != 0;
    }
  }

  /** The memset that starts pmm_init. */
  method MarkAllUsed(pmm: PageAllocator)
    requires pmm.bitmap.Length == MAX_PAGES / 8
    modifies pmm, pmm.bitmap
    ensures pmm.Consistent() && pmm.free == {} && pmm.totalPages == 0 && pmm.freePages == 0
  {
    forall i | 0 <= i < pmm.bitmap.Length {
      pmm.bitmap[i] := 0xFF;
    }
    AllUsed(pmm.bitmap[..]);
    pmm.free := {};
    pmm.totalPages, pmm.freePages := 0, 0;
  }

  /** One tag of the information structure. */
  method FreeTag(pmm: PageAllocator, m: Memory, tag: nat)
    requires pmm.Consistent() && (U32(m, tag) == MMAP_TAG ==> U32(m, tag + 8) > 0)
    modifies pmm, pmm.bitmap
    ensures pmm.Consistent()
    ensures forall x :: x in pmm.free <==> x in old(pmm.free) || x in Offered(TagRegion(m, tag))
    ensures pmm.totalPages - pmm.freePages == old(pmm.totalPages - pmm.freePages)
    ensures pmm.freePages == old(pmm.freePages) + Offers(TagRegion(m, tag))
  {
    if U32(m, tag) == MMAP_TAG {
      FreeEntries(pmm, m, tag + 16, tag + U32(m, tag + 4), U32(m, tag + 8));
    }
  }

  /** The tag walk, from an all-used bitmap. */
  method FreeAvailable(pmm: PageAllocator, m: Memory, info: nat)
    requires pmm.Consistent() && pmm.free == {} && pmm.totalPages == pmm.freePages == 0 && InfoOk(m, info)
    modifies pmm, pmm.bitmap
    ensures pmm.Consistent()
    ensures pmm.free == Offered(AvailableRegions(m, info))
    ensures pmm.totalPages == Offers(AvailableRegions(m, info)) == pmm.freePages
  {
    var tag, end := info + 8, info + U32(m, info);
    ghost var all := AvailableRegions(m, info);
    while tag < end
      invariant TagsOk(m, tag, end) && pmm.Consistent()
      invariant forall x :: x in pmm.free || x in Offered(TagRegions(m, tag, end)) <==> x in Offered(all)
      invariant pmm.totalPages == pmm.freePages
      invariant pmm.freePages + Offers(TagRegions(m, tag, end)) == Offers(all)
      decreases end - tag
    {
      FreeTag(pmm, m, tag);
      OfferedAppend(TagRegion(m, tag), TagRegions(m, NextTag(m, tag), end));
      tag := NextTag(m, tag);
    }
  }

  /** The three reservation loops. */
  method ReserveKernel(pmm: PageAllocator, kernelStart: nat, kernelEnd: nat, bitmapStart: nat)
    requires pmm.Consistent()
    modifies pmm`freePages, pmm`free, pmm.bitmap
    ensures pmm.Consistent()
    ensures forall x :: x in pmm.free <==> x in old(pmm.free) && x !in Reserved(kernelStart, kernelEnd, bitmapStart)
    ensures pmm.freePages - |pmm.free| == old(pmm.freePages - |pmm.free|)
  {
    var kernelEndSafe := KernelEndSafe(kernelEnd);
    ReserveRange(pmm, kernelStart, kernelEndSafe);
    if bitmapStart >= BASE_ADDR {
      ReserveRange(pmm, bitmapStart, bitmapStart + BITMAP_BYTES);
    }
    ReserveRange(pmm, BASE_ADDR, Min(BASE_ADDR + 0x1000000, kernelEndSafe));
  }

  /** pmm_init. The free set is what the map offers minus what is reserved; the counter exceeds
      it by exactly the number of times a page was offered again. */
  method PmmInit(pmm: PageAllocator, m: Memory, info: nat, kernelStart: nat, kernelEnd: nat, bitmapStart: nat)
    requires pmm.bitmap.Length == MAX_PAGES / 8 && InfoOk(m, info)
    modifies pmm, pmm.bitmap
    ensures pmm.Consistent()
    ensures forall x :: x in pmm.free <==>
              x in Offered(AvailableRegions(m, info)) && x !in Reserved(kernelStart, kernelEnd, bitmapStart)
    ensures pmm.totalPages == Offers(AvailableRegions(m, info))
    ensures pmm.freePages == |pmm.free| + (Offers(AvailableRegions(m, info)) - |Offered(AvailableRegions(m, info))|)
    ensures pmm.Valid() <==> NoSharedPage(AvailableRegions(m, info))
  {
    MarkAllUsed(pmm);
    FreeAvailable(pmm, m, info);
    ReserveKernel(pmm, kernelStart, kernelEnd, bitmapStart);
    OffersBound(AvailableRegions(m, info));
  }

  // ----- what that means -----

  /** Membership in a sweep, without the loop: some step falls into the page. */
  lemma {:induction false} SweptWitness(start: nat, end: int, i: nat) returns (x: nat)
    requires i in Swept(start, end)
    ensures start <= x < end && Managed(x) && IndexOf(x) == i
    decreases end - start
  {
    if Managed(start) && IndexOf(start) == i {
      x := start;
    } else {
      x := SweptWitness(start + 4096, end, i);
    }
  }

  /** A sweep from any start meets exactly the pages at whose same offset a step falls into the range. */
  lemma {:induction false} SweptIff(start: nat, end: int, i: nat)
    ensures i in Swept(start, end) <==> i < MAX_PAGES && start <= AddrOf(i) + start % 4096 < end
    decreases end - start
  {
    if start < end {
      SweptIff(start + 4096, end, i);
      StepOffset(start, i);
    }
  }

  lemma StepOffset(start: nat, i: nat)
    ensures (start + 4096) % 4096 == start % 4096
    ensures AddrOf(i) + start % 4096 == start <==> start >= BASE_ADDR && IndexOf(start) == i
    ensures start < AddrOf(i) + start % 4096 ==> start + 4096 <= AddrOf(i) + start % 4096
  {
  }

  /** Within one range no page is met twice. */
  lemma {:induction false} StepsAreDistinct(start: nat, end: int)
    ensures Steps(start, end) == |Swept(start, end)|
    decreases end - start
  {
    if start < end {
      StepsAreDistinct(start + 4096, end);
      if Managed(start) {
        SweptIff(start + 4096, end, IndexOf(start));
        StepOffset(start, IndexOf(start));
        assert IndexOf(start) !in Swept(start + 4096, end);
      }
    }
  }

  predicate Overlap(r: Region, q: Region) {
    r.start < q.end && q.start < r.end
  }

  ghost predicate PairwiseDisjoint(rs: seq<Region>) {
    forall i, j :: 0 <= i < j < |rs| ==> !Overlap(rs[i], rs[j])
  }

  /** Two disjoint regions never offer the same page, whatever their alignment. */
  lemma DisjointOffers(r: Region, q: Region, i: nat)
    requires !Overlap(r, q) && i in Swept(r.start, LastStart(r))
    ensures i !in Swept(q.start, LastStart(q))
  {
    if i in Swept(q.start, LastStart(q)) {
      var x := SweptWitness(r.start, LastStart(r), i);
      var y := SweptWitness(q.start, LastStart(q), i);
      assert false;
    }
  }

  lemma {:induction false} DisjointFromAll(r: Region, rs: seq<Region>, i: nat)
    requires i in Swept(r.start, LastStart(r)) && forall q :: q in rs ==> !Overlap(r, q)
    ensures i !in Offered(rs)
  {
    if rs != [] {
      DisjointOffers(r, rs[0], i);
      DisjointFromAll(r, rs[1..], i);
    }
  }

  /** So for disjoint regions the two counts agree, and pmm_init leaves the counter exact. */
  lemma {:induction false} DisjointCountsExact(rs: seq<Region>)
    requires PairwiseDisjoint(rs)
    ensures Offers(rs) == |Offered(rs)|
  {
    if rs != [] {
      DisjointCountsExact(rs[1..]);
      StepsAreDistinct(rs[0].start, LastStart(rs[0]));
      var here := Swept(rs[0].start, LastStart(rs[0]));
      forall i | i in here
        ensures i !in Offered(rs[1..])
      {
        DisjointFromAll(rs[0], rs[1..], i);
      }
      assert here !! Offered(rs[1..]);
    }
  }

  /** No page is offered by two regions. */
  ghost predicate NoSharedPage(rs: seq<Region>) {
    forall j, k :: 0 <= j < k < |rs| ==> Swept(rs[j].start, LastStart(rs[j])) !! Swept(rs[k].start, LastStart(rs[k]))
  }

  lemma {:induction false} OfferedMember(rs: seq<Region>, i: nat)
    ensures i in Offered(rs) <==> exists k :: 0 <= k < |rs| && i in Swept(rs[k].start, LastStart(rs[k]))
  {
    if rs != [] {
      OfferedMember(rs[1..], i);
      if i in Offered(rs[1..]) {
        var k :| 0 <= k < |rs[1..]| && i in Swept(rs[1..][k].start, LastStart(rs[1..][k]));
        assert rs[k + 1] == rs[1..][k];
      }
    }
  }

  lemma FirstShares(rs: seq<Region>)
    requires rs != []
    ensures NoSharedPage(rs) <==> NoSharedPage(rs[1..])
                                  && Swept(rs[0].start, LastStart(rs[0])) !! Offered(rs[1..])
  {
    var s := Swept(rs[0].start, LastStart(rs[0]));
    forall i: nat | i in s
      ensures i in Offered(rs[1..]) <==> exists k :: 0 < k < |rs| && i in Swept(rs[k].start, LastStart(rs[k]))
    {
      OfferedMember(rs[1..], i);
      assert forall k :: 0 < k < |rs| ==> rs[1..][k - 1] == rs[k];
      assert forall k :: 0 <= k < |rs[1..]| ==> rs[1..][k] == rs[k + 1];
    }
    if NoSharedPage(rs[1..]) && s !! Offered(rs[1..]) {
      forall j, k | 0 <= j < k < |rs|
        ensures Swept(rs[j].start, LastStart(rs[j])) !! Swept(rs[k].start, LastStart(rs[k]))
      {
        if j > 0 {
          assert rs[1..][j - 1] == rs[j] && rs[1..][k - 1] == rs[k];
        }
      }
    }
  }

  lemma UnionCard(a: set<nat>, b: set<nat>)
    ensures |a + b| <= |a| + |b|
    ensures |a + b| == |a| + |b| <==> a !! b
  {
    assert |a + b| + |a * b| == |a| + |b|;
    if !(a !! b) {
      var x :| x in a && x in b;
      assert x in a * b;
    } else {
      assert a * b == {};
    }
  }

  /** The counter of pmm_init counts each free page once exactly when no two regions share one. */
  lemma {:induction false} OffersBound(rs: seq<Region>)
    ensures |Offered(rs)| <= Offers(rs)
    ensures Offers(rs) == |Offered(rs)| <==> NoSharedPage(rs)
  {
    if rs != [] {
      StepsAreDistinct(rs[0].start, LastStart(rs[0]));
      OffersBound(rs[1..]);
      UnionCard(Swept(rs[0].start, LastStart(rs[0])), Offered(rs[1..]));
      FirstShares(rs);
    }
  }

  // ----- the information structure as a list of tags -----

  /** A memory map entry as section 3.6.8 of the Multiboot2 Specification lists it. */
  datatype MapEntry = MapEntry(addr: nat, len: nat, kind: nat)

  /** A tag: a memory map whose entries lie `step` bytes apart, or one of another type and any size. */
  datatype Tag = MapTag(step: nat, entries: seq<MapEntry>) | OtherTag(kind: nat, size: nat)

  /** The entry stands at p: two 64-bit words, each its low half first, and a 32-bit one. */
  ghost predicate EntryAt(m: Memory, p: nat, e: MapEntry) {
    && e.addr < 0x1_0000_0000_0000_0000 && e.len < 0x1_0000_0000_0000_0000
    && m(p) == e.addr % 0x1_0000_0000 && m(p + 4) == e.addr / 0x1_0000_0000
    && m(p + 8) == e.len % 0x1_0000_0000 && m(p + 12) == e.len / 0x1_0000_0000
    && m(p + 16) == e.kind
  }

  ghost predicate EntriesAt(m: Memory, p: nat, step: nat, es: seq<MapEntry>)
    decreases |es|
  {
    es == [] || (EntryAt(m, p, es[0]) && EntriesAt(m, p + step, step, es[1..]))
  }

  /** How many bytes a tag takes: 16 before the entries of a memory map. */
  function TagSize(t: Tag): nat {
    match t
    case MapTag(step, es) => 16 + |es| * step
    case OtherTag(_, size) => size
  }

  ghost predicate TagAt(m: Memory, p: nat, t: Tag) {
    && m(p + 4) == TagSize(t) > 0
    && match t
       case MapTag(step, es) => step > 0 && m(p) == 6 && m(p + 8) == step && EntriesAt(m, p + 16, step, es)
       case OtherTag(kind, _) => kind != 6 && m(p) == kind
  }

  /** The tags stand one behind the other from p on, each at a multiple of eight, and the last reaches the end. */
  ghost predicate TagsAt(m: Memory, p: nat, end: nat, ts: seq<Tag>)
    decreases |ts|
  {
    if ts == [] then p >= end
    else p < end && TagAt(m, p, ts[0]) && TagsAt(m, (p + TagSize(ts[0]) + 7) / 8 * 8, end, ts[1..])
  }

  /** The whole structure: its size, a reserved word, and the tags. */
  ghost predicate InfoAt(m: Memory, info: nat, ts: seq<Tag>) {
    TagsAt(m, info + 8, info + m(info), ts)
  }

  predicate Usable(e: MapEntry) {
    e.kind == 1 && e.addr >= 0x100000
  }

  /** What one entry offers. */
  function UsableRange(e: MapEntry): seq<Region> {
    if Usable(e) then [Region(e.addr, e.addr + e.len)] else []
  }

  /** The ranges of the entries that are RAM and start at 1 MiB or above, in the order of the list. */
  function UsableRanges(es: seq<MapEntry>): seq<Region> {
    if es == [] then []
    else UsableRange(es[0]) + UsableRanges(es[1..])
  }

  function EntriesOf(t: Tag): seq<MapEntry> {
    match t
    case MapTag(_, es) => es
    case OtherTag(_, _) => []
  }

  /** All entries of all memory maps, in order. */
  function AllEntries(ts: seq<Tag>): seq<MapEntry> {
    if ts == [] then [] else EntriesOf(ts[0]) + AllEntries(ts[1..])
  }

  /** No entry ends so high that the loop counter could wrap around. */
  ghost predicate NoWrap(es: seq<MapEntry>) {
    forall e :: e in es ==> e.addr + e.len + 4096 <= 0x1_0000_0000_0000_0000
  }

  lemma EntryReads(m: Memory, p: nat, e: MapEntry)
    requires EntryAt(m, p, e)
    ensures EntryRegion(m, p) == UsableRange(e) && (EntryOk(m, p) <==> NoWrap([e]))
  {
    assert U64(m, p) == e.addr && U64(m, p + 8) == e.len;
  }

  lemma NoWrapParts(a: seq<MapEntry>, b: seq<MapEntry>)
    ensures NoWrap(a + b) <==> NoWrap(a) && NoWrap(b)
  {
    assert forall e :: e in a + b <==> e in a || e in b;
  }

  lemma FirstStride(k: nat, step: nat)
    requires k > 0
    ensures k * step == step + (k - 1) * step
  {
  }

  /** The entries of one tag offer what the list says. */
  lemma {:induction false} EntriesRead(m: Memory, p: nat, end: nat, step: nat, es: seq<MapEntry>)
    requires step > 0 && EntriesAt(m, p, step, es) && NoWrap(es) && end == p + |es| * step
    ensures EntriesOk(m, p, end, step) && EntryRegions(m, p, end, step) == UsableRanges(es)
    decreases |es|
  {
    if es != [] {
      EntryReads(m, p, es[0]);
      assert es == [es[0]] + es[1..];
      NoWrapParts([es[0]], es[1..]);
      FirstStride(|es|, step);
      EntriesRead(m, p + step, end, step, es[1..]);
    }
  }

  lemma {:induction false} UsableAppend(a: seq<MapEntry>, b: seq<MapEntry>)
    ensures UsableRanges(a + b) == UsableRanges(a) + UsableRanges(b)
  {
    if a == [] {
      assert a + b == b;
    } else {
      UsableAppend(a[1..], b);
      assert (a + b)[0] == a[0] && (a + b)[1..] == a[1..] + b;
      RegionsAssociative(UsableRange(a[0]), UsableRanges(a[1..]), UsableRanges(b));
    }
  }

  lemma RegionsAssociative(a: seq<Region>, b: seq<Region>, c: seq<Region>)
    ensures a + (b + c) == (a + b) + c
  {
  }

  lemma MapTagReads(m: Memory, p: nat, step: nat, es: seq<MapEntry>)
    requires m(p) == 6 && m(p + 4) == 16 + |es| * step && m(p + 8) == step > 0
    requires EntriesAt(m, p + 16, step, es) && NoWrap(es)
    ensures EntriesOk(m, p + 16, p + U32(m, p + 4), U32(m, p + 8)) && TagRegion(m, p) == UsableRanges(es)
  {
    EntriesRead(m, p + 16, p + m(p + 4), step, es);
  }

  lemma TagReads(m: Memory, p: nat, t: Tag)
    requires TagAt(m, p, t) && NoWrap(EntriesOf(t))
    ensures U32(m, p + 4) > 0 && NextTag(m, p) == (p + TagSize(t) + 7) / 8 * 8
    ensures U32(m, p) == MMAP_TAG ==>
              U32(m, p + 8) > 0 && EntriesOk(m, p + 16, p + U32(m, p + 4), U32(m, p + 8))
    ensures TagRegion(m, p) == UsableRanges(EntriesOf(t))
  {
    if t.MapTag? {
      MapTagReads(m, p, t.step, t.entries);
    }
  }

  lemma {:induction false} TagsRead(m: Memory, p: nat, end: nat, ts: seq<Tag>)
    requires TagsAt(m, p, end, ts) && NoWrap(AllEntries(ts))
    ensures TagsOk(m, p, end) && TagRegions(m, p, end) == UsableRanges(AllEntries(ts))
    decreases |ts|
  {
    if ts != [] {
      var here, rest := EntriesOf(ts[0]), AllEntries(ts[1..]);
      NoWrapParts(here, rest);
      TagReads(m, p, ts[0]);
      TagsRead(m, NextTag(m, p), end, ts[1..]);
      UsableAppend(here, rest);
    }
  }

  /** The walk of pmm_init reads the structure as it is meant: for any tags laid out in memory, memory maps of any
      stride among others of any type and size, the regions it frees are the ranges of the entries of type 1 that
      start at or above 1 MiB, in order. */
  lemma InfoReads(m: Memory, info: nat, ts: seq<Tag>)
    requires InfoAt(m, info, ts) && NoWrap(AllEntries(ts))
    ensures InfoOk(m, info) && AvailableRegions(m, info) == UsableRanges(AllEntries(ts))
  {
    TagsRead(m, info + 8, info + m(info), ts);
  }

  /** A Multiboot2 information structure at address 0 whose one memory map tag lists the same page twice. */
  function TwiceListed(a: nat): nat {
    if a == 0 then 80
    else if a == 8 then 6 else if a == 12 then 64 else if a == 16 then 24
    else if a == 24 || a == 48 then BASE_ADDR else if a == 32 || a == 56 then 4096
    else if a == 40 || a == 64 then AVAILABLE
    else if a == 76 then 8 else 0
  }

  lemma TwiceListedEntries()
    ensures EntriesOk(TwiceListed, 24, 72, 24)
    ensures var r := Region(BASE_ADDR, BASE_ADDR + 4096); EntryRegions(TwiceListed, 24, 72, 24) == [r, r]
  {
    var m, r: Region := TwiceListed, Region(BASE_ADDR, BASE_ADDR + 4096);
    assert EntryRegion(m, 24) == [r] && EntryRegion(m, 48) == [r];
    assert EntryRegions(m, 72, 72, 24) == [] && EntryRegions(m, 48, 72, 24) == [r];
  }

  lemma TwiceListedRegions()
    ensures InfoOk(TwiceListed, 0)
    ensures var r := Region(BASE_ADDR, BASE_ADDR + 4096); AvailableRegions(TwiceListed, 0) == [r, r]
  {
    var m, r: Region := TwiceListed, Region(BASE_ADDR, BASE_ADDR + 4096);
    assert NextTag(m, 72) == 80 && NextTag(m, 8) == 72;
    assert TagsOk(m, 80, 80) && TagsOk(m, 72, 80);
    TwiceListedEntries();
    assert TagRegions(m, 80, 80) == [] && TagRegions(m, 72, 80) == [];
  }

  /** Without disjointness it is not so: pmm_init counts a page that the map lists twice as two. */
  lemma OverlapOvercounts()
    ensures InfoOk(TwiceListed, 0)
    ensures var rs := AvailableRegions(TwiceListed, 0);
            !NoSharedPage(rs) && Offers(rs) == 2 && Offered(rs) == {0}
  {
    TwiceListedRegions();
    var r: Region := Region(BASE_ADDR, BASE_ADDR + 4096);
    var rs := [r, r];
    assert rs[1..] == [r] && [r][1..] == [];
    assert Swept(r.start, LastStart(r)) == {0} && Steps(r.start, LastStart(r)) == 1;
    assert Offered([]) == {} && Offers([]) == 0;
    assert Offered([r]) == {0} && Offers([r]) == 1;
    assert Offered(rs) == {0} && Offers(rs) == 2;
    OffersBound(rs);
  }

  // ----- which pages boot leaves free -----

  /** The walk of one region frees page i. */
  predicate Frees(r: Region, i: nat) {
    r.start <= AddrOf(i) + r.start % 4096 && AddrOf(i) + r.start % 4096 + 4096 <= r.end
  }

  /** Page i lies wholly inside the region. */
  predicate Holds(r: Region, i: nat) {
    r.start <= AddrOf(i) && AddrOf(i) + 4096 <= r.end
  }

  lemma {:induction false} OfferedIff(rs: seq<Region>, i: nat)
    ensures i in Offered(rs) <==> i < MAX_PAGES && exists r :: r in rs && Frees(r, i)
  {
    if rs != [] {
      OfferedIff(rs[1..], i);
      SweptIff(rs[0].start, LastStart(rs[0]), i);
      assert i in Swept(rs[0].start, LastStart(rs[0])) <==> i < MAX_PAGES && Frees(rs[0], i);
      assert forall r :: r in rs <==> r == rs[0] || r in rs[1..];
    }
  }

  /** The walk frees only pages inside the region exactly when the region starts on a page boundary, or is
      too short or too high to offer any: otherwise its first page begins before it. */
  lemma InsideIff(r: Region)
    ensures (forall i: nat :: i < MAX_PAGES && Frees(r, i) ==> Holds(r, i))
            <==> r.start % 4096 == 0 || r.start + 4096 > r.end || IndexOf(r.start) >= MAX_PAGES
  {
    StepOffset(r.start, IndexOf(r.start));
    if r.start + 4096 <= r.end && IndexOf(r.start) < MAX_PAGES {
      assert Frees(r, IndexOf(r.start));
    }
    forall i: nat | i < MAX_PAGES && Frees(r, i)
      ensures r.start + 4096 <= r.end && IndexOf(r.start) < MAX_PAGES
      ensures r.start % 4096 == 0 ==> Holds(r, i)
    {
    }
  }

  /** A region that starts in mid-page: the page it frees begins before it. */
  lemma UnalignedExample()
    ensures var r := Region(BASE_ADDR + 0x800, BASE_ADDR + 0x1800); Frees(r, 0) && !Holds(r, 0)
  {
    StepOffset(BASE_ADDR + 0x800, 0);
  }

  /** Page i holds a byte of the kernel image or its safety margin. */
  predicate InKernel(kernelStart: nat, kernelEnd: nat, i: nat) {
    AddrOf(i) < KernelEndSafe(kernelEnd) && kernelStart < AddrOf(i) + 4096
  }

  /** The loop over the bitmap meets page i. */
  predicate MeetsBitmap(bitmapStart: nat, i: nat) {
    BASE_ADDR <= bitmapStart <= AddrOf(i) + bitmapStart % 4096 < bitmapStart + BITMAP_BYTES
  }

  lemma ReservedIff(kernelStart: nat, kernelEnd: nat, bitmapStart: nat, i: nat)
    requires i < MAX_PAGES
    ensures i in Reserved(kernelStart, kernelEnd, bitmapStart) <==>
              || kernelStart <= AddrOf(i) + kernelStart % 4096 < KernelEndSafe(kernelEnd)
              || MeetsBitmap(bitmapStart, i)
              || AddrOf(i) < Min(BASE_ADDR + 0x1000000, KernelEndSafe(kernelEnd))
  {
    SweptIff(kernelStart, KernelEndSafe(kernelEnd), i);
    SweptIff(bitmapStart, bitmapStart + BITMAP_BYTES, i);
    SweptIff(BASE_ADDR, Min(BASE_ADDR + 0x1000000, KernelEndSafe(kernelEnd)), i);
  }

  /** The page at address a is taken back, in numbers: from the base on and from the start of the image on, up to
      4 MiB or 1 MiB past the image, whichever is more, the first only within 16 MiB; and the 16 KiB of the bitmap. */
  predicate TakenBack(kernelStart: nat, kernelEnd: nat, bitmapStart: nat, a: nat) {
    || (a < 0x1100000 && (a < 0x400000 || a < kernelEnd + 0x100000))
    || (var x := a + kernelStart % 4096; kernelStart <= x && (x < 0x400000 || x < kernelEnd + 0x100000))
    || (var x := a + bitmapStart % 4096; 0x100000 <= bitmapStart <= x < bitmapStart + 16384)
  }

  lemma ReservedInNumbers(kernelStart: nat, kernelEnd: nat, bitmapStart: nat, i: nat)
    requires i < 131072
    ensures i in Reserved(kernelStart, kernelEnd, bitmapStart)
            <==> TakenBack(kernelStart, kernelEnd, bitmapStart, 0x100000 + 4096 * i)
    ensures 0x100000 + 4096 * i < 0x400000 ==> i in Reserved(kernelStart, kernelEnd, bitmapStart)
  {
    ReservedIff(kernelStart, kernelEnd, bitmapStart, i);
  }

  lemma {:induction false} UsableMember(es: seq<MapEntry>, r: Region)
    ensures r in UsableRanges(es) <==> exists e :: e in es && Usable(e) && r == Region(e.addr, e.addr + e.len)
  {
    if es != [] {
      UsableMember(es[1..], r);
      assert forall e :: e in es <==> e == es[0] || e in es[1..];
    }
  }

  /** Which pages boot leaves free, from the tags in memory and in numbers: those of which some entry of type 1 that
      starts at or above 1 MiB has a whole step, and which none of the three loops takes back. */
  lemma BootFreesIff(
      m: Memory, info: nat, ts: seq<Tag>, kernelStart: nat, kernelEnd: nat, bitmapStart: nat, i: nat)
    requires InfoAt(m, info, ts) && NoWrap(AllEntries(ts)) && i < 131072
    ensures InfoOk(m, info)
    ensures i in Offered(AvailableRegions(m, info)) && i !in Reserved(kernelStart, kernelEnd, bitmapStart) <==>
              && (exists e :: e in AllEntries(ts) && e.kind == 1 && e.addr >= 0x100000
                              && e.addr <= 0x100000 + 4096 * i + e.addr % 4096 <= e.addr + e.len - 4096)
              && !TakenBack(kernelStart, kernelEnd, bitmapStart, 0x100000 + 4096 * i)
  {
    var es := AllEntries(ts);
    var rs := UsableRanges(es);
    InfoReads(m, info, ts);
    OfferedIff(rs, i);
    ReservedInNumbers(kernelStart, kernelEnd, bitmapStart, i);
    if r :| r in rs && Frees(r, i) {
      UsableMember(es, r);
    }
    forall e | e in es && Usable(e) && Frees(Region(e.addr, e.addr + e.len), i)
      ensures Region(e.addr, e.addr + e.len) in rs
    {
      UsableMember(es, Region(e.addr, e.addr + e.len));
    }
  }

  /** A page that holds a byte of the kernel is taken back, except when it is the last one, lies beyond the
      first 16 MiB, and the image starts further into its first page than it reaches into its last. */
  lemma KernelStaysReserved(kernelStart: nat, kernelEnd: nat, bitmapStart: nat, i: nat)
    requires i < MAX_PAGES && InKernel(kernelStart, kernelEnd, i)
    ensures i in Reserved(kernelStart, kernelEnd, bitmapStart) <==>
              || AddrOf(i) < BASE_ADDR + 0x1000000
              || AddrOf(i) + kernelStart % 4096 < KernelEndSafe(kernelEnd)
              || MeetsBitmap(bitmapStart, i)
  {
    ReservedIff(kernelStart, kernelEnd, bitmapStart, i);
    assert kernelStart <= AddrOf(i) + kernelStart % 4096;
  }

  /** Such a kernel: its last page is not taken back. */
  lemma KernelTailExample()
    ensures InKernel(BASE_ADDR + 0x800, 0x1000400, 4096) && 4096 !in Reserved(BASE_ADDR + 0x800, 0x1000400, 0)
  {
    KernelStaysReserved(BASE_ADDR + 0x800, 0x1000400, 0, 4096);
  }

  /** Every page that boot leaves free lies in an available region, or begins less than a page before one that
      is not page-aligned; and it is clear of the kernel, or is that last page of an unaligned one. */
  lemma BootIsSound(rs: seq<Region>, kernelStart: nat, kernelEnd: nat, bitmapStart: nat, i: nat) returns (r: Region)
    requires i in Offered(rs) && i !in Reserved(kernelStart, kernelEnd, bitmapStart)
    ensures r in rs && Frees(r, i) && (Holds(r, i) || (i == IndexOf(r.start) && r.start % 4096 != 0))
    ensures InKernel(kernelStart, kernelEnd, i) ==>
              && AddrOf(i) >= BASE_ADDR + 0x1000000
              && AddrOf(i) < KernelEndSafe(kernelEnd) <= AddrOf(i) + kernelStart % 4096
  {
    OfferedIff(rs, i);
    r :| r in rs && Frees(r, i);
    StepOffset(r.start, i);
    if InKernel(kernelStart, kernelEnd, i) {
      KernelStaysReserved(kernelStart, kernelEnd, bitmapStart, i);
    }
  }
}
