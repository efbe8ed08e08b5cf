/** The physical page allocator of kernel/pmm.c: a packed bitmap with one bit per
    4 KiB page (set = used) and running counters.
    Addresses are natural numbers; the null pointer is address 0. */
module Pmm {

  const MAX_PAGES: nat := 131072
  const BASE_ADDR: nat := 0x100000

  // ----- the packed bitmap -----

  /** `1 << (page_idx % 8)`. */
  function Mask(k: nat): bv8
    requires k < 8
  {
    1 << k
  }

  /** Page i is bit i % 8 of its byte, counted from the lowest. */
  lemma MaskIs()
    ensures Mask(0) == 1 && Mask(1) == 2 && Mask(2) == 4 && Mask(3) == 8
    ensures Mask(4) == 16 && Mask(5) == 32 && Mask(6) == 64 && Mask(7) == 128
  {
  }

  predicate BitClear(b: bv8, k: nat)
    requires k < 8
  {
    b & Mask(k) == 0
  }

  /** `b |= 1 << k` or `b &= ~(1 << k)`. */
  function PutBit(b: bv8, k: nat, used: bool): bv8
    requires k < 8
  {
    if used then b | Mask(k) else b & !Mask(k)
  }

  lemma PutBitChangesOne(b: bv8, k: nat, used: bool)
    requires k < 8
    ensures forall j: nat :: j < 8 ==> (BitClear(PutBit(b, k, used), j) <==> if j == k then !used else BitClear(b, j))
  {
  }

  predicate IsClear(bitmap: seq<bv8>, i: nat)
    requires i < 8 * |bitmap|
  {
    BitClear(bitmap[i / 8], i % 8)
  }

  /** `free` is the set of pages whose bit is clear. */
  ghost predicate Describes(bitmap: seq<bv8>, free: set<nat>) {
    && |bitmap| == MAX_PAGES / 8
    && (forall i :: i in free ==> i < MAX_PAGES)
    && (forall i: nat {:trigger IsClear(bitmap, i)} :: i < MAX_PAGES ==> (IsClear(bitmap, i) <==> i in free))
  }

  function Flip(bitmap: seq<bv8>, i: nat, used: bool): seq<bv8>
    requires i < 8 * |bitmap|
  {
    bitmap[i / 8 := PutBit(bitmap[i / 8], i % 8, used)]
  }

  lemma FlipOne(bitmap: seq<bv8>, i: nat, used: bool, j: nat)
    requires i < 8 * |bitmap| && j < 8 * |bitmap|
    ensures IsClear(Flip(bitmap, i, used), j) <==> if j == i then !used else IsClear(bitmap, j)
  {
    PutBitChangesOne(bitmap[i / 8], i % 8, used);
    assert i / 8 == j / 8 ==> (i % 8 == j % 8 <==> i == j);
  }

  /** Writing one byte changes the membership of exactly one page. */
  lemma {:induction false} OneByteOneBit(bitmap: seq<bv8>, free: set<nat>, i: nat, used: bool)
    requires Describes(bitmap, free) && i < MAX_PAGES
    ensures Describes(Flip(bitmap, i, used), if used then free - {i} else free + {i})
  {
    var after := Flip(bitmap, i, used);
    forall j: nat | j < MAX_PAGES
      ensures IsClear(after, j) <==> if j == i then !used else j in free
    {
      FlipOne(bitmap, i, used, j);
    }
  }

  // ----- addresses and page numbers -----

  function AddrOf(i: nat): nat {
    BASE_ADDR + i * 4096
  }

  predicate Managed(a: nat) {
    BASE_ADDR <= a && (a - BASE_ADDR) / 4096 < MAX_PAGES
  }

  function IndexOf(a: nat): nat
    requires BASE_ADDR <= a
  {
    (a - BASE_ADDR) / 4096
  }

  // ----- the set the bitmap stands for, and what the two calls do to it -----

  ghost predicate IsLowest(s: set<nat>, i: nat) {
    i in s && forall j :: j in s ==> i <= j
  }

  ghost function AfterFree(s: set<nat>, a: nat): set<nat> {
    if Managed(a) then s + {IndexOf(a)} else s
  }

  class PageAllocator {
    const bitmap: array<bv8>
    var totalPages: nat
    var freePages: int
    ghost var free: set<nat>  // what the bitmap stands for

    ghost predicate Consistent()
      reads this, bitmap
    {
      Describes(bitmap[..], free)
    }

    /** The counter agrees with the bitmap. */
    ghost predicate Valid()
      reads this, bitmap
    {
      Consistent() && freePages == |free|
    }

    constructor ()
      ensures bitmap.Length == MAX_PAGES / 8
    {
      bitmap := new bv8[MAX_PAGES / 8];
      totalPages, freePages := 0, 0;
    }

    method SetPageUsed(i: nat)
      requires Consistent() && i < MAX_PAGES
      modifies this`free, bitmap
      ensures Consistent() && free == old(free) - {i}
    {
      OneByteOneBit(bitmap[..], free, i, true);
      bitmap[i / 8] := PutBit(bitmap[i / 8], i % 8, true);
      assert bitmap[..] == Flip(old(bitmap[..]), i, true);
      free := free - {i};
    }

    method SetPageFree(i: nat)
      requires Consistent() && i < MAX_PAGES
      modifies this`free, bitmap
      ensures Consistent() && free == old(free) + {i}
    {
      OneByteOneBit(bitmap[..], free, i, false);
      bitmap[i / 8] := PutBit(bitmap[i / 8], i % 8, false);
      assert bitmap[..] == Flip(old(bitmap[..]), i, false);
      free := free + {i};
    }

    method IsPageFree(i: nat) returns (clear: bool)
      requires Consistent() && i < MAX_PAGES
      ensures clear <==> i in free
    {
      clear := BitClear(bitmap[i / 8], i % 8);
      assert clear == IsClear(bitmap[..], i);
    }

    /** Hands out the lowest free page; null exactly when none is free. */
    method AllocPage() returns (a: nat)
      requires Valid()
      modifies this`freePages, this`free, bitmap
      ensures Valid()
      ensures a == 0 <==> old(free) == {}
      ensures a == 0 ==> free == old(free) && freePages == old(freePages)
      ensures a != 0 ==> Managed(a) && a % 4096 == 0 && a == AddrOf(IndexOf(a))
      ensures a != 0 ==> IsLowest(old(free), IndexOf(a))
      ensures a != 0 ==> free == old(free) - {IndexOf(a)} && freePages == old(freePages) - 1
    {
      for i := 0 to MAX_PAGES
        invariant Valid() && free == old(free) && freePages == old(freePages)
        invariant forall j :: j in free ==> i <= j
      {
        var clear := IsPageFree(i);
        if clear {
          SetPageUsed(i);
          freePages := freePages - 1;
          return AddrOf(i);
        }
      }
      assert forall j :: j in free ==> j < MAX_PAGES;
      a := 0;
    }

    /** Total on addresses: below the base, past the bitmap or already free, nothing happens. */
    method FreePage(a: nat)
      requires Valid()
      modifies this`freePages, this`free, bitmap
      ensures Valid()
      ensures free == AfterFree(old(free), a)
    {
      if a < BASE_ADDR {
        return;
      }
      var i := (a - BASE_ADDR) / 4096;
      if i < MAX_PAGES {
        var clear := IsPageFree(i);
        if !clear {
          SetPageFree(i);
          freePages := freePages + 1;
        }
      }
    }
  }

  // ----- whole runs of alloc_page and free_page -----

  datatype Call = Alloc | Free(addr: nat)

  /** The free pages, and the pages handed out and not yet given back. */
  datatype Ledger = Ledger(free: set<nat>, live: set<nat>)

  ghost function Lowest(s: set<nat>): (i: nat)
    requires s != {}
    ensures IsLowest(s, i)
  {
    LowestExists(s);
    var i :| IsLowest(s, i);
    i
  }

  lemma {:induction false} LowestExists(s: set<nat>)
    requires s != {}
    ensures exists i :: IsLowest(s, i)
  {
    var x :| x in s;
    if s == {x} {
      assert IsLowest(s, x);
    } else {
      var rest := s - {x};
      LowestExists(rest);
      var y :| IsLowest(rest, y);
      assert forall j :: j in s ==> j == x || j in rest;
      assert IsLowest(s, if x < y then x else y);
    }
  }

  /** A client frees only what it was given. */
  ghost predicate Legal(l: Ledger, c: Call) {
    c.Free? ==> Managed(c.addr) && IndexOf(c.addr) in l.live
  }

  /** What one call does to the ledger; `Serve` below performs it on the allocator itself. */
  ghost function Step(l: Ledger, c: Call): Ledger
    requires Legal(l, c)
  {
    match c
    case Alloc =>
      if l.free == {} then l else Ledger(l.free - {Lowest(l.free)}, l.live + {Lowest(l.free)})
    case Free(a) => Ledger(l.free + {IndexOf(a)}, l.live - {IndexOf(a)})
  }

  ghost predicate LegalRun(l: Ledger, calls: seq<Call>)
    decreases |calls|
  {
    calls == [] || (Legal(l, calls[0]) && LegalRun(Step(l, calls[0]), calls[1..]))
  }

  ghost function Run(l: Ledger, calls: seq<Call>): Ledger
    requires LegalRun(l, calls)
    decreases |calls|
  {
    if calls == [] then l else Run(Step(l, calls[0]), calls[1..])
  }

  /** In every run free and live pages stay apart and together make up the same set,
      so no page is lost, invented or handed out twice. */
  lemma {:induction false} RunConserves(l: Ledger, calls: seq<Call>)
    requires LegalRun(l, calls) && l.free !! l.live
    ensures var after := Run(l, calls);
            && after.free !! after.live
            && after.free + after.live == l.free + l.live
            && |after.free| + |after.live| == |l.free| + |l.live|
    decreases |calls|
  {
    if calls != [] {
      StepConserves(l, calls[0]);
      RunConserves(Step(l, calls[0]), calls[1..]);
    }
  }

  lemma StepConserves(l: Ledger, c: Call)
    requires Legal(l, c) && l.free !! l.live
    ensures var after := Step(l, c);
            && after.free !! after.live
            && after.free + after.live == l.free + l.live
            && |after.free| + |after.live| == |l.free| + |l.live|
  {
    var after := Step(l, c);
    StepMoves(l, c);
    DisjointCard(l.free, l.live);
    DisjointCard(after.free, after.live);
  }

  lemma StepMoves(l: Ledger, c: Call)
    requires Legal(l, c) && l.free !! l.live
    ensures Step(l, c).free !! Step(l, c).live && Step(l, c).free + Step(l, c).live == l.free + l.live
  {
  }

  lemma DisjointCard(a: set<nat>, b: set<nat>)
    requires a !! b
    ensures |a + b| == |a| + |b|
  {
  }

  /** What one call returns. */
  ghost function Answer(l: Ledger, c: Call): nat {
    if c.Alloc? && l.free != {} then AddrOf(Lowest(l.free)) else 0
  }

  ghost function Answers(l: Ledger, calls: seq<Call>): seq<nat>
    requires LegalRun(l, calls)
    decreases |calls|
  {
    if calls == [] then [] else [Answer(l, calls[0])] + Answers(Step(l, calls[0]), calls[1..])
  }

  lemma LowestIsUnique(s: set<nat>, i: nat)
    requires IsLowest(s, i)
    ensures i == Lowest(s)
  {
  }

  /** The allocator answers one call as the ledger says. */
  method ServeOne(pmm: PageAllocator, c: Call, ghost l: Ledger) returns (answer: nat)
    requires pmm.Valid() && pmm.free == l.free && Legal(l, c)
    modifies pmm`freePages, pmm`free, pmm.bitmap
    ensures pmm.Valid() && pmm.free == Step(l, c).free && answer == Answer(l, c)
  {
    answer := 0;
    match c {
      case Alloc =>
        answer := pmm.AllocPage();
        if answer != 0 {
          LowestIsUnique(l.free, IndexOf(answer));
        }
      case Free(a) =>
        pmm.FreePage(a);
    }
  }

  /** The allocator serves any legal run exactly as the ledger says, with its counter in step. */
  method Serve(pmm: PageAllocator, calls: seq<Call>, ghost live: set<nat>) returns (answers: seq<nat>)
    requires pmm.Valid() && LegalRun(Ledger(pmm.free, live), calls)
    modifies pmm`freePages, pmm`free, pmm.bitmap
    ensures pmm.Valid() && pmm.free == Run(Ledger(old(pmm.free), live), calls).free
    ensures answers == Answers(Ledger(old(pmm.free), live), calls)
  {
    answers := [];
    var rest := calls;
    ghost var l := Ledger(pmm.free, live);
    while rest != []
      invariant pmm.Valid() && pmm.free == l.free && LegalRun(l, rest)
      invariant Run(l, rest) == Run(Ledger(old(pmm.free), live), calls)
      invariant answers + Answers(l, rest) == Answers(Ledger(old(pmm.free), live), calls)
      decreases |rest|
    {
      var answer := ServeOne(pmm, rest[0], l);
      answers := answers + [answer];
      l := Step(l, rest[0]);
      rest := rest[1..];
    }
  }

  /** At every point of a run, the page handed out next is not one that is still live. */
  lemma NoPageIsLiveTwice(l: Ledger, calls: seq<Call>)
    requires LegalRun(l, calls) && l.free !! l.live
    ensures var after := Run(l, calls);
            after.free != {} ==> Lowest(after.free) !in after.live
  {
    RunConserves(l, calls);
  }
}
