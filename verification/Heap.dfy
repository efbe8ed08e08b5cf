/** kernel-rs/src/heap.rs itself: block headers in memory, linked both ways and updated through
    pointers. Address 0 is the null pointer; a header occupies 48 bytes. */
module Heap {
  import opened HeapBlocks
  import opened HeapRuns

  const BLOCK_MAGIC: nat := 0xDEADBEEF

  datatype Header = Header(magic: nat, size: nat, isFree: bool, next: nat, prev: nat)

  /** Memory read as headers: at each address, the header whose first byte lies there. */
  type Headers = map<nat, Header>

  function Get(h: Headers, a: nat): Header {
    if a in h then h[a] else Header(0, 0, false, 0, 0)
  }

  // ----- the list in memory -----

  function NextOf(base: nat, bs: seq<Block>, i: nat): nat
    requires i < |bs|
  {
    if i + 1 < |bs| then Addr(base, bs, i + 1) else 0
  }

  function PrevOf(base: nat, bs: seq<Block>, i: nat): nat
    requires i < |bs|
  {
    if i > 0 then Addr(base, bs, i - 1) else 0
  }

  /** The header that block i of the list should have. */
  function ListHeader(base: nat, bs: seq<Block>, i: nat): Header
    requires i < |bs|
  {
    Header(BLOCK_MAGIC, bs[i].size, bs[i].free, NextOf(base, bs, i), PrevOf(base, bs, i))
  }

  ghost predicate At(h: Headers, base: nat, bs: seq<Block>, i: nat)
    requires i < |bs|
  {
    Get(h, Addr(base, bs, i)) == ListHeader(base, bs, i)
  }

  /** Following `next` from the base visits exactly these blocks, each right behind the one before,
      and `prev` inverts `next`. */
  ghost predicate Linked(h: Headers, base: nat, bs: seq<Block>) {
    forall i: nat :: i < |bs| ==> At(h, base, bs, i)
  }

  lemma Ordered(base: nat, bs: seq<Block>, i: nat, j: nat)
    requires i <= |bs| && j <= |bs|
    ensures i < j ==> Addr(base, bs, i) < Addr(base, bs, j)
    ensures j < i ==> Addr(base, bs, j) < Addr(base, bs, i)
    ensures Addr(base, bs, i) == Addr(base, bs, j) <==> i == j
  {
    if i < j {
      OffsetGap(bs, i, j);
    } else if j < i {
      OffsetGap(bs, j, i);
    }
  }

  // ----- pointer surgery -----

  function Mark(h: Headers, a: nat, isFree: bool): Headers {
    h[a := Get(h, a).(isFree := isFree)]
  }

  function SetPrev(h: Headers, a: nat, prev: nat): Headers {
    if a == 0 then h else h[a := Get(h, a).(prev := prev)]
  }

  /** Cut block `a` after n payload bytes; the rest becomes a free block of its own. */
  function SplitAt(h: Headers, a: nat, n: nat): Headers
    requires Get(h, a).size >= n + 48
  {
    var b := Get(h, a);
    var rest := a + 48 + n;
    var h1 := h[rest := Header(BLOCK_MAGIC, b.size - n - 48, true, b.next, a)];
    var h2 := SetPrev(h1, b.next, rest);
    h2[a := Get(h2, a).(size := n, next := rest)]
  }

  /** Block `a` swallows its successor `b`. */
  function Swallow(h: Headers, a: nat, b: nat): Headers {
    var h1 := h[a := Get(h, a).(size := Get(h, a).size + 48 + Get(h, b).size, next := Get(h, b).next)];
    SetPrev(h1, Get(h, b).next, a)
  }

  lemma MarkLinked(h: Headers, base: nat, bs: seq<Block>, i: nat, isFree: bool)
    requires Linked(h, base, bs) && i < |bs|
    ensures Linked(Mark(h, Addr(base, bs, i), isFree), base, bs[i := Block(bs[i].size, isFree)])
  {
    var cs := bs[i := Block(bs[i].size, isFree)];
    SameSizesSameOffsets(bs, cs);
    forall j: nat | j < |bs|
      ensures At(Mark(h, Addr(base, bs, i), isFree), base, cs, j)
    {
      assert At(h, base, bs, j);
      Ordered(base, bs, i, j);
    }
  }

  /** The headers of a merged list, in terms of the list before. */
  lemma MergedHeader(base: nat, bs: seq<Block>, i: nat, j: nat)
    requires i + 1 < |bs| && j < |bs| - 1
    ensures |Merge(bs, i)| == |bs| - 1
    ensures j < i ==> Addr(base, Merge(bs, i), j) == Addr(base, bs, j)
                      && ListHeader(base, Merge(bs, i), j) == ListHeader(base, bs, j)
    ensures j == i ==> Addr(base, Merge(bs, i), j) == Addr(base, bs, j)
                       && ListHeader(base, Merge(bs, i), j)
                          == Header(BLOCK_MAGIC, bs[i].size + 48 + bs[i + 1].size, true,
                                    NextOf(base, bs, i + 1), PrevOf(base, bs, i))
    ensures j > i ==> Addr(base, Merge(bs, i), j) == Addr(base, bs, j + 1)
                      && ListHeader(base, Merge(bs, i), j)
                         == ListHeader(base, bs, j + 1).(prev := if j == i + 1 then Addr(base, bs, i)
                                                                 else PrevOf(base, bs, j + 1))
  {
    var cs := Merge(bs, i);
    MergeSpan(bs, i);
    if j <= i {
      MergeAddresses(bs, i, j);
      if j > 0 {
        MergeAddresses(bs, i, j - 1);
      }
      if j < i {
        MergeAddresses(bs, i, j + 1);
      } else if i + 2 < |bs| {
        MergeAddresses(bs, i, i + 2);
      }
    } else {
      assert cs[j] == bs[j + 1];
      MergeAddresses(bs, i, j + 1);
      if j + 2 < |bs| {
        MergeAddresses(bs, i, j + 2);
      }
      MergeAddresses(bs, i, if j == i + 1 then i else j);
    }
  }

  lemma SwallowAt(h: Headers, base: nat, bs: seq<Block>, i: nat, j: nat)
    requires Linked(h, base, bs) && i + 1 < |bs| && bs[i].free && j < |bs| - 1 && base > 0
    ensures |Merge(bs, i)| == |bs| - 1
    ensures At(Swallow(h, Addr(base, bs, i), Addr(base, bs, i + 1)), base, Merge(bs, i), j)
  {
    MergedHeader(base, bs, i, j);
    var k := if j <= i then j else j + 1;
    assert At(h, base, bs, k) && At(h, base, bs, i) && At(h, base, bs, i + 1);
    Ordered(base, bs, i, k);
    if i + 2 < |bs| {
      Ordered(base, bs, i + 2, k);
    }
  }

  lemma SwallowLinked(h: Headers, base: nat, bs: seq<Block>, i: nat)
    requires Linked(h, base, bs) && i + 1 < |bs| && bs[i].free && base > 0
    ensures Linked(Swallow(h, Addr(base, bs, i), Addr(base, bs, i + 1)), base, Merge(bs, i))
  {
    var h', cs := Swallow(h, Addr(base, bs, i), Addr(base, bs, i + 1)), Merge(bs, i);
    forall j: nat | j < |cs|
      ensures At(h', base, cs, j)
    {
      SwallowAt(h, base, bs, i, j);
    }
  }

  // ----- splitting -----

  /** The list between the split and the mark. */
  function Split(bs: seq<Block>, i: nat, n: nat): seq<Block>
    requires i < |bs| && Splits(bs[i], n)
  {
    bs[..i] + [Block(n, bs[i].free), Block(bs[i].size - n - 48, true)] + bs[i + 1..]
  }

  lemma SplitAddresses(bs: seq<Block>, i: nat, n: nat, j: nat)
    requires i < |bs| && Splits(bs[i], n) && j <= |bs|
    ensures |Split(bs, i, n)| == |bs| + 1
    ensures j <= i ==> Offset(Split(bs, i, n), j) == Offset(bs, j)
    ensures j > i ==> Offset(Split(bs, i, n), j + 1) == Offset(bs, j)
    ensures Offset(Split(bs, i, n), i + 1) == Offset(bs, i) + 48 + n
  {
    var cs := Split(bs, i, n);
    SpanOne(bs[i]);
    SpanTwo(Block(n, bs[i].free), Block(bs[i].size - n - 48, true));
    SpanSplice(bs[..i], [bs[i]], [Block(n, bs[i].free), Block(bs[i].size - n - 48, true)], bs[i + 1..]);
    assert bs == bs[..i] + [bs[i]] + bs[i + 1..];
    assert cs[..i] == bs[..i];
    OffsetStep(cs, i);
    if j <= i {
      assert cs[..j] == bs[..j];
    } else {
      assert cs[j + 1..] == bs[j..];
      OffsetsAgree(bs, cs, j, j + 1);
    }
  }

  lemma SplitHeader(base: nat, bs: seq<Block>, i: nat, n: nat, j: nat)
    requires i < |bs| && Splits(bs[i], n) && j <= |bs|
    ensures |Split(bs, i, n)| == |bs| + 1
    ensures j < i ==> Addr(base, Split(bs, i, n), j) == Addr(base, bs, j)
                      && ListHeader(base, Split(bs, i, n), j) == ListHeader(base, bs, j)
    ensures j == i ==> Addr(base, Split(bs, i, n), j) == Addr(base, bs, j)
                       && ListHeader(base, Split(bs, i, n), j)
                          == ListHeader(base, bs, i).(size := n, next := Addr(base, bs, i) + 48 + n)
    ensures j == i + 1 ==> Addr(base, Split(bs, i, n), j) == Addr(base, bs, i) + 48 + n
                           && ListHeader(base, Split(bs, i, n), j)
                              == Header(BLOCK_MAGIC, bs[i].size - n - 48, true, NextOf(base, bs, i), Addr(base, bs, i))
    ensures j > i + 1 ==> Addr(base, Split(bs, i, n), j) == Addr(base, bs, j - 1)
                          && ListHeader(base, Split(bs, i, n), j)
                             == ListHeader(base, bs, j - 1).(prev := if j == i + 2 then Addr(base, bs, i) + 48 + n
                                                                     else PrevOf(base, bs, j - 1))
  {
    var cs := Split(bs, i, n);
    SplitAddresses(bs, i, n, i);
    if j <= i {
      SplitAddresses(bs, i, n, j);
      if j > 0 {
        SplitAddresses(bs, i, n, j - 1);
      }
      if j < i {
        SplitAddresses(bs, i, n, j + 1);
      }
    } else if j == i + 1 {
      if i + 1 < |bs| {
        SplitAddresses(bs, i, n, i + 1);
      }
    } else {
      assert cs[j] == bs[j - 1];
      SplitAddresses(bs, i, n, j - 1);
      SplitAddresses(bs, i, n, j);
      if j > i + 2 {
        SplitAddresses(bs, i, n, j - 2);
      }
    }
  }

  lemma SplitAtEach(h: Headers, base: nat, bs: seq<Block>, i: nat, n: nat, j: nat)
    requires Linked(h, base, bs) && i < |bs| && Splits(bs[i], n) && j <= |bs| && base > 0
    ensures |Split(bs, i, n)| == |bs| + 1 && Get(h, Addr(base, bs, i)).size == bs[i].size
    ensures At(SplitAt(h, Addr(base, bs, i), n), base, Split(bs, i, n), j)
  {
    SplitHeader(base, bs, i, n, j);
    var k := if j <= i then j else j - 1;
    assert At(h, base, bs, k) && At(h, base, bs, i);
    Ordered(base, bs, i, k);
    OffsetStep(bs, i);
    Ordered(base, bs, i + 1, k);
  }

  lemma SplitLinked(h: Headers, base: nat, bs: seq<Block>, i: nat, n: nat)
    requires Linked(h, base, bs) && i < |bs| && Splits(bs[i], n) && base > 0
    ensures Get(h, Addr(base, bs, i)).size == bs[i].size
    ensures Linked(SplitAt(h, Addr(base, bs, i), n), base, Split(bs, i, n))
  {
    assert At(h, base, bs, i);
    var h', cs := SplitAt(h, Addr(base, bs, i), n), Split(bs, i, n);
    forall j: nat | j < |cs|
      ensures At(h', base, cs, j)
    {
      SplitAtEach(h, base, bs, i, n, j);
    }
  }

  // ----- the two calls as surgery -----

  function TakeH(h: Headers, a: nat, n: nat): Headers {
    Mark(if Get(h, a).size > n + 48 then SplitAt(h, a, n) else h, a, false)
  }

  function JoinNext(h: Headers, a: nat): Headers {
    var h1 := Mark(h, a, true);
    var b := Get(h1, a).next;
    if b != 0 && Get(h1, b).isFree then Swallow(h1, a, b) else h1
  }

  function JoinPrev(h: Headers, a: nat): Headers {
    var b := Get(h, a).prev;
    if b != 0 && Get(h, b).isFree then Swallow(h, b, a) else h
  }

  lemma TakeLinked(h: Headers, base: nat, bs: seq<Block>, i: nat, n: nat)
    requires Linked(h, base, bs) && i < |bs| && base > 0
    ensures Linked(TakeH(h, Addr(base, bs, i), n), base, Alloc(bs, i, n))
  {
    assert At(h, base, bs, i);
    if Splits(bs[i], n) {
      var cs := Split(bs, i, n);
      SplitLinked(h, base, bs, i, n);
      SplitAddresses(bs, i, n, i);
      MarkLinked(SplitAt(h, Addr(base, bs, i), n), base, cs, i, false);
      assert Alloc(bs, i, n) == cs[i := Block(n, false)];
    } else {
      MarkLinked(h, base, bs, i, false);
      assert Alloc(bs, i, n) == bs[i := Block(bs[i].size, false)];
    }
  }

  lemma JoinNextLinked(h: Headers, base: nat, bs: seq<Block>, i: nat)
    requires Linked(h, base, bs) && i < |bs| && base > 0
    ensures Linked(JoinNext(h, Addr(base, bs, i)), base, MergeNext(bs, i))
    ensures |MergeNext(bs, i)| > i && Addr(base, MergeNext(bs, i), i) == Addr(base, bs, i)
  {
    var a := Addr(base, bs, i);
    var marked := bs[i := Block(bs[i].size, true)];
    var h1 := Mark(h, a, true);
    MarkLinked(h, base, bs, i, true);
    SameSizesSameOffsets(bs, marked);
    assert At(h1, base, marked, i);
    if i + 1 < |bs| {
      assert At(h1, base, marked, i + 1);
      if bs[i + 1].free {
        SwallowLinked(h1, base, marked, i);
        MergeSpan(marked, i);
        MergeAddresses(marked, i, i);
      }
    }
  }

  lemma JoinPrevLinked(h: Headers, base: nat, bs: seq<Block>, i: nat)
    requires Linked(h, base, bs) && i < |bs| && base > 0
    ensures Linked(JoinPrev(h, Addr(base, bs, i)), base, MergePrev(bs, i))
  {
    assert At(h, base, bs, i);
    if i > 0 {
      assert At(h, base, bs, i - 1);
      if bs[i - 1].free {
        SwallowLinked(h, base, bs, i - 1);
      }
    }
  }

  // ----- live payloads are left alone -----

  /** The 48 bytes of a header at `a` and the payload of block j do not meet. */
  predicate ClearOf(base: nat, bs: seq<Block>, j: nat, a: nat)
    requires j < |bs|
  {
    a + 48 <= Pointer(base, bs, j) || Pointer(base, bs, j) + bs[j].size <= a
  }

  lemma HeadersClear(base: nat, bs: seq<Block>, k: nat, j: nat)
    requires k < |bs| && j < |bs|
    ensures ClearOf(base, bs, j, Addr(base, bs, k))
  {
    if j < k {
      OffsetGap(bs, j, k);
    } else if k < j {
      OffsetGap(bs, k, j);
    }
  }

  /** rust_kmalloc writes no byte of any payload that is in use. */
  lemma MallocSparesPayloads(h: Headers, base: nat, bs: seq<Block>, i: nat, n: nat, a: nat, j: nat)
    requires Linked(h, base, bs) && i < |bs| && j < |bs| && bs[i].free && !bs[j].free && base > 0
    requires Get(TakeH(h, Addr(base, bs, i), n), a) != Get(h, a)
    ensures ClearOf(base, bs, j, a)
  {
    assert At(h, base, bs, i);
    HeadersClear(base, bs, i, j);
    if i + 1 < |bs| {
      HeadersClear(base, bs, i + 1, j);
    }
    OffsetStep(bs, i);
    if i < j {
      Ordered(base, bs, i + 1, j);
    } else {
      OffsetGap(bs, j, i);
    }
  }

  lemma JoinNextWrites(h: Headers, base: nat, bs: seq<Block>, i: nat, a: nat)
    requires Linked(h, base, bs) && i < |bs| && base > 0
    requires Get(JoinNext(h, Addr(base, bs, i)), a) != Get(h, a)
    ensures exists k :: 0 <= k < |bs| && a == Addr(base, bs, k)
  {
    assert At(h, base, bs, i);
    if i + 1 < |bs| {
      assert At(h, base, bs, i + 1);
      Ordered(base, bs, i, i + 1);
    }
    assert a == Addr(base, bs, i) || (i + 2 < |bs| && a == Addr(base, bs, i + 2));
  }

  lemma JoinPrevWrites(h: Headers, base: nat, bs: seq<Block>, i: nat, a: nat)
    requires Linked(h, base, bs) && i < |bs| && base > 0
    requires Get(JoinPrev(h, Addr(base, bs, i)), a) != Get(h, a)
    ensures exists k :: 0 <= k < |bs| && a == Addr(base, bs, k)
  {
    assert At(h, base, bs, i);
    assert (i > 0 && a == Addr(base, bs, i - 1)) || (i + 1 < |bs| && a == Addr(base, bs, i + 1));
  }

  /** Merging loses addresses and invents none. */
  lemma MergeNextAddresses(base: nat, bs: seq<Block>, i: nat, k: nat)
    requires i < |bs| && k < |MergeNext(bs, i)|
    ensures exists m :: 0 <= m < |bs| && Addr(base, MergeNext(bs, i), k) == Addr(base, bs, m)
  {
    var marked := bs[i := Block(bs[i].size, true)];
    SameSizesSameOffsets(bs, marked);
    var m := k;
    if i + 1 < |bs| && bs[i + 1].free {
      MergeSpan(marked, i);
      m := if k <= i then k else k + 1;
      MergeAddresses(marked, i, m);
    }
    assert Addr(base, MergeNext(bs, i), k) == Addr(base, bs, m);
  }

  /** rust_kfree writes headers of the list and nothing else. */
  lemma FreeSparesPayloads(h: Headers, base: nat, bs: seq<Block>, i: nat, a: nat, j: nat)
    requires Linked(h, base, bs) && i < |bs| && j < |bs| && base > 0
    requires Get(JoinPrev(JoinNext(h, Addr(base, bs, i)), Addr(base, bs, i)), a) != Get(h, a)
    ensures ClearOf(base, bs, j, a)
  {
    var h1, ms := JoinNext(h, Addr(base, bs, i)), MergeNext(bs, i);
    JoinNextLinked(h, base, bs, i);
    if Get(h1, a) != Get(h, a) {
      JoinNextWrites(h, base, bs, i, a);
    } else {
      JoinPrevWrites(h1, base, ms, i, a);
      var k :| 0 <= k < |ms| && a == Addr(base, ms, k);
      MergeNextAddresses(base, bs, i, k);
    }
    var k :| 0 <= k < |bs| && a == Addr(base, bs, k);
    HeadersClear(base, bs, k, j);
  }

  /** Clients may write what they like into their payloads: the list does not notice. */
  lemma PayloadWritesKeepList(h: Headers, h': Headers, base: nat, bs: seq<Block>)
    requires Linked(h, base, bs)
    requires forall a :: Get(h', a) != Get(h, a) ==>
               exists j :: 0 <= j < |bs| && !bs[j].free && !ClearOf(base, bs, j, a)
    ensures Linked(h', base, bs)
  {
    forall i: nat | i < |bs|
      ensures At(h', base, bs, i)
    {
      assert At(h, base, bs, i);
      var a := Addr(base, bs, i);
      if Get(h', a) != Get(h, a) {
        var j :| 0 <= j < |bs| && !bs[j].free && !ClearOf(base, bs, j, a);
        HeadersClear(base, bs, i, j);
      }
    }
  }

  lemma NeighboursDiffer(h: Headers, base: nat, bs: seq<Block>, i: nat)
    requires Linked(h, base, bs) && i < |bs| && base > 0
    ensures var a := Addr(base, bs, i); Get(h, a).prev != a && Get(h, a).next != a
  {
    assert At(h, base, bs, i);
    Ordered(base, bs, i, if i > 0 then i - 1 else i + 1);
    Ordered(base, bs, i, i + 1);
  }

  /** A released block's header says free, also when a neighbour has swallowed it. */
  lemma FreedIsRefused(h: Headers, a: nat)
    requires Get(h, a).prev != a && Get(h, a).next != a
    ensures Get(JoinPrev(JoinNext(h, a), a), a).isFree
  {
  }

  // ----- the heap -----

  class KernelHeap {
    const base: nat
    var hdr: Headers
    var head: nat
    ghost var blocks: seq<Block>

    ghost predicate Valid()
      reads this
    {
      base > 0 && base % 16 == 0 && head == base && Inv(blocks) && Linked(hdr, base, blocks)
    }

    /** init_heap on an arena at `base`. */
    constructor (base: nat, garbage: Headers)
      requires base > 0 && base % 16 == 0
      ensures Valid() && this.base == base && blocks == INITIAL
    {
      this.base := base;
      hdr := garbage[base := Header(BLOCK_MAGIC, HEAP_SIZE - 48, true, 0, 0)];
      head := base;
      blocks := INITIAL;
      InitialInv();
      assert INITIAL[..0] == [];
    }

    /** Split the chosen block if it is large enough, then mark it taken. */
    method TakeBlock(current: nat, aligned: nat)
      modifies this`hdr
      ensures hdr == TakeH(old(hdr), current, aligned)
    {
      var block := Get(hdr, current);
      if block.size > aligned + 48 {
        var rest := current + 48 + aligned;
        hdr := hdr[rest := Header(BLOCK_MAGIC, block.size - aligned - 48, true, block.next, current)];
        if block.next != 0 {
          hdr := hdr[block.next := Get(hdr, block.next).(prev := rest)];
        }
        hdr := hdr[current := Get(hdr, current).(size := aligned)];
        hdr := hdr[current := Get(hdr, current).(next := rest)];
      }
      hdr := hdr[current := Get(hdr, current).(isFree := false)];
    }

    method CoalesceNext(a: nat)
      modifies this`hdr
      ensures hdr == JoinNext(old(hdr), a)
    {
      hdr := hdr[a := Get(hdr, a).(isFree := true)];
      var next := Get(hdr, a).next;
      if next != 0 {
        var nextBlock := Get(hdr, next);
        if nextBlock.isFree {
          hdr := hdr[a := Get(hdr, a).(size := Get(hdr, a).size + 48 + nextBlock.size)];
          hdr := hdr[a := Get(hdr, a).(next := nextBlock.next)];
          if nextBlock.next != 0 {
            hdr := hdr[nextBlock.next := Get(hdr, nextBlock.next).(prev := a)];
          }
        }
      }
    }

    method CoalescePrev(a: nat)
      modifies this`hdr
      ensures hdr == JoinPrev(old(hdr), a)
    {
      var block := Get(hdr, a);
      var prev := block.prev;
      if prev != 0 && Get(hdr, prev).isFree {
        hdr := hdr[prev := Get(hdr, prev).(size := Get(hdr, prev).size + 48 + block.size)];
        hdr := hdr[prev := Get(hdr, prev).(next := block.next)];
        if block.next != 0 {
          hdr := hdr[block.next := Get(hdr, block.next).(prev := block.prev)];
        }
      }
    }

    /** rust_kmalloc. */
    method Kmalloc(size: Size) returns (ptr: nat)
      requires Valid()
      modifies this`hdr, this`blocks
      ensures Valid() && (blocks, ptr) == AfterMalloc(base, old(blocks), size)
      ensures forall a, j: nat ::
                Get(hdr, a) != Get(old(hdr), a) && j < |old(blocks)| && !old(blocks)[j].free
                ==> ClearOf(base, old(blocks), j, a)
    {
      if size == 0 {
        return 0;
      }
      var aligned := (size + 15) % WORD / 16 * 16;
      var current := head;
      ghost var i := 0;
      assert blocks[..0] == [];
      while current != 0
        invariant 0 <= i <= |blocks| && blocks == old(blocks) && hdr == old(hdr) && Valid()
        invariant current == if i < |blocks| then Addr(base, blocks, i) else 0
        invariant forall j :: 0 <= j < i ==> !Fits(blocks[j], aligned)
        decreases |blocks| - i
      {
        assert At(hdr, base, blocks, i);
        var block := Get(hdr, current);
        if block.isFree && block.size >= aligned {
          TakeFirst(i, aligned);
          TakeBlock(current, aligned);
          blocks := Alloc(blocks, i, aligned);
          return current + 48;
        }
        current, i := block.next, i + 1;
      }
      FirstFitIs(blocks, aligned, i);
      return 0;
    }

    lemma TakeFirst(i: nat, n: nat)
      requires Valid() && i < |blocks| && Fits(blocks[i], n) && n % 16 == 0
      requires forall j :: 0 <= j < i ==> !Fits(blocks[j], n)
      ensures FirstFit(blocks, n) == i
      ensures Inv(Alloc(blocks, i, n)) && Linked(TakeH(hdr, Addr(base, blocks, i), n), base, Alloc(blocks, i, n))
      ensures forall a, j: nat ::
                Get(TakeH(hdr, Addr(base, blocks, i), n), a) != Get(hdr, a) && j < |blocks| && !blocks[j].free
                ==> ClearOf(base, blocks, j, a)
    {
      FirstFitIs(blocks, n, i);
      AllocInv(blocks, i, n);
      TakeLinked(hdr, base, blocks, i, n);
      forall a, j: nat | Get(TakeH(hdr, Addr(base, blocks, i), n), a) != Get(hdr, a) && j < |blocks| && !blocks[j].free
        ensures ClearOf(base, blocks, j, a)
      {
        MallocSparesPayloads(hdr, base, blocks, i, n, a, j);
      }
    }

    /** rust_kfree: null and what fails the header check are refused, a block of the list is released.
        Either way the pointer would now be refused, even if its header was merged away. */
    method Kfree(ptr: nat, ghost i: nat)
      requires Valid()
      requires || ptr == 0 || (i < |blocks| && ptr == Pointer(base, blocks, i))
               || (ptr >= 48 && (Get(hdr, ptr - 48).magic != 0xDEADBEEF || Get(hdr, ptr - 48).isFree))
      modifies this`hdr, this`blocks
      ensures Valid()
      ensures ptr == 0 || Get(hdr, ptr - 48).magic != 0xDEADBEEF || Get(hdr, ptr - 48).isFree
      ensures ptr == 0 || Get(old(hdr), ptr - 48).magic != 0xDEADBEEF || Get(old(hdr), ptr - 48).isFree ==>
                blocks == old(blocks) && hdr == old(hdr)
      ensures ptr != 0 && Get(old(hdr), ptr - 48).magic == 0xDEADBEEF && !Get(old(hdr), ptr - 48).isFree ==>
                i < |old(blocks)| && !old(blocks)[i].free && blocks == Release(old(blocks), i)
      ensures forall a, j: nat ::
                Get(hdr, a) != Get(old(hdr), a) && j < |old(blocks)| ==> ClearOf(base, old(blocks), j, a)
    {
      if ptr == 0 {
        return;
      }
      var a := ptr - 48;
      var block := Get(hdr, a);
      if block.magic != BLOCK_MAGIC || block.isFree {
        return;
      }
      assert At(hdr, base, blocks, i);
      NeighboursDiffer(hdr, base, blocks, i);
      FreedIsRefused(hdr, a);
      ReleaseInv(blocks, i);
      JoinNextLinked(hdr, base, blocks, i);
      JoinPrevLinked(JoinNext(hdr, a), base, MergeNext(blocks, i), i);
      forall x, j: nat | Get(JoinPrev(JoinNext(hdr, a), a), x) != Get(hdr, x) && j < |blocks|
        ensures ClearOf(base, blocks, j, x)
      {
        FreeSparesPayloads(hdr, base, blocks, i, x, j);
      }
      CoalesceNext(a);
      CoalescePrev(a);
      blocks := Release(blocks, i);
    }
  }

  /** A second free of the same pointer does nothing, whatever the first one merged. */
  method FreeTwice(heap: KernelHeap, ptr: nat, ghost i: nat)
    requires heap.Valid() && i < |heap.blocks| && ptr == Pointer(heap.base, heap.blocks, i) && !heap.blocks[i].free
    modifies heap`hdr, heap`blocks
    ensures heap.Valid() && heap.blocks == Release(old(heap.blocks), i)
  {
    assert At(heap.hdr, heap.base, heap.blocks, i);
    heap.Kfree(ptr, i);
    heap.Kfree(ptr, i);
  }

  lemma FirstFitIs(bs: seq<Block>, n: nat, i: nat)
    requires i <= |bs| && (i < |bs| ==> Fits(bs[i], n)) && forall j :: 0 <= j < i ==> !Fits(bs[j], n)
    ensures FirstFit(bs, n) == i
  {
  }
}
