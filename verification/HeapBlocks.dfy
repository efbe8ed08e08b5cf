/** The kernel heap of kernel-rs/src/heap.rs as a value: the blocks of a fixed arena in address
    order, what rust_kmalloc and rust_kfree do to them, and the invariant of every run. */
module HeapBlocks {
  const HEAP_SIZE: nat := 4194304

  /** One block: its payload size and whether it is free. */
  datatype Block = Block(size: nat, free: bool)

  function Sum(bs: seq<Block>): nat {
    if bs == [] then 0 else 48 + bs[0].size + Sum(bs[1..])
  }

  /** Bytes taken by a list of blocks, headers included. */
  function Span(bs: seq<Block>): nat {
    Sum(bs)
  }

  /** Where block i starts, relative to the arena. */
  function Offset(bs: seq<Block>, i: nat): nat
    requires i <= |bs|
  {
    Span(bs[..i])
  }

  lemma {:induction false} SpanAppend(a: seq<Block>, b: seq<Block>)
    ensures Span(a + b) == Span(a) + Span(b)
  {
    if a == [] {
      assert a + b == b;
    } else {
      assert (a + b)[1..] == a[1..] + b;
      SpanAppend(a[1..], b);
    }
  }

  lemma OffsetStep(bs: seq<Block>, i: nat)
    requires i < |bs|
    ensures Offset(bs, i + 1) == Offset(bs, i) + 48 + bs[i].size
  {
    assert bs[..i + 1] == bs[..i] + [bs[i]];
    SpanAppend(bs[..i], [bs[i]]);
    SpanOne(bs[i]);
  }

  lemma {:induction false} OffsetGap(bs: seq<Block>, i: nat, j: nat)
    requires i < j <= |bs|
    ensures Offset(bs, i) + 48 + bs[i].size <= Offset(bs, j)
    decreases j - i
  {
    OffsetStep(bs, i);
    if i + 1 < j {
      OffsetGap(bs, i + 1, j);
    }
  }

  // ----- what the two calls do to the list -----

  const WORD: nat := 0x1_0000_0000_0000_0000

  /** A `usize`. */
  type Size = n: nat | n < WORD witness 0

  /** `(size + 15) & !15` on 64-bit words: the sum wraps around. */
  function Aligned(n: Size): Size {
    (n + 15) % WORD / 16 * 16
  }

  predicate Fits(b: Block, n: nat) {
    b.free && b.size >= n
  }

  /** First fit: the lowest block that is free and large enough, or the length of the list. */
  function FirstFit(bs: seq<Block>, n: nat): (i: nat)
    ensures i <= |bs|
    ensures i < |bs| ==> Fits(bs[i], n)
    ensures forall j :: 0 <= j < i ==> !Fits(bs[j], n)
  {
    if bs == [] || Fits(bs[0], n) then 0 else 1 + FirstFit(bs[1..], n)
  }

  predicate Splits(b: Block, n: nat) {
    b.size > n + 48
  }

  /** What becomes of the chosen block: itself, or a taken part and a free rest. */
  function Taken(b: Block, n: nat): seq<Block> {
    if Splits(b, n) then [Block(n, false), Block(b.size - n - 48, true)] else [Block(b.size, false)]
  }

  function Alloc(bs: seq<Block>, i: nat, n: nat): seq<Block>
    requires i < |bs|
  {
    bs[..i] + Taken(bs[i], n) + bs[i + 1..]
  }

  /** A free block swallows its successor, header included. */
  function Merge(bs: seq<Block>, i: nat): seq<Block>
    requires i + 1 < |bs|
  {
    bs[..i] + [Block(bs[i].size + 48 + bs[i + 1].size, true)] + bs[i + 2..]
  }

  /** Freeing block i: first join the next block, then be joined by the previous one. */
  function MergeNext(bs: seq<Block>, i: nat): seq<Block>
    requires i < |bs|
  {
    var marked := bs[i := Block(bs[i].size, true)];
    if i + 1 < |bs| && bs[i + 1].free then Merge(marked, i) else marked
  }

  function MergePrev(bs: seq<Block>, i: nat): seq<Block>
    requires i < |bs|
  {
    if 0 < i && bs[i - 1].free then Merge(bs, i - 1) else bs
  }

  function Release(bs: seq<Block>, i: nat): seq<Block>
    requires i < |bs|
  {
    MergePrev(MergeNext(bs, i), i)
  }

  // ----- the invariant -----

  predicate GoodSize(b: Block) {
    b.size % 16 == 0
  }

  ghost predicate NoTwoFree(bs: seq<Block>) {
    forall i :: 0 <= i && i + 1 < |bs| ==> !(bs[i].free && bs[i + 1].free)
  }

  /** The blocks tile the arena, their sizes are multiples of 16, and no two neighbours are both free. */
  ghost predicate Inv(bs: seq<Block>) {
    Span(bs) == HEAP_SIZE && (forall b :: b in bs ==> GoodSize(b)) && NoTwoFree(bs)
  }

  const INITIAL: seq<Block> := [Block(HEAP_SIZE - 48, true)]

  lemma InitialInv()
    ensures Inv(INITIAL)
  {
    SpanOne(INITIAL[0]);
  }

  lemma SpanOne(b: Block)
    ensures Span([b]) == 48 + b.size
  {
    assert [b][1..] == [] && Sum([]) == 0;
  }

  lemma SpanTwo(a: Block, b: Block)
    ensures Span([a, b]) == 96 + a.size + b.size
  {
    assert [a, b][1..] == [b];
    SpanOne(b);
  }

  /** Replacing a stretch of blocks by one of the same span moves nothing else. */
  lemma SpanSplice(p: seq<Block>, m: seq<Block>, m': seq<Block>, q: seq<Block>)
    requires Span(m) == Span(m')
    ensures Span(p + m + q) == Span(p + m' + q)
  {
    SpanAppend(p + m, q);
    SpanAppend(p, m);
    SpanAppend(p + m', q);
    SpanAppend(p, m');
  }

  lemma TakenSpan(b: Block, n: nat)
    ensures Span(Taken(b, n)) == 48 + b.size
  {
    if Splits(b, n) {
      SpanTwo(Block(n, false), Block(b.size - n - 48, true));
    } else {
      SpanOne(Block(b.size, false));
    }
  }

  lemma SplitAt(bs: seq<Block>, i: nat)
    requires i < |bs|
    ensures bs == bs[..i] + [bs[i]] + bs[i + 1..]
  {
  }

  lemma AllocSpan(bs: seq<Block>, i: nat, n: nat)
    requires i < |bs|
    ensures Span(Alloc(bs, i, n)) == Span(bs)
  {
    TakenSpan(bs[i], n);
    SpanOne(bs[i]);
    SpanSplice(bs[..i], [bs[i]], Taken(bs[i], n), bs[i + 1..]);
    SplitAt(bs, i);
  }

  lemma AllocSizes(bs: seq<Block>, i: nat, n: nat, b: Block)
    requires i < |bs| && n % 16 == 0 && (forall c :: c in bs ==> GoodSize(c)) && b in Alloc(bs, i, n)
    ensures GoodSize(b)
  {
    assert GoodSize(bs[i]);
    assert b in bs || b in Taken(bs[i], n);
  }

  lemma AllocInv(bs: seq<Block>, i: nat, n: nat)
    requires Inv(bs) && i < |bs| && Fits(bs[i], n) && n % 16 == 0
    ensures Inv(Alloc(bs, i, n))
  {
    AllocSpan(bs, i, n);
    forall b | b in Alloc(bs, i, n)
      ensures GoodSize(b)
    {
      AllocSizes(bs, i, n, b);
    }
    AllocNoTwoFree(bs, i, n);
  }

  lemma AllocNoTwoFree(bs: seq<Block>, i: nat, n: nat)
    requires NoTwoFree(bs) && i < |bs| && bs[i].free
    ensures NoTwoFree(Alloc(bs, i, n))
  {
    var cs := Alloc(bs, i, n);
    var d := |Taken(bs[i], n)| - 1;
    forall j | 0 <= j && j + 1 < |cs|
      ensures !(cs[j].free && cs[j + 1].free)
    {
      if j > i + d {
        assert cs[j] == bs[j - d] && cs[j + 1] == bs[j - d + 1];
      } else if j == i + d {
        assert cs[j + 1] == bs[i + 1];
      }
    }
  }

  lemma MergeSpan(bs: seq<Block>, i: nat)
    requires i + 1 < |bs|
    ensures Span(Merge(bs, i)) == Span(bs)
  {
    SplitAtPair(bs, i);
    PairSpan(bs[..i], bs[i], bs[i + 1], bs[i + 2..]);
  }

  lemma SplitAtPair(bs: seq<Block>, i: nat)
    requires i + 1 < |bs|
    ensures bs == bs[..i] + [bs[i], bs[i + 1]] + bs[i + 2..]
  {
  }

  lemma PairSpan(front: seq<Block>, a: Block, b: Block, back: seq<Block>)
    ensures Span(front + [a, b] + back) == Span(front + [Block(a.size + 48 + b.size, true)] + back)
  {
    SpanTwo(a, b);
    SpanOne(Block(a.size + 48 + b.size, true));
    SpanSplice(front, [a, b], [Block(a.size + 48 + b.size, true)], back);
  }

  lemma MergedGood(a: Block, b: Block)
    requires GoodSize(a) && GoodSize(b)
    ensures GoodSize(Block(a.size + 48 + b.size, true))
  {
    SumOfMultiples(a.size, b.size);
  }

  lemma MergeMembers(bs: seq<Block>, i: nat, b: Block)
    requires i + 1 < |bs| && b in Merge(bs, i)
    ensures b in bs || b == Block(bs[i].size + 48 + bs[i + 1].size, true)
  {
  }

  lemma MergeSizes(bs: seq<Block>, i: nat)
    requires i + 1 < |bs| && (forall b :: b in bs ==> GoodSize(b))
    ensures forall b :: b in Merge(bs, i) ==> GoodSize(b)
  {
    MergedGood(bs[i], bs[i + 1]);
    forall b | b in Merge(bs, i)
      ensures GoodSize(b)
    {
      MergeMembers(bs, i, b);
    }
  }

  lemma MergeKeeps(bs: seq<Block>, i: nat)
    requires i + 1 < |bs| && (forall b :: b in bs ==> GoodSize(b))
    ensures Span(Merge(bs, i)) == Span(bs) && forall b :: b in Merge(bs, i) ==> GoodSize(b)
  {
    MergeSpan(bs, i);
    MergeSizes(bs, i);
  }

  lemma SumOfMultiples(x: nat, y: nat)
    requires x % 16 == 0 && y % 16 == 0
    ensures (x + 48 + y) % 16 == 0
  {
    assert x + 48 + y == 16 * (x / 16 + 3 + y / 16);
  }

  lemma MarkKeeps(bs: seq<Block>, i: nat)
    requires i < |bs| && (forall b :: b in bs ==> GoodSize(b))
    ensures var marked := bs[i := Block(bs[i].size, true)];
            Span(marked) == Span(bs) && forall b :: b in marked ==> GoodSize(b)
  {
    var b := Block(bs[i].size, true);
    SpanOne(b);
    SpanOne(bs[i]);
    SpanSplice(bs[..i], [bs[i]], [b], bs[i + 1..]);
    assert bs == bs[..i] + [bs[i]] + bs[i + 1..];
    assert bs[i := b] == bs[..i] + [b] + bs[i + 1..];
    assert GoodSize(bs[i]);
  }

  lemma ReleaseInv(bs: seq<Block>, i: nat)
    requires Inv(bs) && i < |bs| && !bs[i].free
    ensures Inv(Release(bs, i))
  {
    MarkKeeps(bs, i);
    var marked := bs[i := Block(bs[i].size, true)];
    if i + 1 < |bs| && bs[i + 1].free {
      MergeKeeps(marked, i);
    }
    var ms := MergeNext(bs, i);
    if 0 < i && ms[i - 1].free {
      MergeKeeps(ms, i - 1);
    }
    ReleaseNoTwoFree(bs, i);
  }

  /** After the first merge only the pair (i - 1, i) may be free together. */
  lemma MergeNextPairs(bs: seq<Block>, i: nat, j: nat)
    requires NoTwoFree(bs) && i < |bs| && !bs[i].free && j + 1 < |MergeNext(bs, i)|
    ensures MergeNext(bs, i)[j].free && MergeNext(bs, i)[j + 1].free ==> j + 1 == i
  {
    var ms := MergeNext(bs, i);
    if i + 1 < |bs| && bs[i + 1].free {
      if j > i {
        assert ms[j] == bs[j + 1] && ms[j + 1] == bs[j + 2];
      } else if j == i {
        assert ms[j + 1] == bs[i + 2];
      }
    }
  }

  lemma ReleaseNoTwoFree(bs: seq<Block>, i: nat)
    requires NoTwoFree(bs) && i < |bs| && !bs[i].free
    ensures NoTwoFree(Release(bs, i))
  {
    forall j: nat | j + 1 < |Release(bs, i)|
      ensures !(Release(bs, i)[j].free && Release(bs, i)[j + 1].free)
    {
      ReleasePairs(bs, i, j);
    }
  }

  lemma ReleasePairs(bs: seq<Block>, i: nat, j: nat)
    requires NoTwoFree(bs) && i < |bs| && !bs[i].free && j + 1 < |Release(bs, i)|
    ensures !(Release(bs, i)[j].free && Release(bs, i)[j + 1].free)
  {
    var ms, rs := MergeNext(bs, i), Release(bs, i);
    if 0 < i && ms[i - 1].free {
      if j + 1 < i {
        MergeNextPairs(bs, i, j);
        assert rs[j] == ms[j];
        assert j + 1 < i - 1 ==> rs[j + 1] == ms[j + 1];
      } else {
        MergeNextPairs(bs, i, j + 1);
        assert rs[j + 1] == ms[j + 2];
        assert j >= i ==> rs[j] == ms[j + 1];
      }
    } else {
      MergeNextPairs(bs, i, j);
    }
  }

  // ----- what follows -----

  lemma SomeBlockIsTaken(bs: seq<Block>) returns (k: nat)
    requires NoTwoFree(bs) && |bs| >= 2
    ensures k < |bs| && !bs[k].free
  {
    k := if bs[0].free then 1 else 0;
  }

  /** With nothing live, the heap is the single block it started from. */
  lemma AllFreeIsInitial(bs: seq<Block>)
    requires Inv(bs) && forall b :: b in bs ==> b.free
    ensures bs == INITIAL
  {
    if |bs| >= 2 {
      var k := SomeBlockIsTaken(bs);
      assert false;
    }
    assert bs == [bs[0]];
    SpanOne(bs[0]);
  }

  /** Freeing what was just allocated restores the list exactly, split or not. */
  lemma MallocFreeRestores(bs: seq<Block>, i: nat, n: nat)
    requires Inv(bs) && i < |bs| && Fits(bs[i], n)
    ensures i < |Alloc(bs, i, n)| && !Alloc(bs, i, n)[i].free
    ensures Release(Alloc(bs, i, n), i) == bs
  {
    var cs := Alloc(bs, i, n);
    var ms := MergeNext(cs, i);
    if Splits(bs[i], n) {
      assert cs[i + 1] == Block(bs[i].size - n - 48, true);
      assert cs[i + 2..] == bs[i + 1..];
    } else {
      assert cs == bs[i := Block(bs[i].size, false)];
    }
    assert ms == bs;
  }

  // ----- pointers -----

  /** Where block i and its payload lie in an arena that starts at `base`. */
  function Addr(base: nat, bs: seq<Block>, i: nat): nat
    requires i <= |bs|
  {
    base + Offset(bs, i)
  }

  function Pointer(base: nat, bs: seq<Block>, i: nat): nat
    requires i < |bs|
  {
    Addr(base, bs, i) + 48
  }

  ghost predicate IsLive(base: nat, bs: seq<Block>, p: nat) {
    exists i :: 0 <= i < |bs| && !bs[i].free && Pointer(base, bs, i) == p
  }

  /** Distinct blocks have distinct, ordered, non-overlapping extents. */
  lemma Apart(base: nat, bs: seq<Block>, i: nat, j: nat)
    requires i < j < |bs|
    ensures Pointer(base, bs, i) + bs[i].size <= Addr(base, bs, j) < Pointer(base, bs, j)
  {
    OffsetGap(bs, i, j);
  }

  /** A payload is 16-aligned and inside the arena. */
  lemma PayloadInArena(base: nat, bs: seq<Block>, i: nat)
    requires Inv(bs) && i < |bs| && base % 16 == 0
    ensures Pointer(base, bs, i) % 16 == 0
    ensures base < Pointer(base, bs, i) && Pointer(base, bs, i) + bs[i].size <= base + HEAP_SIZE
  {
    OffsetAligned(bs, i);
    OffsetGap(bs, i, |bs|);
    assert bs[..|bs|] == bs;
    assert Pointer(base, bs, i) == 16 * (base / 16 + Offset(bs, i) / 16 + 3);
  }

  lemma {:induction false} OffsetAligned(bs: seq<Block>, i: nat)
    requires i <= |bs| && forall b :: b in bs ==> GoodSize(b)
    ensures Offset(bs, i) % 16 == 0
    decreases i
  {
    if i > 0 {
      OffsetStep(bs, i - 1);
      OffsetAligned(bs, i - 1);
      assert bs[i - 1] in bs;
      SumOfMultiples(Offset(bs, i - 1), bs[i - 1].size);
    } else {
      assert bs[..0] == [];
    }
  }

  /** Offsets depend only on the blocks before; a replaced stretch of equal span moves nothing. */
  lemma OffsetsAgree(bs: seq<Block>, cs: seq<Block>, i: nat, j: nat)
    requires i <= |bs| && j <= |cs|
    requires bs[i..] == cs[j..] && Span(bs) == Span(cs)
    ensures Offset(bs, i) == Offset(cs, j)
  {
    assert bs == bs[..i] + bs[i..] && cs == cs[..j] + cs[j..];
    SpanAppend(bs[..i], bs[i..]);
    SpanAppend(cs[..j], cs[j..]);
  }

  // ----- how the addresses of the list move -----

  /** How many blocks an allocation adds to the list. */
  function Extra(b: Block, n: nat): nat {
    if Splits(b, n) then 1 else 0
  }

  lemma AllocTail(bs: seq<Block>, i: nat, n: nat, j: nat)
    requires i < j <= |bs|
    ensures |Alloc(bs, i, n)| == |bs| + Extra(bs[i], n) && Alloc(bs, i, n)[j + Extra(bs[i], n)..] == bs[j..]
  {
    assert |bs[..i] + Taken(bs[i], n)| == i + 1 + Extra(bs[i], n);
  }

  lemma AllocAddresses(bs: seq<Block>, i: nat, n: nat, j: nat)
    requires i < |bs| && Span(Alloc(bs, i, n)) == Span(bs) && j <= |bs|
    ensures |Alloc(bs, i, n)| == |bs| + Extra(bs[i], n)
    ensures j <= i ==> Offset(Alloc(bs, i, n), j) == Offset(bs, j)
    ensures j > i ==> Offset(Alloc(bs, i, n), j + Extra(bs[i], n)) == Offset(bs, j)
  {
    var cs := Alloc(bs, i, n);
    if j <= i {
      assert cs[..j] == bs[..j];
    } else {
      AllocTail(bs, i, n, j);
      OffsetsAgree(bs, cs, j, j + Extra(bs[i], n));
    }
  }

  lemma MergeAddresses(bs: seq<Block>, i: nat, j: nat)
    requires i + 1 < |bs| && Span(Merge(bs, i)) == Span(bs) && j <= |bs| && j != i + 1
    ensures |Merge(bs, i)| == |bs| - 1
    ensures j <= i ==> Offset(Merge(bs, i), j) == Offset(bs, j)
    ensures j > i + 1 ==> Offset(Merge(bs, i), j - 1) == Offset(bs, j)
  {
    var cs := Merge(bs, i);
    if j <= i {
      assert cs[..j] == bs[..j];
    } else {
      assert cs[j - 1..] == bs[j..];
      OffsetsAgree(bs, cs, j, j - 1);
    }
  }
}
