/** Whole runs of rust_kmalloc and rust_kfree over the block list: which pointers are live, and what
    the heap looks like once all of them have been given back. */
module HeapRuns {
  import opened HeapBlocks

  datatype Call = Malloc(n: Size) | Free(p: nat)

  /** rust_kmalloc: the new list and the pointer, null for a zero request or when nothing fits. */
  function AfterMalloc(base: nat, bs: seq<Block>, n: Size): (seq<Block>, nat) {
    var i := FirstFit(bs, Aligned(n));
    if n == 0 || i == |bs| then (bs, 0) else (Alloc(bs, i, Aligned(n)), Pointer(base, bs, i))
  }

  /** Clients free null or a pointer they hold. */
  ghost predicate Legal(base: nat, bs: seq<Block>, c: Call) {
    c.Free? && c.p != 0 ==> IsLive(base, bs, c.p)
  }

  ghost function AfterFree(base: nat, bs: seq<Block>, p: nat): seq<Block>
    requires p == 0 || IsLive(base, bs, p)
  {
    if p == 0 then bs
    else
      var i :| 0 <= i < |bs| && !bs[i].free && Pointer(base, bs, i) == p;
      Release(bs, i)
  }

  ghost function Step(base: nat, bs: seq<Block>, c: Call): seq<Block>
    requires Legal(base, bs, c)
  {
    match c
    case Malloc(n) => AfterMalloc(base, bs, n).0
    case Free(p) => AfterFree(base, bs, p)
  }

  ghost predicate LegalRun(base: nat, bs: seq<Block>, calls: seq<Call>)
    decreases |calls|
  {
    calls == [] || (Legal(base, bs, calls[0]) && LegalRun(base, Step(base, bs, calls[0]), calls[1..]))
  }

  ghost function Run(base: nat, bs: seq<Block>, calls: seq<Call>): seq<Block>
    requires LegalRun(base, bs, calls)
    decreases |calls|
  {
    if calls == [] then bs else Run(base, Step(base, bs, calls[0]), calls[1..])
  }

  /** The client's own record: pointers received and not yet given back. */
  ghost function Record(base: nat, bs: seq<Block>, held: set<nat>, c: Call): set<nat> {
    match c
    case Malloc(n) => var p := AfterMalloc(base, bs, n).1; if p == 0 then held else held + {p}
    case Free(p) => held - {p}
  }

  ghost function Outstanding(base: nat, bs: seq<Block>, held: set<nat>, calls: seq<Call>): set<nat>
    requires LegalRun(base, bs, calls)
    decreases |calls|
  {
    if calls == [] then held
    else Outstanding(base, Step(base, bs, calls[0]), Record(base, bs, held, calls[0]), calls[1..])
  }

  // ----- live pointers through the primitive changes -----

  lemma LiveHere(base: nat, bs: seq<Block>, i: nat)
    requires i < |bs| && !bs[i].free
    ensures IsLive(base, bs, Pointer(base, bs, i))
  {
  }

  lemma OneBlockPerPointer(base: nat, bs: seq<Block>, i: nat, j: nat)
    requires i < |bs| && j < |bs| && Pointer(base, bs, i) == Pointer(base, bs, j)
    ensures i == j
  {
    if i < j {
      Apart(base, bs, i, j);
    } else if j < i {
      Apart(base, bs, j, i);
    }
  }

  lemma MergeKeepsLive(base: nat, bs: seq<Block>, i: nat, j: nat)
    requires i + 1 < |bs| && bs[i].free && bs[i + 1].free && j < |bs| && !bs[j].free
    ensures IsLive(base, Merge(bs, i), Pointer(base, bs, j))
  {
    MergeSpan(bs, i);
    MergeAddresses(bs, i, j);
    var k := if j <= i then j else j - 1;
    assert Merge(bs, i)[k] == bs[j];
    LiveHere(base, Merge(bs, i), k);
  }

  lemma MergeAddsNone(base: nat, bs: seq<Block>, i: nat, k: nat)
    requires i + 1 < |bs| && k < |Merge(bs, i)| && !Merge(bs, i)[k].free
    ensures IsLive(base, bs, Pointer(base, Merge(bs, i), k))
  {
    MergeSpan(bs, i);
    var j := if k <= i then k else k + 1;
    MergeAddresses(bs, i, j);
    assert Merge(bs, i)[k] == bs[j];
    LiveHere(base, bs, j);
  }

  lemma MergeLive(base: nat, bs: seq<Block>, i: nat, p: nat)
    requires i + 1 < |bs| && bs[i].free && bs[i + 1].free
    ensures IsLive(base, Merge(bs, i), p) <==> IsLive(base, bs, p)
  {
    if IsLive(base, bs, p) {
      var j :| 0 <= j < |bs| && !bs[j].free && Pointer(base, bs, j) == p;
      MergeKeepsLive(base, bs, i, j);
    }
    if IsLive(base, Merge(bs, i), p) {
      var k :| 0 <= k < |Merge(bs, i)| && !Merge(bs, i)[k].free && Pointer(base, Merge(bs, i), k) == p;
      MergeAddsNone(base, bs, i, k);
    }
  }

  lemma MarkLive(base: nat, bs: seq<Block>, i: nat, p: nat)
    requires i < |bs| && !bs[i].free
    ensures IsLive(base, bs[i := Block(bs[i].size, true)], p) <==> IsLive(base, bs, p) && p != Pointer(base, bs, i)
  {
    var cs := bs[i := Block(bs[i].size, true)];
    SameSizesSameOffsets(bs, cs);
    if IsLive(base, cs, p) {
      var k :| 0 <= k < |cs| && !cs[k].free && Pointer(base, cs, k) == p;
      LiveHere(base, bs, k);
      if p == Pointer(base, bs, i) {
        OneBlockPerPointer(base, bs, i, k);
      }
    }
    if IsLive(base, bs, p) && p != Pointer(base, bs, i) {
      var k :| 0 <= k < |bs| && !bs[k].free && Pointer(base, bs, k) == p;
      LiveHere(base, cs, k);
    }
  }

  lemma SameSizesSameOffsets(bs: seq<Block>, cs: seq<Block>)
    requires |bs| == |cs| && forall k :: 0 <= k < |bs| ==> cs[k].size == bs[k].size
    ensures forall k: nat :: k <= |bs| ==> Offset(cs, k) == Offset(bs, k)
  {
    forall k: nat | k <= |bs|
      ensures Offset(cs, k) == Offset(bs, k)
    {
      SameSizes(bs, cs, k);
    }
  }

  lemma {:induction false} SameSizes(bs: seq<Block>, cs: seq<Block>, k: nat)
    requires |bs| == |cs| && k <= |bs| && forall k :: 0 <= k < |bs| ==> cs[k].size == bs[k].size
    ensures Offset(cs, k) == Offset(bs, k)
  {
    if k > 0 {
      SameSizes(bs, cs, k - 1);
      OffsetStep(bs, k - 1);
      OffsetStep(cs, k - 1);
    }
  }

  /** Freeing removes exactly the freed pointer from the live ones. */
  lemma ReleaseLive(base: nat, bs: seq<Block>, i: nat, p: nat)
    requires i < |bs| && !bs[i].free
    ensures IsLive(base, Release(bs, i), p) <==> IsLive(base, bs, p) && p != Pointer(base, bs, i)
  {
    var marked := bs[i := Block(bs[i].size, true)];
    MarkLive(base, bs, i, p);
    if i + 1 < |bs| && bs[i + 1].free {
      MergeLive(base, marked, i, p);
    }
    var ms := MergeNext(bs, i);
    if 0 < i && ms[i - 1].free {
      MergeLive(base, ms, i - 1, p);
    }
  }

  lemma AllocKeepsLive(base: nat, bs: seq<Block>, i: nat, n: nat, j: nat)
    requires i < |bs| && j < |bs| && bs[i].free && !bs[j].free
    ensures IsLive(base, Alloc(bs, i, n), Pointer(base, bs, j))
  {
    var cs := Alloc(bs, i, n);
    AllocSpan(bs, i, n);
    AllocAddresses(bs, i, n, j);
    var k := if j < i then j else j + Extra(bs[i], n);
    assert cs[k] == bs[j];
    LiveHere(base, cs, k);
  }

  lemma AllocAddsOne(base: nat, bs: seq<Block>, i: nat, n: nat, k: nat)
    requires i < |bs| && k < |Alloc(bs, i, n)| && !Alloc(bs, i, n)[k].free
    ensures k == i || IsLive(base, bs, Pointer(base, Alloc(bs, i, n), k))
  {
    var cs, d := Alloc(bs, i, n), Extra(bs[i], n);
    AllocSpan(bs, i, n);
    AllocAddresses(bs, i, n, i);
    if k != i {
      var j := if k < i then k else k - d;
      AllocAddresses(bs, i, n, j);
      assert cs[k] == bs[j];
      LiveHere(base, bs, j);
    }
  }

  lemma FreeIsNotLive(base: nat, bs: seq<Block>, i: nat)
    requires i < |bs| && bs[i].free
    ensures !IsLive(base, bs, Pointer(base, bs, i))
  {
    if IsLive(base, bs, Pointer(base, bs, i)) {
      var j :| 0 <= j < |bs| && !bs[j].free && Pointer(base, bs, j) == Pointer(base, bs, i);
      OneBlockPerPointer(base, bs, i, j);
    }
  }

  /** Allocating adds exactly the returned pointer, which was not live before. */
  lemma AllocLive(base: nat, bs: seq<Block>, i: nat, n: nat, p: nat)
    requires i < |bs| && bs[i].free
    ensures IsLive(base, Alloc(bs, i, n), p) <==> IsLive(base, bs, p) || p == Pointer(base, bs, i)
    ensures !IsLive(base, bs, Pointer(base, bs, i))
  {
    var cs := Alloc(bs, i, n);
    FreeIsNotLive(base, bs, i);
    AllocSpan(bs, i, n);
    AllocAddresses(bs, i, n, i);
    LiveHere(base, cs, i);
    if IsLive(base, bs, p) {
      var j :| 0 <= j < |bs| && !bs[j].free && Pointer(base, bs, j) == p;
      AllocKeepsLive(base, bs, i, n, j);
    }
    if IsLive(base, cs, p) {
      var k :| 0 <= k < |cs| && !cs[k].free && Pointer(base, cs, k) == p;
      AllocAddsOne(base, bs, i, n, k);
    }
  }

  // ----- one call -----

  lemma AlignedProps(n: Size)
    ensures Aligned(n) % 16 == 0
    ensures if n + 15 < WORD then n <= Aligned(n) < n + 16 else Aligned(n) == 0
  {
  }

  /** rust_kmalloc answers null exactly when no free block holds the rounded size, and otherwise the
      payload of the lowest one that does. */
  lemma MallocAnswers(base: nat, bs: seq<Block>, n: Size)
    requires n > 0 && base > 0
    ensures AfterMalloc(base, bs, n).1 == 0 <==> forall b :: b in bs ==> !Fits(b, Aligned(n))
    ensures AfterMalloc(base, bs, n).1 != 0 ==>
              exists i :: 0 <= i < |bs| && Fits(bs[i], Aligned(n)) && AfterMalloc(base, bs, n).1 == Pointer(base, bs, i)
                          && forall j :: 0 <= j < i ==> !Fits(bs[j], Aligned(n))
  {
    var i := FirstFit(bs, Aligned(n));
    if i < |bs| {
      assert bs[i] in bs;
    }
  }

  /** A served request takes the lowest block that holds the size rounded up to 16, and of it that much and at most
      48 bytes more. It takes less than the whole exactly when more is left than a header needs: then it takes the
      rounded size, and what is left behind that header is a free block. No other block changes. A request for
      nothing gets null and changes nothing. */
  lemma TakesNoMore(base: nat, bs: seq<Block>, n: Size, a: nat, i: nat)
    requires 0 < n <= a < n + 16 && a % 16 == 0 && a < WORD && i < |bs| && bs[i].free && bs[i].size >= a
    requires forall j :: 0 <= j < i ==> !bs[j].free || bs[j].size < a
    ensures AfterMalloc(base, bs, 0) == (bs, 0)
    ensures var (cs, p) := AfterMalloc(base, bs, n);
            && p == Pointer(base, bs, i) && i < |cs| && cs[..i] == bs[..i]
            && !cs[i].free && a <= cs[i].size <= a + 48
            && (bs[i].size <= a + 48 ==> cs[i].size == bs[i].size && cs[i + 1..] == bs[i + 1..])
            && (bs[i].size > a + 48 ==>
                  cs[i].size == a && cs[i + 1..] == [Block(bs[i].size - a - 48, true)] + bs[i + 1..])
  {
    AlignedIs(n, a);
    var cs := Alloc(bs, i, a);
    if Splits(bs[i], a) {
      assert cs == bs[..i] + [Block(a, false)] + ([Block(bs[i].size - a - 48, true)] + bs[i + 1..]);
    } else {
      assert cs == bs[..i] + [Block(bs[i].size, false)] + bs[i + 1..];
    }
  }

  lemma AlignedIs(n: Size, a: nat)
    requires n <= a < n + 16 && a % 16 == 0 && a < WORD
    ensures Aligned(n) == a
  {
    AlignedProps(n);
  }

  /** A block that rust_kmalloc hands out is as large as was asked exactly when the rounding did not wrap:
      for the fifteen largest sizes it hands out the first free block, however small, or its first 0 bytes. */
  lemma LargeEnoughIff(base: nat, bs: seq<Block>, n: Size)
    requires Inv(bs) && n > 0 && FirstFit(bs, Aligned(n)) < |bs|
    ensures var i, cs := FirstFit(bs, Aligned(n)), AfterMalloc(base, bs, n).0;
            i < |cs| && !cs[i].free && (cs[i].size >= n <==> n + 15 < WORD)
  {
    var i := FirstFit(bs, Aligned(n));
    AlignedProps(n);
    PayloadInArena(0, bs, i);
  }

  /** Asking a fresh heap for all of memory but one byte succeeds, with no room at all. */
  lemma WrapExample(base: nat)
    ensures AfterMalloc(base, INITIAL, WORD - 1) == ([Block(0, false), Block(HEAP_SIZE - 96, true)], base + 48)
  {
    AlignedProps(WORD - 1);
    assert INITIAL[..0] == [] && INITIAL[1..] == [] && FirstFit(INITIAL, 0) == 0;
    assert Alloc(INITIAL, 0, 0) == [Block(0, false), Block(HEAP_SIZE - 96, true)];
  }

  lemma StepInv(base: nat, bs: seq<Block>, c: Call)
    requires Inv(bs) && Legal(base, bs, c)
    ensures Inv(Step(base, bs, c))
  {
    match c
    case Malloc(n) =>
      var i := FirstFit(bs, Aligned(n));
      if n > 0 && i < |bs| {
        AlignedProps(n);
        AllocInv(bs, i, Aligned(n));
      }
    case Free(p) =>
      if p != 0 {
        var i :| 0 <= i < |bs| && !bs[i].free && Pointer(base, bs, i) == p && AfterFree(base, bs, p) == Release(bs, i);
        ReleaseInv(bs, i);
      }
  }

  ghost predicate Accounts(base: nat, bs: seq<Block>, held: set<nat>) {
    forall p :: p in held <==> IsLive(base, bs, p)
  }

  lemma StepAccounts(base: nat, bs: seq<Block>, held: set<nat>, c: Call)
    requires Inv(bs) && Legal(base, bs, c) && Accounts(base, bs, held) && base > 0
    ensures Accounts(base, Step(base, bs, c), Record(base, bs, held, c))
  {
    forall p
      ensures p in Record(base, bs, held, c) <==> IsLive(base, Step(base, bs, c), p)
    {
      match c
      case Malloc(n) =>
        var i := FirstFit(bs, Aligned(n));
        if n > 0 && i < |bs| {
          AllocLive(base, bs, i, Aligned(n), p);
        }
      case Free(q) =>
        if q == 0 {
          NullIsNotLive(base, bs);
        } else {
          var i :| 0 <= i < |bs| && !bs[i].free && Pointer(base, bs, i) == q
                   && AfterFree(base, bs, q) == Release(bs, i);
          ReleaseLive(base, bs, i, p);
        }
    }
  }

  lemma NullIsNotLive(base: nat, bs: seq<Block>)
    ensures !IsLive(base, bs, 0)
  {
  }

  // ----- whole runs -----

  /** In every run the blocks tile the arena with no two free neighbours, and the live pointers are
      exactly those the client holds. */
  lemma {:induction false} RunKeeps(base: nat, bs: seq<Block>, held: set<nat>, calls: seq<Call>)
    requires Inv(bs) && Accounts(base, bs, held) && LegalRun(base, bs, calls) && base > 0
    ensures Inv(Run(base, bs, calls))
    ensures Accounts(base, Run(base, bs, calls), Outstanding(base, bs, held, calls))
    decreases |calls|
  {
    if calls != [] {
      StepInv(base, bs, calls[0]);
      StepAccounts(base, bs, held, calls[0]);
      RunKeeps(base, Step(base, bs, calls[0]), Record(base, bs, held, calls[0]), calls[1..]);
    }
  }

  /** Once everything has been given back, in whatever order, the heap is the single free block it
      started from. */
  lemma NothingHeldMeansInitial(base: nat, calls: seq<Call>)
    requires base > 0 && LegalRun(base, INITIAL, calls) && Outstanding(base, INITIAL, {}, calls) == {}
    ensures Run(base, INITIAL, calls) == INITIAL
  {
    InitialInv();
    assert Accounts(base, INITIAL, {});
    RunKeeps(base, INITIAL, {}, calls);
    var bs := Run(base, INITIAL, calls);
    forall b | b in bs
      ensures b.free
    {
      var i :| 0 <= i < |bs| && bs[i] == b;
      if !b.free {
        LiveHere(base, bs, i);
      }
    }
    AllFreeIsInitial(bs);
  }

  /** A client that only asks. */
  function Asks(ns: seq<Size>): seq<Call> {
    seq(|ns|, i requires 0 <= i < |ns| => Malloc(ns[i]))
  }

  /** A size in whole multiples of 16 bytes. */
  function Rounded(n: nat): nat {
    (n + 15) / 16 * 16
  }

  /** The arena that requests use up: each its rounded size and a header. */
  function Demand(ns: seq<Size>): nat {
    if ns == [] then 0 else Rounded(ns[0]) + 48 + Demand(ns[1..])
  }

  function Handed(ns: seq<Size>): seq<Block> {
    seq(|ns|, i requires 0 <= i < |ns| => Block(Rounded(ns[i]), false))
  }

  lemma AskOne(base: nat, front: seq<Block>, rest: nat, n: Size)
    requires 0 < n && n + 15 < WORD && Rounded(n) + 48 < rest && forall b :: b in front ==> !b.free
    ensures AfterMalloc(base, front + [Block(rest, true)], n)
            == (front + [Block(Rounded(n), false)] + [Block(rest - Rounded(n) - 48, true)], base + Span(front) + 48)
  {
    var bs, i := front + [Block(rest, true)], |front|;
    TakesNoMore(base, bs, n, Rounded(n), i);
    var cs := AfterMalloc(base, bs, n).0;
    assert bs[..i] == front && bs[i + 1..] == [];
    assert cs == cs[..i] + [cs[i]] + cs[i + 1..];
    assert front + [cs[i]] + cs[i + 1..] == front + [Block(Rounded(n), false)] + [Block(rest - Rounded(n) - 48, true)];
  }

  lemma FirstAsk(base: nat, bs: seq<Block>, n: Size, calls: seq<Call>)
    ensures LegalRun(base, AfterMalloc(base, bs, n).0, calls) ==>
              && LegalRun(base, bs, [Malloc(n)] + calls)
              && Run(base, bs, [Malloc(n)] + calls) == Run(base, AfterMalloc(base, bs, n).0, calls)
  {
    var all := [Malloc(n)] + calls;
    assert all[0] == Malloc(n) && all[1..] == calls;
    assert Legal(base, bs, all[0]) && Step(base, bs, all[0]) == AfterMalloc(base, bs, n).0;
  }

  /** Sizes that rounding does not wrap around. */
  ghost predicate Servable(ns: seq<Size>) {
    forall n :: n in ns ==> 0 < n && n + 15 < WORD
  }

  lemma AsksParts(front: seq<Block>, ns: seq<Size>)
    requires ns != []
    ensures Asks(ns) == [Malloc(ns[0])] + Asks(ns[1..]) && ns[0] in ns && (Servable(ns) ==> Servable(ns[1..]))
    ensures front + [Block(Rounded(ns[0]), false)] + Handed(ns[1..]) == front + Handed(ns)
  {
    assert forall n :: n in ns[1..] ==> n in ns;
  }

  /** Requests on a heap whose end is free are all served, one behind the other and each with its rounded size,
      as long as those sizes and their headers are less than what is free. */
  lemma {:induction false} AsksServed(base: nat, front: seq<Block>, rest: nat, ns: seq<Size>, bs: seq<Block>)
    requires (forall b :: b in front ==> !b.free) && Servable(ns) && Demand(ns) < rest
    requires bs == front + [Block(rest, true)]
    ensures LegalRun(base, bs, Asks(ns))
    ensures Run(base, bs, Asks(ns)) == front + Handed(ns) + [Block(rest - Demand(ns), true)]
    decreases |ns|
  {
    if ns == [] {
      assert front + Handed(ns) == front;
    } else {
      AsksParts(front, ns);
      AskOne(base, front, rest, ns[0]);
      var front', cs := front + [Block(Rounded(ns[0]), false)], AfterMalloc(base, bs, ns[0]).0;
      AsksServed(base, front', rest - Rounded(ns[0]) - 48, ns[1..], cs);
      FirstAsk(base, bs, ns[0], Asks(ns[1..]));
    }
  }

  /** So a fresh heap holds any requests whose rounded sizes and headers are less than its one block. */
  lemma FreshHeapServes(base: nat, ns: seq<Size>)
    requires Servable(ns) && Demand(ns) < 4194304 - 48
    ensures LegalRun(base, INITIAL, Asks(ns))
    ensures Run(base, INITIAL, Asks(ns)) == Handed(ns) + [Block(4194304 - 48 - Demand(ns), true)]
  {
    assert INITIAL == [] + [Block(4194304 - 48, true)];
    AsksServed(base, [], 4194304 - 48, ns, INITIAL);
    assert [] + Handed(ns) == Handed(ns);
  }

  // ----- no empty blocks -----

  ghost predicate NonEmpty(bs: seq<Block>) {
    forall b :: b in bs ==> b.size > 0
  }

  lemma AllocNonEmpty(bs: seq<Block>, i: nat, n: nat)
    requires NonEmpty(bs) && i < |bs| && n > 0
    ensures NonEmpty(Alloc(bs, i, n))
  {
    assert bs[i] in bs;
    forall b | b in Alloc(bs, i, n)
      ensures b.size > 0
    {
      assert b in bs || b in Taken(bs[i], n);
    }
  }

  lemma MergeNonEmpty(bs: seq<Block>, i: nat)
    requires NonEmpty(bs) && i + 1 < |bs|
    ensures NonEmpty(Merge(bs, i))
  {
    forall b | b in Merge(bs, i)
      ensures b.size > 0
    {
      MergeMembers(bs, i, b);
    }
  }

  lemma ReleaseNonEmpty(bs: seq<Block>, i: nat)
    requires NonEmpty(bs) && i < |bs|
    ensures NonEmpty(Release(bs, i))
  {
    var marked := bs[i := Block(bs[i].size, true)];
    assert bs[i] in bs;
    forall b | b in marked
      ensures b.size > 0
    {
      assert b in bs || b == Block(bs[i].size, true);
    }
    if i + 1 < |bs| && bs[i + 1].free {
      MergeNonEmpty(marked, i);
    }
    var ms := MergeNext(bs, i);
    if 0 < i && ms[i - 1].free {
      MergeNonEmpty(ms, i - 1);
    }
  }

  lemma StepNonEmpty(base: nat, bs: seq<Block>, c: Call)
    requires NonEmpty(bs) && Legal(base, bs, c) && (c.Malloc? ==> c.n + 15 < WORD)
    ensures NonEmpty(Step(base, bs, c))
  {
    match c
    case Malloc(n) =>
      var i := FirstFit(bs, Aligned(n));
      if n > 0 && i < |bs| {
        AlignedProps(n);
        AllocNonEmpty(bs, i, Aligned(n));
      }
    case Free(p) =>
      if p != 0 {
        var i :| 0 <= i < |bs| && !bs[i].free && Pointer(base, bs, i) == p && AfterFree(base, bs, p) == Release(bs, i);
        ReleaseNonEmpty(bs, i);
      }
  }

  /** In every run whose requests do not wrap, no block is ever empty. */
  lemma {:induction false} RunNonEmpty(base: nat, bs: seq<Block>, calls: seq<Call>)
    requires NonEmpty(bs) && LegalRun(base, bs, calls)
    requires forall c :: c in calls && c.Malloc? ==> c.n + 15 < WORD
    ensures NonEmpty(Run(base, bs, calls))
    decreases |calls|
  {
    if calls != [] {
      StepNonEmpty(base, bs, calls[0]);
      RunNonEmpty(base, Step(base, bs, calls[0]), calls[1..]);
    }
  }
}
