/** paging_init of kernel/paging.c from its first page to its last map_page, with as many free pages as there
    are: what get_phys_addr and what the processor find afterwards. */
module PageBoot {
  import opened Pmm
  import opened PageTree
  import opened PageMaps
  import opened PageShort
  import opened PageSpaces
  import opened PageInit

  // ----- the root -----

  /** One root page and nothing else. */
  function SingleRoot(root: nat): Layout {
    Layout(root, map[Pml4(root) := root], map[root := Pml4(root)])
  }

  lemma SingleRootIsTree(mem: Memory, root: nat)
    requires root in mem && mem[root] == Zeros() && root != 0 && root % 4096 == 0
    ensures Tree(mem, SingleRoot(root)) && forall v :: Walk(mem, root, v) == 0
  {
    forall i: Index
      ensures EntryOk(mem, SingleRoot(root), Pml4(root), i)
    {
    }
  }

  /** Taking a page nobody uses, and writing to it, disturbs no table. */
  lemma SparePage(s: Phys, l: Layout, content: Page)
    requires Good(s, l) && s.free != {}
    ensures Good(Phys(s.mem[AddrOf(Lowest(s.free)) := content], s.free - {Lowest(s.free)}), l)
  {
    var mem' := s.mem[AddrOf(Lowest(s.free)) := content];
    assert IndexOf(AddrOf(Lowest(s.free))) == Lowest(s.free);
    forall p, i: Index | p in l.tabs && !p.Pt?
      ensures EntryOk(mem', l, p, i)
    {
      assert EntryOk(s.mem, l, p, i);
    }
  }

  /** The root that paging_init makes, before it maps anything. */
  lemma InitialRoot(s: Phys) returns (l: Layout)
    requires Clearable(s.free) != {} && forall n :: n in s.free ==> n < MAX_PAGES && AddrOf(n) in s.mem
    ensures s.free != {}
    ensures var root := AddrOf(Lowest(s.free));
            var s1 := Phys(s.mem[root := Cleared(s.mem, root)], s.free - {Lowest(s.free)});
            && l == SingleRoot(root) && Good(s1, l) && MadeSoFar(l, 0)
            && forall v :: Walk(s1.mem, root, v) == 0
  {
    LowestIsClearable(s.free);
    var root := AddrOf(Lowest(s.free));
    l := SingleRoot(root);
    assert IndexOf(root) == Lowest(s.free);
    SingleRootIsTree(s.mem[root := Cleared(s.mem, root)], root);
  }

  /** Taking a page leaves the pages that can be cleared in front. */
  lemma CleanAfter(free: set<nat>, k: nat)
    requires Clean(free, k + 1) && free != {}
    ensures Clearable(free) != {} && Clean(free - {Lowest(free)}, k)
  {
    LowestIsClearable(free);
    if Clearable(free) == free {
      ClearablePart(free, free - {Lowest(free)});
    }
  }

  // ----- as far as the pages reach -----

  /** How far the loop gets with f free pages: 2 MiB for each page after the first two. */
  function Reach(f: nat): nat {
    if f < 3 then 0 else if f >= 10 then INIT_END else (f - 2) * 0x20_0000
  }

  lemma {:induction false} IdentitySplit(s: Phys, root: nat, addr: nat, mid: nat, end: nat, flags: nat)
    requires addr <= mid <= end && (mid - addr) % 4096 == 0
    ensures Looped(s, root, addr, end, flags) == Looped(Looped(s, root, addr, mid, flags), root, mid, end, flags)
    decreases mid - addr
  {
    if addr < mid {
      assert mid - addr >= 4096 && (mid - (addr + 4096)) % 4096 == 0;
      IdentitySplit(Mapped(s, root, VpnOf(addr), Pte(addr, flags)), root, addr + 4096, mid, end, flags);
    }
  }

  /** A page below a mapped range's end gets its own frame, a page beyond is as before. */
  lemma RangeTranslates(mem: Memory, mem': Memory, root: nat, end: nat, x: nat)
    requires MapsRange(mem, mem', root, 0, end, 3) && end % 4096 == 0 && end <= VIRTUAL_LIMIT && x < VIRTUAL_LIMIT
    ensures Walk(mem', root, VpnOf(x)) == if x < end then Pte(x, 3) else Walk(mem, root, VpnOf(x))
  {
    if x < end {
      PageStart(x, end);
      var a := x - x % 4096;
      LaterStepsDiffer(a, end);
      VpnDecomposition(a, x);
    } else {
      NotTouched(end, x);
    }
  }

  lemma PageStart(x: nat, end: nat)
    requires x < end && end % 4096 == 0
    ensures var a := x - x % 4096; Visited(0, end, a) && a / 4096 == x / 4096 && Pte(a, 3) == Pte(x, 3)
  {
  }

  lemma NotTouched(end: nat, x: nat)
    requires end % 4096 == 0 && end <= x < VIRTUAL_LIMIT
    ensures !Touches(0, end, VpnOf(x))
  {
    forall a: nat | Visited(0, end, a)
      ensures VpnOf(a) != VpnOf(x)
    {
      assert a / 4096 < end / 4096 <= x / 4096;
      DistinctPages(a, x);
    }
  }

  lemma ReachIsAffordable(f: nat)
    requires f >= 2
    ensures var end := Reach(f);
            && end % 0x20_0000 == 0 && end % 4096 == 0 && end <= INIT_END && f >= StillNeeded(0, end)
            && (end < INIT_END ==> f - StillNeeded(0, end) == if end == 0 then 2 else 0)
  {
    ReachIsWhole(f);
    NeededIs(0, 0, Reach(f) / 0x20_0000);
  }

  lemma ReachIsWhole(f: nat)
    ensures Reach(f) % 0x20_0000 == 0 && Reach(f) % 4096 == 0 && Reach(f) <= INIT_END
    ensures Reach(f) / 0x20_0000 == (if f < 3 then 0 else if f >= 10 then 8 else f - 2)
    ensures 0x20_0000 * (Reach(f) / 0x20_0000) == Reach(f)
  {
    var d := if f < 3 then 0 else if f >= 10 then 8 else f - 2;
    assert Reach(f) == 0x20_0000 * d;
    Multiples(d);
  }

  lemma Multiples(d: nat)
    ensures 0x20_0000 * d % 0x20_0000 == 0 && 0x20_0000 * d / 0x20_0000 == d && 0x20_0000 * d % 4096 == 0
  {
    PageMultiple(512 * d);
  }

  lemma PageMultiple(k: nat)
    ensures 4096 * k % 4096 == 0
  {
  }

  /** The loop as far as its pages reach. */
  lemma InitReaches(s: Phys, l: Layout, end: nat) returns (s1: Phys, l1: Layout)
    requires Good(s, l) && MadeSoFar(l, 0) && end % 4096 == 0 && end <= INIT_END
    requires |Clearable(s.free)| >= StillNeeded(0, end)
    ensures Good(s1, l1) && l1.kernel == l.kernel && MadeSoFar(l1, end) && MapsRange(s.mem, s1.mem, l.kernel, 0, end, 3)
    ensures s1.free <= s.free && |Clearable(s1.free)| == |Clearable(s.free)| - StillNeeded(0, end)
    ensures IdentityMapped(s, l.kernel, 0, INIT_END, 3) == IdentityMapped(s1, l.kernel, end, INIT_END, 3)
    ensures 0 in s1.mem <==> 0 in s.mem
  {
    MapKeepsNull(s, l.kernel, 0, end);
    s1, l1 := InitAffordable(s, l, 0, end);
    AffordableRange(s, l, 0, end, 3);
    InitSplit(s, l.kernel, end, s1);
  }

  lemma InitSplit(s: Phys, root: nat, end: nat, s1: Phys)
    requires end % 4096 == 0 && end <= INIT_END && s1 == IdentityMapped(s, root, 0, end, 3)
    ensures IdentityMapped(s, root, 0, INIT_END, 3) == IdentityMapped(s1, root, end, INIT_END, 3)
  {
    IdentitySplit(s, root, 0, end, INIT_END, 3);
  }

  lemma AffordableRange(s: Phys, l: Layout, addr: nat, end: nat, flags: nat)
    requires Good(s, l) && RangeAffordable(s, l.kernel, addr, end, flags)
    ensures MapsRange(s.mem, IdentityMapped(s, l.kernel, addr, end, flags).mem, l.kernel, addr, end, flags)
  {
    var l' := IdentityMaps(s, l, addr, end, flags);
  }

  // ----- from the call that runs out of pages on -----

  /** The regions of 2 MiB that begin in [start, addr). */
  function Regions(start: nat, addr: nat): set<nat> {
    set c: nat | c < 512 && start <= c * 0x20_0000 < addr
  }

  lemma RegionsStep(start: nat, addr: nat)
    requires start % 0x20_0000 == 0 && addr % 4096 == 0 && start <= addr < INIT_END
    ensures Regions(start, addr + 4096) == Regions(start, addr) + {addr / 0x20_0000}
  {
    forall c: nat
      ensures c in Regions(start, addr + 4096) <==> c in Regions(start, addr) || c == addr / 0x20_0000
    {
      NextRegion(addr, c);
      RegionStart(start, addr);
    }
  }

  lemma RegionStart(start: nat, addr: nat)
    requires start % 0x20_0000 == 0 && start <= addr < INIT_END
    ensures start <= addr / 0x20_0000 * 0x20_0000 && addr / 0x20_0000 < 512
  {
    assert start == 0x20_0000 * (start / 0x20_0000);
  }

  /** Page 0 holds the entry for page a. */
  predicate NullHas(mem: Memory, a: nat) {
    Entry(mem, 0, a / 4096 % 512) == Pte(a, 3)
  }

  /** Page 0 holds the last entries written, as many as it has room for. */
  ghost predicate LastEntries(mem: Memory, start: nat, addr: nat) {
    0 in mem ==> forall a: nat :: start <= a < addr <= a + 0x20_0000 && a % 4096 == 0 ==> NullHas(mem, a)
  }

  lemma OtherIndex(a: nat, b: nat)
    requires a % 4096 == 0 && b % 4096 == 0 && a < b < a + 0x20_0000
    ensures a / 4096 % 512 != b / 4096 % 512
  {
    var m, n := a / 4096, b / 4096;
    assert m < n < m + 512;
    OtherRemainder(m, n);
  }

  lemma OtherRemainder(m: nat, n: nat)
    requires m < n < m + 512
    ensures m % 512 != n % 512
  {
  }

  /** The tables are the tree `mem`, but for null links to the regions from start to addr, and page 0 is used as
      the leaf table of all of them. */
  ghost predicate RanOut(s: Phys, mem: Memory, l: Layout, start: nat, addr: nat) {
    && Tree(mem, l) && TablesIn(s.mem, l) && s.free == {} && start % 0x20_0000 == 0
    && Nulled(mem, s.mem, l, Pd(l.kernel, 0, 0), Regions(start, addr)) && LastEntries(s.mem, start, addr)
    && forall c: Index :: start <= c * 0x20_0000 ==> Pt(l.kernel, 0, 0, c) !in l.tabs
  }

  lemma NullHasStep(mem: Memory, mem': Memory, addr: nat, a: nat)
    requires a % 4096 == 0 && addr % 4096 == 0 && ((a < addr < a + 0x20_0000 && NullHas(mem, a)) || a == addr)
    requires forall j: Index :: Entry(mem', 0, j) == if j == addr / 4096 % 512 then Pte(addr, 3) else Entry(mem, 0, j)
    ensures NullHas(mem', a)
  {
    if a < addr {
      OtherIndex(a, addr);
    }
  }

  lemma LastEntriesStep(mem: Memory, mem': Memory, start: nat, addr: nat)
    requires LastEntries(mem, start, addr) && addr % 4096 == 0 && (0 in mem' <==> 0 in mem)
    requires forall j: Index :: Entry(mem', 0, j)
                                == if 0 in mem && j == addr / 4096 % 512 then Pte(addr, 3) else Entry(mem, 0, j)
    ensures LastEntries(mem', start, addr + 4096)
  {
    if 0 in mem {
      forall a: nat | start <= a < addr + 4096 <= a + 0x20_0000 && a % 4096 == 0
        ensures NullHas(mem', a)
      {
        assert a < addr ==> NullHas(mem, a);
        NullHasStep(mem, mem', addr, a);
      }
    }
  }

  lemma RanOutStep(s: Phys, mem: Memory, l: Layout, start: nat, addr: nat)
    requires RanOut(s, mem, l, start, addr) && start <= addr < INIT_END && addr % 4096 == 0
    ensures RanOut(Mapped(s, l.kernel, VpnOf(addr), Pte(addr, 3)), mem, l, start, addr + 4096)
  {
    var d, v := Pd(l.kernel, 0, 0), VpnOf(addr);
    LowVpn(addr);
    RegionStart(start, addr);
    assert Child(d, v.i2) !in l.tabs;
    StarvedCall(s, mem, l, d, Regions(start, addr), v, Pte(addr, 3));
    NullifiedIsNulled(mem, s.mem, l, d, Regions(start, addr), v, Pte(addr, 3));
    RegionsStep(start, addr);
    LastEntriesStep(s.mem, Nullified(s.mem, l.tabs[d], v, Pte(addr, 3)), start, addr);
  }

  lemma {:induction false} RanOutLoop(s: Phys, mem: Memory, l: Layout, start: nat, addr: nat, s': Phys)
    requires RanOut(s, mem, l, start, addr) && start <= addr <= INIT_END && addr % 4096 == 0
    requires s' == Looped(s, l.kernel, addr, INIT_END, 3)
    ensures RanOut(s', mem, l, start, INIT_END)
    decreases INIT_END - addr
  {
    if addr < INIT_END {
      RanOutStep(s, mem, l, start, addr);
      LoopStep(s, l.kernel, addr);
      RanOutLoop(Mapped(s, l.kernel, VpnOf(addr), Pte(addr, 3)), mem, l, start, addr + 4096, s');
    }
  }

  /** The call that runs out of pages. */
  lemma RunsOut(s: Phys, l: Layout, addr: nat) returns (s1: Phys, mem: Memory, l': Layout)
    requires Good(s, l) && addr % 0x20_0000 == 0 && addr < INIT_END && MadeSoFar(l, addr)
    requires Clearable(s.free) == s.free && |s.free| == if addr == 0 then 2 else 0
    ensures s1 == Mapped(s, l.kernel, VpnOf(addr), Pte(addr, 3)) && RanOut(s1, mem, l', addr, addr + 4096)
    ensures SameWalks(s.mem, mem, l) && l'.kernel == l.kernel
  {
    LowVpn(addr);
    mem, l' := ShortOfRegion(s, l, addr);
    s1 := Phys(Nullified(mem, l'.tabs[Pd(l.kernel, 0, 0)], VpnOf(addr), Pte(addr, 3)), {});
    NoneLater(l, l', addr);
    FirstRegion(mem, l', addr);
  }

  lemma ShortOfRegion(s: Phys, l: Layout, addr: nat) returns (mem: Memory, l': Layout)
    requires Good(s, l) && addr % 0x20_0000 == 0 && addr < INIT_END && MadeSoFar(l, addr)
    requires Clearable(s.free) == s.free && |s.free| == if addr == 0 then 2 else 0
    ensures Tree(mem, l') && SameWalks(s.mem, mem, l) && l'.kernel == l.kernel
    ensures GrewTo(l, l', l.kernel, VpnOf(addr)) && Pd(l.kernel, 0, 0) in l'.tabs
    ensures Pt(l.kernel, 0, 0, addr / 0x20_0000 % 512) !in l'.tabs
    ensures Mapped(s, l.kernel, VpnOf(addr), Pte(addr, 3))
            == Phys(Nullified(mem, l'.tabs[Pd(l.kernel, 0, 0)], VpnOf(addr), Pte(addr, 3)), {})
  {
    LowVpn(addr);
    MissingLow(l, addr);
    assert EntryOk(s.mem, l, Pml4(l.kernel), VpnOf(addr).i4);
    mem, l' := OnePageShort(s, l, l.kernel, VpnOf(addr), Pte(addr, 3));
  }

  lemma FirstRegion(mem: Memory, l: Layout, addr: nat)
    requires Tree(mem, l) && addr % 0x20_0000 == 0 && addr < INIT_END && Pd(l.kernel, 0, 0) in l.tabs
    requires forall c: Index :: addr <= c * 0x20_0000 ==> Pt(l.kernel, 0, 0, c) !in l.tabs
    ensures RanOut(Phys(Nullified(mem, l.tabs[Pd(l.kernel, 0, 0)], VpnOf(addr), Pte(addr, 3)), {}),
                   mem, l, addr, addr + 4096)
  {
    RegionIsPage(addr);
    FirstNull(mem, l, addr);
    var mem' := Nullified(mem, l.tabs[Pd(l.kernel, 0, 0)], VpnOf(addr), Pte(addr, 3));
    LastEntriesStep(mem, mem', addr, addr);
  }

  lemma RegionIsPage(addr: nat)
    requires addr % 0x20_0000 == 0
    ensures addr % 4096 == 0
  {
    assert addr == 0x20_0000 * (addr / 0x20_0000);
    PageMultiple(512 * (addr / 0x20_0000));
  }

  lemma FirstNull(mem: Memory, l: Layout, addr: nat)
    requires Tree(mem, l) && addr % 0x20_0000 == 0 && addr % 4096 == 0 && addr < INIT_END
    requires Pd(l.kernel, 0, 0) in l.tabs
    requires forall c: Index :: addr <= c * 0x20_0000 ==> Pt(l.kernel, 0, 0, c) !in l.tabs
    ensures var mem' := Nullified(mem, l.tabs[Pd(l.kernel, 0, 0)], VpnOf(addr), Pte(addr, 3));
            && Nulled(mem, mem', l, Pd(l.kernel, 0, 0), Regions(addr, addr + 4096)) && TablesIn(mem', l)
            && forall j: Index :: Entry(mem', 0, j)
                                  == if 0 in mem && j == addr / 4096 % 512 then Pte(addr, 3) else Entry(mem, 0, j)
  {
    var d, v, e := Pd(l.kernel, 0, 0), VpnOf(addr), Pte(addr, 3);
    LowVpn(addr);
    RegionStart(addr, addr);
    assert forall p, i: Index :: p in l.tabs ==> NulledEntry(mem, mem, l, d, {}, p, i);
    NullifiedIsNulled(mem, mem, l, d, {}, v, e);
    OneRegion(addr);
  }

  lemma OneRegion(addr: nat)
    requires addr % 0x20_0000 == 0 && addr % 4096 == 0 && addr < INIT_END
    ensures Regions(addr, addr + 4096) == {} + {addr / 0x20_0000}
  {
    RegionsStep(addr, addr);
    assert Regions(addr, addr) == {};
  }

  lemma NoneLater(l: Layout, l': Layout, addr: nat)
    requires MadeSoFar(l, addr) && addr % 0x20_0000 == 0 && addr < INIT_END
    requires GrewTo(l, l', l.kernel, VpnOf(addr)) && Pt(l.kernel, 0, 0, addr / 0x20_0000) !in l'.tabs
    ensures forall c: Index :: addr <= c * 0x20_0000 ==> Pt(l.kernel, 0, 0, c) !in l'.tabs
  {
    LowVpn(addr);
  }

  // ----- the outcome -----

  /** What the processor finds at x when the pages reach to `end`: beyond it, page 0 with the entries for the last
      2 MiB of the range. */
  function CpuFinds(mem: Memory, end: nat, x: nat): nat {
    if x >= INIT_END then 0
    else if x < end then Pte(x, 3)
    else BeyondReach(mem, x)
  }

  /** x lies in one of the regions from start on. */
  lemma InRegions(start: nat, x: nat)
    requires start % 0x20_0000 == 0 && x < VIRTUAL_LIMIT
    ensures VpnOf(x).i4 == 0 && VpnOf(x).i3 == 0 && VpnOf(x).i2 in Regions(start, INIT_END) <==> start <= x < INIT_END
  {
    if x < INIT_END {
      LowVpn(x);
      RegionOf(start, x);
    } else {
      HighVpn(x);
    }
  }

  lemma RegionOf(start: nat, x: nat)
    requires start % 0x20_0000 == 0 && x < INIT_END
    ensures start <= x / 0x20_0000 * 0x20_0000 < INIT_END <==> start <= x
  {
    var q, p := start / 0x20_0000, x / 0x20_0000;
    assert start == 0x20_0000 * q && 0x20_0000 * p <= x < 0x20_0000 * p + 0x20_0000;
  }

  lemma HighVpn(x: nat)
    requires INIT_END <= x < VIRTUAL_LIMIT
    ensures VpnOf(x).i4 == 0 && VpnOf(x).i3 == 0 ==> VpnOf(x).i2 >= 8
  {
    assert x / 0x80_0000_0000 < 512;
    if x < 0x4000_0000 {
      assert x / 0x20_0000 < 512;
    } else if x < 0x80_0000_0000 {
      assert 0 < x / 0x4000_0000 < 512;
    } else {
      assert x / 0x80_0000_0000 > 0;
    }
  }

  /** The last 512 entries, read for any address. */
  lemma LastRegion(mem: Memory, start: nat, x: nat)
    requires LastEntries(mem, start, INIT_END) && start % 0x20_0000 == 0 && start < INIT_END && 0 in mem
    ensures Entry(mem, 0, VpnOf(x).i1) == Pte(INIT_END - 0x20_0000 + x % 0x20_0000, 3)
  {
    var q, r := x / 0x20_0000, x % 0x20_0000;
    var a := 0x20_0000 * 7 + 4096 * (r / 4096);
    RegionStart(start, INIT_END - 1);
    InLastRegion(r);
    assert NullHas(mem, a);
    PageInRegion(q, r);
    SamePte(a, r % 4096);
  }

  lemma InLastRegion(r: nat)
    requires r < 0x20_0000
    ensures var a := 0x20_0000 * 7 + 4096 * (r / 4096);
            INIT_END - 0x20_0000 <= a < INIT_END && a % 4096 == 0 && a / 4096 % 512 == r / 4096
  {
  }

  lemma SamePte(a: nat, o: nat)
    requires a % 4096 == 0 && o < 4096
    ensures Pte(a + o, 3) == Pte(a, 3)
  {
  }

  lemma PageInRegion(q: nat, r: nat)
    requires r < 0x20_0000
    ensures (0x20_0000 * q + r) / 4096 % 512 == r / 4096
  {
    var n := (0x20_0000 * q + r) / 4096;
    assert n == 512 * q + r / 4096;
  }

  /** From where the pages ran out: get_phys_addr finds what the tree has, the processor uses page 0 beyond. */
  lemma RanOutWalks(s: Phys, mem: Memory, l: Layout, start: nat, x: nat)
    requires RanOut(s, mem, l, start, INIT_END) && start < INIT_END && x < VIRTUAL_LIMIT
    ensures Walk(s.mem, l.kernel, VpnOf(x)) == Walk(mem, l.kernel, VpnOf(x))
    ensures PresentWalk(s.mem, l.kernel, VpnOf(x))
            == if start <= x < INIT_END then BeyondReach(s.mem, x) else Walk(mem, l.kernel, VpnOf(x))
  {
    var d := Pd(l.kernel, 0, 0);
    assert Parent(d) == Pdpt(l.kernel, 0);
    NulledWalks(mem, s.mem, l, d, Regions(start, INIT_END), l.kernel, VpnOf(x));
    InRegions(start, x);
    if 0 in s.mem {
      LastRegion(s.mem, start, x);
    }
  }

  lemma {:induction false} MapKeepsNull(s: Phys, root: nat, addr: nat, end: nat)
    ensures 0 in IdentityMapped(s, root, addr, end, 3).mem <==> 0 in s.mem
    decreases end - addr
  {
    if addr < end {
      PathKeepsNull(s, root, Route(VpnOf(addr)));
      MapKeepsNull(Mapped(s, root, VpnOf(addr), Pte(addr, 3)), root, addr + 4096, end);
    }
  }

  /** No page comes into being at address 0. */
  lemma {:induction false} PathKeepsNull(s: Phys, t: nat, route: seq<Index>)
    ensures 0 in Path(s, t, route).0.mem <==> 0 in s.mem
    decreases |route|
  {
    if route != [] {
      var s1 := Ensured(s, t, route[0]);
      PathKeepsNull(s1, Next(s1.mem, t, route[0]), route[1..]);
    }
  }

  /** What the processor finds in a region without a leaf table. */
  function BeyondReach(mem: Memory, x: nat): nat {
    if 0 in mem then Pte(INIT_END - 0x20_0000 + x % 0x20_0000, 3) else 0
  }

  /** The rest of the loop, from the call that runs out of pages on. */
  lemma RestStarves(s: Phys, l: Layout, start: nat, s': Phys, x: nat)
    requires Good(s, l) && start % 0x20_0000 == 0 && start < INIT_END && MadeSoFar(l, start) && x < VIRTUAL_LIMIT
    requires Clearable(s.free) == s.free && |s.free| == if start == 0 then 2 else 0
    requires s' == IdentityMapped(s, l.kernel, start, INIT_END, 3)
    ensures Walk(s'.mem, l.kernel, VpnOf(x)) == Walk(s.mem, l.kernel, VpnOf(x))
    ensures PresentWalk(s'.mem, l.kernel, VpnOf(x))
            == if start <= x < INIT_END then BeyondReach(s.mem, x) else Walk(s.mem, l.kernel, VpnOf(x))
  {
    MapKeepsNull(s, l.kernel, start, INIT_END);
    var mem, l' := RestRunsOut(s, l, start, s');
    RanOutWalks(s', mem, l', start, x);
    assert Pml4(l.kernel) in l.tabs;
  }

  lemma RestRunsOut(s: Phys, l: Layout, start: nat, s': Phys) returns (mem: Memory, l': Layout)
    requires Good(s, l) && start % 0x20_0000 == 0 && start < INIT_END && MadeSoFar(l, start)
    requires Clearable(s.free) == s.free && |s.free| == if start == 0 then 2 else 0
    requires s' == Looped(s, l.kernel, start, INIT_END, 3)
    ensures RanOut(s', mem, l', start, INIT_END) && SameWalks(s.mem, mem, l) && l'.kernel == l.kernel
  {
    var s1;
    s1, mem, l' := RunsOut(s, l, start);
    LoopStep(s, l.kernel, start);
    StartOfLoop(start);
    RanOutLoop(s1, mem, l', start, start + 4096, s');
  }

  lemma StartOfLoop(start: nat)
    requires start % 0x20_0000 == 0 && start < INIT_END
    ensures (start + 4096) % 4096 == 0 && start + 4096 <= INIT_END
  {
    var q := start / 0x20_0000;
    assert start == 0x20_0000 * q && q < 8;
    PageMultiple(512 * q + 1);
  }

  lemma LoopStep(s: Phys, root: nat, addr: nat)
    requires addr < INIT_END
    ensures Looped(s, root, addr, INIT_END, 3)
         == Looped(Mapped(s, root, VpnOf(addr), Pte(addr, 3)), root, addr + 4096, INIT_END, 3)
  {
  }

  /** The identity loop with f >= 2 free pages. get_phys_addr finds what lies below Reach(f) mapped to itself, and
      nothing else. The processor finds the rest of the range mapped too, all of it to the last 2 MiB. */
  lemma InitOutcome(s: Phys, l: Layout, s': Phys, x: nat)
    requires Good(s, l) && MadeSoFar(l, 0) && |s.free| >= 2 && Clean(s.free, 10) && x < VIRTUAL_LIMIT
    requires (forall v :: Walk(s.mem, l.kernel, v) == 0) && s' == IdentityMapped(s, l.kernel, 0, INIT_END, 3)
    ensures Walk(s'.mem, l.kernel, VpnOf(x)) == if x < Reach(|s.free|) then Pte(x, 3) else 0
    ensures PresentWalk(s'.mem, l.kernel, VpnOf(x)) == CpuFinds(s.mem, Reach(|s.free|), x)
  {
    var end := Reach(|s.free|);
    EnoughForReach(s.free);
    var s1, l1 := InitReaches(s, l, end);
    LeftAtReach(s.free, s1.free, end);
    RangeTranslates(s.mem, s1.mem, l.kernel, end, x);
    if end < INIT_END {
      RestStarves(s1, l1, end, s', x);
    } else {
      WalkReadsLeaf(s1.mem, l1, l.kernel, VpnOf(x));
    }
  }

  lemma EnoughForReach(free: set<nat>)
    requires |free| >= 2 && Clean(free, 10)
    ensures var end := Reach(|free|);
            && end % 0x20_0000 == 0 && end % 4096 == 0 && end <= INIT_END && |Clearable(free)| >= StillNeeded(0, end)
  {
    ClearableIsPart(free);
    ReachIsAffordable(|free|);
    if |Clearable(free)| >= 10 {
      NeededIs(0, 0, 8);
    }
  }

  lemma LeftAtReach(free: set<nat>, free': set<nat>, end: nat)
    requires |free| >= 2 && Clean(free, 10) && end == Reach(|free|) && free' <= free
    requires |Clearable(free')| == |Clearable(free)| - StillNeeded(0, end)
    ensures end < INIT_END ==> Clearable(free') == free' && |free'| == if end == 0 then 2 else 0
  {
    ClearableIsPart(free);
    ReachIsAffordable(|free|);
    if end < INIT_END {
      ClearablePart(free, free');
    }
  }

  /** The same by the number of pages: address x is mapped exactly when there are at least as many as the
      tables up to it take. */
  lemma ReachByPages(f: nat, x: nat)
    ensures x < Reach(f) <==> x < INIT_END && f >= 3 + x / 0x20_0000
  {
  }

  /** What paging_init leaves at x when k pages were free: the first for the root, the second for the trial copy. */
  ghost predicate Booted(mem0: Memory, mem: Memory, root: nat, k: nat, x: nat) {
    var reached := x < INIT_END && k >= 5 + x / 0x20_0000;
    && Walk(mem, root, VpnOf(x)) == (if reached then Pte(x, 3) else 0)
    && PresentWalk(mem, root, VpnOf(x))
       == if reached then Pte(x, 3) else if x < INIT_END then BeyondReach(mem0, x) else 0
  }

  lemma CleanForBoot(free: set<nat>)
    requires |free| >= 4 && Clean(free, 12)
    ensures Clearable(free) != {}
    ensures var free1 := free - {Lowest(free)};
            && free1 != {}
            && var free2 := free1 - {Lowest(free1)};
               && |free2| == |free| - 2 && Clean(free2, 10)
               && (|Clearable(free)| >= 12 ==> |Clearable(free2)| >= 10)
  {
    CleanAfter(free, 11);
    LowestIsClearable(free);
    var free1 := free - {Lowest(free)};
    assert |free1| == |free| - 1;
    CleanAfter(free1, 10);
    LowestIsClearable(free1);
  }

  /** With eleven pages, one too few, the processor still finds all of the range mapped to itself. */
  lemma ElevenPages(mem0: Memory, mem: Memory, root: nat, x: nat)
    requires Booted(mem0, mem, root, 11, x) && x < INIT_END && 0 in mem0
    ensures PresentWalk(mem, root, VpnOf(x)) == Pte(x, 3)
    ensures Walk(mem, root, VpnOf(x)) == Pte(x, 3) <==> x < INIT_END - 0x20_0000
  {
  }

  // ----- inputs on which map_page does not do its work -----

  /** An empty root, a blank page 0, and no free page: three pages short. Whatever is mapped, get_phys_addr does
      not find it. The processor does, unless its last index is one of the two before. */
  lemma StarvesExample(v: Vpn, phys: nat, flags: nat)
    ensures var root, e := AddrOf(0), Pte(phys, flags);
            var s := Phys(map[root := Zeros(), 0 := Zeros()], {});
            && Good(s, SingleRoot(root)) && Needs(s.mem, root, Route(v)) == 3
            && Walk(Mapped(s, root, v, e).mem, root, v) == 0
            && (v.i1 != v.i2 && v.i1 != v.i3 ==> PresentWalk(Mapped(s, root, v, e).mem, root, v) == e)
            && !Tree(Mapped(s, root, v, e).mem, SingleRoot(root))
  {
    var root := AddrOf(0);
    var s := Phys(map[root := Zeros(), 0 := Zeros()], {});
    SingleRootIsTree(s.mem, root);
    InertPageZero(s, SingleRoot(root));
    MapStarves(s, SingleRoot(root), root, v, Pte(phys, flags), {0});
    PteRoundTrip(phys, flags);
    ShortOutcome(s, SingleRoot(root), root, v, Pte(phys, flags));
  }

  /** A root, a directory pointer table and a directory; and a page at 512 MiB that is not blank. */
  function ExampleMemory(): Memory {
    map[AddrOf(0) := Zeros()[0 := Link(AddrOf(1))], AddrOf(1) := Zeros()[0 := Link(AddrOf(2))],
        AddrOf(2) := Zeros(), CLEAR_LIMIT := seq(512, _ => 7)]
  }

  function ExampleLayout(): Layout {
    var root := AddrOf(0);
    Layout(root,
           map[Pml4(root) := root, Pdpt(root, 0) := AddrOf(1), Pd(root, 0, 0) := AddrOf(2)],
           map[root := Pml4(root), AddrOf(1) := Pdpt(root, 0), AddrOf(2) := Pd(root, 0, 0)])
  }

  lemma ExampleTable(p: Place)
    requires p in ExampleLayout().tabs
    ensures var l := ExampleLayout();
            && l.tabs[p] in l.at && l.at[l.tabs[p]] == p && l.tabs[p] in ExampleMemory()
            && l.tabs[p] != 0 && l.tabs[p] % 4096 == 0
  {
  }

  lemma ExampleAddress(a: nat)
    requires a in ExampleLayout().at
    ensures ExampleLayout().at[a] in ExampleLayout().tabs && ExampleLayout().tabs[ExampleLayout().at[a]] == a
  {
  }

  lemma ExampleEntry(p: Place, i: Index)
    requires p in ExampleLayout().tabs && !p.Pt?
    ensures EntryOk(ExampleMemory(), ExampleLayout(), p, i)
  {
  }

  lemma ExampleIsRooted()
    ensures Rooted(ExampleLayout())
  {
  }

  lemma ExampleIsTree()
    ensures Tree(ExampleMemory(), ExampleLayout())
  {
    var mem, l := ExampleMemory(), ExampleLayout();
    ExampleIsRooted();
    forall p | p in l.tabs
      ensures l.tabs[p] in l.at && l.at[l.tabs[p]] == p && l.tabs[p] in mem && l.tabs[p] != 0 && l.tabs[p] % 4096 == 0
    {
      ExampleTable(p);
    }
    forall a | a in l.at
      ensures l.at[a] in l.tabs && l.tabs[l.at[a]] == a
    {
      ExampleAddress(a);
    }
    forall p, i: Index | p in l.tabs && !p.Pt?
      ensures EntryOk(mem, l, p, i)
    {
      ExampleEntry(p, i);
    }
  }

  lemma ExamplePage()
    ensures Managed(CLEAR_LIMIT) && AddrOf(IndexOf(CLEAR_LIMIT)) == CLEAR_LIMIT && CLEAR_LIMIT !in ExampleLayout().at
    ensures Lowest({IndexOf(CLEAR_LIMIT)}) == IndexOf(CLEAR_LIMIT) && Cleared(ExampleMemory(), CLEAR_LIMIT)[1] == 7
    ensures Pd(AddrOf(0), 0, 0) in ExampleLayout().tabs && Pt(AddrOf(0), 0, 0, 0) !in ExampleLayout().tabs
  {
  }

  /** If the allocator's only page is one that memset does not reach, mapping page 0 also makes
      page 1 translate, to what that memory happened to hold. */
  lemma DirtyExample(e: nat)
    ensures var s, root := Phys(ExampleMemory(), {IndexOf(CLEAR_LIMIT)}), AddrOf(0);
            && Tree(s.mem, ExampleLayout()) && Managed(CLEAR_LIMIT) && AddrOf(IndexOf(CLEAR_LIMIT)) == CLEAR_LIMIT
            && Walk(s.mem, root, Vpn(0, 0, 0, 1)) == 0
            && Walk(Mapped(s, root, Vpn(0, 0, 0, 0), e).mem, root, Vpn(0, 0, 0, 1)) == 7
  {
    var s := Phys(ExampleMemory(), {IndexOf(CLEAR_LIMIT)});
    ExampleIsTree();
    ExamplePage();
    NewLeafWalk(s, ExampleLayout(), AddrOf(0), Vpn(0, 0, 0, 0), e, AddrOf(0), Vpn(0, 0, 0, 1));
    WalkReadsLeaf(s.mem, ExampleLayout(), AddrOf(0), Vpn(0, 0, 0, 1));
  }
}
