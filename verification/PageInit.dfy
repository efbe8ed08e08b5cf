/** Identity maps of kernel/paging.c: the loop of paging_init and map_mmio. */
module PageInit {
  import opened Pmm
  import opened PageTree
  import opened PageMaps
  import opened PageSpaces

  // ----- identity maps: paging_init's loop and map_mmio -----

  /** map_page(addr, addr, flags) for addr, addr + 4096, ... below `end`. */
  ghost function IdentityMapped(s: Phys, root: nat, addr: nat, end: nat, flags: nat): Phys
    decreases end - addr
  {
    if addr >= end then s
    else IdentityMapped(Mapped(s, root, VpnOf(addr), Pte(addr, flags)), root, addr + 4096, end, flags)
  }

  /** The same, for proofs that need no look inside. */
  ghost function Looped(s: Phys, root: nat, addr: nat, end: nat, flags: nat): Phys {
    IdentityMapped(s, root, addr, end, flags)
  }

  ghost predicate RangeAffordable(s: Phys, root: nat, addr: nat, end: nat, flags: nat)
    decreases end - addr
  {
    addr >= end
    || (&& |Clearable(s.free)| >= Needs(s.mem, root, Route(VpnOf(addr)))
        && RangeAffordable(Mapped(s, root, VpnOf(addr), Pte(addr, flags)), root, addr + 4096, end, flags))
  }

  /** The addresses such a loop visits. */
  predicate Visited(start: nat, end: nat, a: nat) {
    start <= a < end && (a - start) % 4096 == 0
  }

  ghost predicate Touches(start: nat, end: nat, w: Vpn) {
    exists a: nat :: Visited(start, end, a) && VpnOf(a) == w
  }

  const VIRTUAL_LIMIT: nat := 0x1_0000_0000_0000

  lemma DistinctPages(a: nat, b: nat)
    requires a < VIRTUAL_LIMIT && b < VIRTUAL_LIMIT && a / 4096 != b / 4096
    ensures VpnOf(a) != VpnOf(b)
  {
    VpnDecomposition(a, b);
    SmallPage(a);
    SmallPage(b);
  }

  lemma SmallPage(a: nat)
    requires a < VIRTUAL_LIMIT
    ensures a / 4096 % 0x10_0000_0000 == a / 4096
  {
  }

  /** Below the end of the virtual space no later step comes back to a page. */
  lemma LaterStepsDiffer(start: nat, end: nat)
    requires start < end <= VIRTUAL_LIMIT
    ensures !Touches(start + 4096, end, VpnOf(start))
  {
    forall a: nat | Visited(start + 4096, end, a)
      ensures VpnOf(a) != VpnOf(start)
    {
      DistinctPages(a, start);
    }
  }

  lemma VisitedFirst(start: nat, end: nat, a: nat)
    requires start < end
    ensures Visited(start, end, a) <==> a == start || Visited(start + 4096, end, a)
  {
  }

  /** `mem'` maps the page of addr to itself and is otherwise as `mem`. */
  ghost predicate MapsOne(mem: Memory, mem': Memory, root: nat, addr: nat, flags: nat) {
    forall w :: Walk(mem', root, w) == if w == VpnOf(addr) then Pte(addr, flags) else Walk(mem, root, w)
  }

  lemma IdentityStep(s: Phys, l: Layout, addr: nat, flags: nat) returns (l': Layout)
    requires Good(s, l) && |Clearable(s.free)| >= Needs(s.mem, l.kernel, Route(VpnOf(addr)))
    ensures var s' := Mapped(s, l.kernel, VpnOf(addr), Pte(addr, flags));
            Good(s', l') && l'.kernel == l.kernel && MapsOne(s.mem, s'.mem, l.kernel, addr, flags)
  {
    l' := MapInstalls(s, l, l.kernel, VpnOf(addr), Pte(addr, flags));
  }

  /** `mem'` maps every visited page to itself, where addresses beyond the virtual space wrap around to the last
      of the visited ones, and is otherwise as `mem`. */
  ghost predicate MapsRange(mem: Memory, mem': Memory, root: nat, addr: nat, end: nat, flags: nat) {
    && (forall a: nat :: Visited(addr, end, a) && !Touches(a + 4096, end, VpnOf(a)) ==>
          Walk(mem', root, VpnOf(a)) == Pte(a, flags))
    && (forall w :: !Touches(addr, end, w) ==> Walk(mem', root, w) == Walk(mem, root, w))
  }

  lemma MapsRangeStep(mem: Memory, mem1: Memory, mem': Memory, root: nat, addr: nat, end: nat, flags: nat)
    requires addr < end && MapsRange(mem1, mem', root, addr + 4096, end, flags)
    requires MapsOne(mem, mem1, root, addr, flags)
    ensures MapsRange(mem, mem', root, addr, end, flags)
  {
    forall a: nat | Visited(addr, end, a) && !Touches(a + 4096, end, VpnOf(a))
      ensures Walk(mem', root, VpnOf(a)) == Pte(a, flags)
    {
      VisitedFirst(addr, end, a);
    }
    forall w | !Touches(addr, end, w)
      ensures Walk(mem', root, w) == Walk(mem, root, w)
    {
      assert Visited(addr, end, addr);
      forall a: nat | Visited(addr + 4096, end, a)
        ensures VpnOf(a) != w
      {
        VisitedFirst(addr, end, a);
      }
    }
  }

  /** Every iteration of the loop maps its page and nothing else. */
  ghost predicate EachMapsOne(s: Phys, root: nat, addr: nat, end: nat, flags: nat)
    decreases end - addr
  {
    addr < end ==>
      var s1 := Mapped(s, root, VpnOf(addr), Pte(addr, flags));
      MapsOne(s.mem, s1.mem, root, addr, flags) && EachMapsOne(s1, root, addr + 4096, end, flags)
  }

  lemma {:induction false} IdentityGood(s: Phys, l: Layout, addr: nat, end: nat, flags: nat) returns (l': Layout)
    requires Good(s, l) && RangeAffordable(s, l.kernel, addr, end, flags)
    ensures Good(IdentityMapped(s, l.kernel, addr, end, flags), l') && l'.kernel == l.kernel
    ensures EachMapsOne(s, l.kernel, addr, end, flags)
    decreases end - addr
  {
    if addr >= end {
      l' := l;
    } else {
      var s1 := Unrolled(s, l.kernel, addr, end, flags);
      var l1 := IdentityStep(s, l, addr, flags);
      l' := IdentityGood(s1, l1, addr + 4096, end, flags);
    }
  }

  lemma RangeFromStep(s: Phys, s1: Phys, root: nat, addr: nat, end: nat, flags: nat)
    requires addr < end && MapsOne(s.mem, s1.mem, root, addr, flags)
    requires IdentityMapped(s, root, addr, end, flags) == IdentityMapped(s1, root, addr + 4096, end, flags)
    requires MapsRange(s1.mem, IdentityMapped(s1, root, addr + 4096, end, flags).mem, root, addr + 4096, end, flags)
    ensures MapsRange(s.mem, IdentityMapped(s, root, addr, end, flags).mem, root, addr, end, flags)
  {
    MapsRangeStep(s.mem, s1.mem, IdentityMapped(s1, root, addr + 4096, end, flags).mem, root, addr, end, flags);
  }

  lemma {:induction false} IdentityRange(s: Phys, root: nat, addr: nat, end: nat, flags: nat)
    requires EachMapsOne(s, root, addr, end, flags)
    ensures MapsRange(s.mem, IdentityMapped(s, root, addr, end, flags).mem, root, addr, end, flags)
    decreases end - addr
  {
    if addr >= end {
      NothingMapped(s, root, addr, end, flags);
    } else {
      var s1 := Mapped(s, root, VpnOf(addr), Pte(addr, flags));
      IdentityRange(s1, root, addr + 4096, end, flags);
      RangeFromStep(s, s1, root, addr, end, flags);
    }
  }

  /** In the kernel's root the loop maps every visited page to itself and leaves all others alone. */
  lemma IdentityMaps(s: Phys, l: Layout, addr: nat, end: nat, flags: nat) returns (l': Layout)
    requires Good(s, l) && RangeAffordable(s, l.kernel, addr, end, flags)
    ensures Good(IdentityMapped(s, l.kernel, addr, end, flags), l') && l'.kernel == l.kernel
    ensures MapsRange(s.mem, IdentityMapped(s, l.kernel, addr, end, flags).mem, l.kernel, addr, end, flags)
  {
    l' := IdentityGood(s, l, addr, end, flags);
    IdentityRange(s, l.kernel, addr, end, flags);
  }

  lemma Unrolled(s: Phys, root: nat, addr: nat, end: nat, flags: nat) returns (s1: Phys)
    requires addr < end && RangeAffordable(s, root, addr, end, flags)
    ensures s1 == Mapped(s, root, VpnOf(addr), Pte(addr, flags))
    ensures |Clearable(s.free)| >= Needs(s.mem, root, Route(VpnOf(addr)))
    ensures IdentityMapped(s, root, addr, end, flags) == IdentityMapped(s1, root, addr + 4096, end, flags)
    ensures RangeAffordable(s1, root, addr + 4096, end, flags)
  {
    s1 := Mapped(s, root, VpnOf(addr), Pte(addr, flags));
  }

  lemma NothingMapped(s: Phys, root: nat, addr: nat, end: nat, flags: nat)
    requires addr >= end
    ensures IdentityMapped(s, root, addr, end, flags) == s && MapsRange(s.mem, s.mem, root, addr, end, flags)
  {
  }

  /** A page that contains a visited address translates to itself, byte by byte. */
  lemma SamePageTranslates(mem: Memory, root: nat, a: nat, x: nat, flags: nat)
    requires a / 4096 == x / 4096 && Walk(mem, root, VpnOf(a)) == Pte(a, flags)
    ensures PhysAddr(mem, root, x) == x
  {
    VpnDecomposition(a, x);
    PteRoundTrip(a, flags);
  }

  /** Where get_phys_addr finds an entry for a frame, it answers the frame's address plus the offset; where it finds
      none, null. */
  lemma AnswerIsFrame(mem: Memory, root: nat, x: nat, phys: nat, flags: nat)
    ensures Walk(mem, root, VpnOf(x)) == Pte(phys, flags) ==>
              PhysAddr(mem, root, x) == phys - phys % 4096 + x % 4096
    ensures Walk(mem, root, VpnOf(x)) % 2 == 0 ==> PhysAddr(mem, root, x) == 0
  {
    PteRoundTrip(phys, flags);
  }

  lemma PteRoundTrip(phys: nat, flags: nat)
    ensures Present(Pte(phys, flags)) && Base(Pte(phys, flags)) == Base(phys)
  {
    var f := flags % 4096;
    OddLowBits(phys / 4096, if Present(f) then f else f + 1);
  }

  lemma OddLowBits(frame: nat, low: nat)
    requires low < 4096 && low % 2 == 1
    ensures Present(4096 * frame + low) && Base(4096 * frame + low) == 4096 * frame
  {
    LowPart(frame, low, 4096);
    LowPart(2048 * frame + low / 2, 1, 2);
  }

  lemma LowPart(q: nat, r: nat, d: nat)
    requires r < d && (d == 2 || d == 4096)
    ensures (d * q + r) % d == r
  {
  }

  /** The byte lies on a visited page. */
  ghost predicate OnVisitedPage(start: nat, size: nat, x: nat) {
    exists a: nat :: Visited(start, start + size, a) && a / 4096 == x / 4096
  }

  /** Every byte of [start, start + size) does. */
  ghost predicate Covers(start: nat, size: nat) {
    forall x: nat :: start <= x < start + size ==> OnVisitedPage(start, size, x)
  }

  /** map_mmio covers the range it is asked for exactly when the last byte's offset does not wrap past
      the first byte's: always for a page-aligned start, not always otherwise. */
  lemma CoversIff(start: nat, size: nat)
    ensures Covers(start, size) <==> size == 0 || start % 4096 + (size - 1) % 4096 < 4096
  {
    if size > 0 && start % 4096 + (size - 1) % 4096 >= 4096 {
      var x := start + size - 1;
      forall a: nat | Visited(start, start + size, a)
        ensures a / 4096 != x / 4096
      {
        LastStep(start, size, a);
      }
      assert !OnVisitedPage(start, size, x);
    } else if size > 0 {
      forall x: nat | start <= x < start + size
        ensures OnVisitedPage(start, size, x)
      {
        var a := StepFor(start, size, x);
      }
    }
  }

  lemma LastStep(start: nat, size: nat, a: nat)
    requires size > 0 && Visited(start, start + size, a) && start % 4096 + (size - 1) % 4096 >= 4096
    ensures a / 4096 < (start + size - 1) / 4096
  {
    var k, m := (a - start) / 4096, (size - 1) / 4096;
    assert a == start + 4096 * k && k <= m;
    assert start + size - 1 == 4096 * (start / 4096 + m) + (start % 4096 + (size - 1) % 4096);
  }

  lemma StepFor(start: nat, size: nat, x: nat) returns (a: nat)
    requires size > 0 && start <= x < start + size && start % 4096 + (size - 1) % 4096 < 4096
    ensures Visited(start, start + size, a) && a / 4096 == x / 4096
  {
    var k := x / 4096 - start / 4096;
    a := start + 4096 * k;
    var m := (size - 1) / 4096;
    assert start + size - 1 == 4096 * (start / 4096 + m) + (start % 4096 + (size - 1) % 4096);
    assert k <= m;
    assert 4096 * k <= 4096 * m <= size - 1;
    assert a == 4096 * (x / 4096) + start % 4096;
  }

  /** map_mmio maps every byte of its range to itself exactly when no offset wraps; otherwise the
      page of the last byte keeps whatever translation it had. */
  lemma MmioReachesItsRange(mem: Memory, mem': Memory, root: nat, start: nat, size: nat, flags: nat)
    requires MapsRange(mem, mem', root, start, start + size, flags) && 0 < size && start + size <= VIRTUAL_LIMIT
    ensures start % 4096 + (size - 1) % 4096 < 4096 ==>
              forall x: nat :: start <= x < start + size ==> PhysAddr(mem', root, x) == x
    ensures start % 4096 + (size - 1) % 4096 >= 4096 ==>
              Walk(mem', root, VpnOf(start + size - 1)) == Walk(mem, root, VpnOf(start + size - 1))
  {
    if start % 4096 + (size - 1) % 4096 < 4096 {
      forall x: nat | start <= x < start + size
        ensures PhysAddr(mem', root, x) == x
      {
        var a := StepFor(start, size, x);
        LaterStepsDiffer(a, start + size);
        SamePageTranslates(mem', root, a, x, flags);
      }
    } else {
      MissedPage(start, size);
    }
  }

  /** An unaligned register bank of one page's size. */
  lemma MissedExample()
    ensures !Covers(1, 4096)
  {
    CoversIff(1, 4096);
  }

  lemma MissedPage(start: nat, size: nat)
    requires 0 < size && start + size <= VIRTUAL_LIMIT && start % 4096 + (size - 1) % 4096 >= 4096
    ensures !Touches(start, start + size, VpnOf(start + size - 1))
  {
    forall a: nat | Visited(start, start + size, a)
      ensures VpnOf(a) != VpnOf(start + size - 1)
    {
      LastStep(start, size, a);
      DistinctPages(a, start + size - 1);
    }
  }

  // ----- paging_init -----

  const INIT_END: nat := 0x1000000

  /** Tables that map_page has to make for address addr of the identity loop: all three at the start, and one at
      the start of each further 2 MiB. */
  function NewTables(addr: nat): nat {
    if addr == 0 then 3 else if addr % 0x20_0000 == 0 then 1 else 0
  }

  function StillNeeded(addr: nat, end: nat): nat
    decreases end - addr
  {
    if addr >= end then 0 else NewTables(addr) + StillNeeded(addr + 4096, end)
  }

  /** Up to a multiple of 2 MiB: one per 2 MiB, and two at the start. Address 2 MiB * q + 4 KiB * r. */
  lemma {:induction false} NeededIs(q: nat, r: nat, e: nat)
    requires r < 512 && (q < e || (q == e && r == 0))
    ensures StillNeeded(0x20_0000 * q + 4096 * r, 0x20_0000 * e)
         == (if q == r == 0 < e then 2 else 0) + e - q - (if r > 0 then 1 else 0)
    decreases e - q, 512 - r
  {
    if q < e {
      var addr := 0x20_0000 * q + 4096 * r;
      InRegion(q, r);
      if r < 511 {
        NeededIs(q, r + 1, e);
        assert 0x20_0000 * q + 4096 * (r + 1) == addr + 4096;
      } else {
        NeededIs(q + 1, 0, e);
        assert 0x20_0000 * (q + 1) + 4096 * 0 == addr + 4096;
      }
    }
  }

  lemma InRegion(q: nat, r: nat)
    requires r < 512
    ensures (0x20_0000 * q + 4096 * r) % 0x20_0000 == 4096 * r
  {
  }

  /** The tables below 16 MiB are those that the loop has made before addr. */
  ghost predicate MadeSoFar(l: Layout, addr: nat) {
    && (forall c: Index :: Pt(l.kernel, 0, 0, c) in l.tabs <==> c * 0x20_0000 < addr)
    && (Pdpt(l.kernel, 0) in l.tabs <==> addr > 0) && (Pd(l.kernel, 0, 0) in l.tabs <==> addr > 0)
  }

  lemma LowVpn(addr: nat)
    requires addr < INIT_END
    ensures VpnOf(addr).i4 == 0 && VpnOf(addr).i3 == 0 && VpnOf(addr).i2 == addr / 0x20_0000 < 8
  {
  }

  lemma MissingLow(l: Layout, addr: nat)
    requires Rooted(l) && addr < INIT_END && addr % 4096 == 0 && MadeSoFar(l, addr)
    ensures Missing(l, Pml4(l.kernel), Route(VpnOf(addr)))
         == NewTables(addr)
  {
    LowVpn(addr);
    var k, c := l.kernel, VpnOf(addr).i2;
    var r := Route(VpnOf(addr));
    assert r == [0, 0, c];
    assert r[1..] == [0, c] && [0, c][1..] == [c] && [c][1..] == [];
    if addr > 0 {
      assert Missing(l, Pml4(k), r) == Missing(l, Pdpt(k, 0), [0, c]) == Missing(l, Pd(k, 0, 0), [c]);
      assert Missing(l, Pt(k, 0, 0, c), []) == 0;
      assert Missing(l, Pd(k, 0, 0), [c]) == if Pt(k, 0, 0, c) in l.tabs then 0 else 1;
      assert c * 0x20_0000 < addr <==> addr % 0x20_0000 != 0;
    }
  }

  lemma InitNeeds(s: Phys, l: Layout, addr: nat)
    requires Good(s, l) && addr % 4096 == 0 && addr < INIT_END && MadeSoFar(l, addr)
    ensures Needs(s.mem, l.kernel, Route(VpnOf(addr))) == NewTables(addr)
  {
    MissingLow(l, addr);
    assert EntryOk(s.mem, l, Pml4(l.kernel), VpnOf(addr).i4);
    NeedsIsMissing(s.mem, l, Pml4(l.kernel), Route(VpnOf(addr)));
  }

  lemma InitStep(s: Phys, l: Layout, addr: nat) returns (l': Layout)
    requires Good(s, l) && addr % 4096 == 0 && addr < INIT_END && MadeSoFar(l, addr)
    requires |Clearable(s.free)| >= NewTables(addr)
    ensures |Clearable(s.free)| >= Needs(s.mem, l.kernel, Route(VpnOf(addr)))
    ensures var s' := Mapped(s, l.kernel, VpnOf(addr), Pte(addr, 3));
            && Good(s', l') && l'.kernel == l.kernel && MadeSoFar(l', addr + 4096)
            && s'.free <= s.free && |Clearable(s'.free)| == |Clearable(s.free)| - NewTables(addr)
    ensures (addr + 4096) % 4096 == 0
  {
    var v := VpnOf(addr);
    InitNeeds(s, l, addr);
    LowVpn(addr);
    l' := MapInstalls(s, l, l.kernel, v, Pte(addr, 3));
    MadeOneMore(l, l', addr);
  }

  lemma MadeOneMore(l: Layout, l': Layout, addr: nat)
    requires MadeSoFar(l, addr) && addr % 4096 == 0 && addr < INIT_END && l'.kernel == l.kernel && Rooted(l')
    requires GrewTo(l, l', l.kernel, VpnOf(addr)) && forall p :: p in l.tabs ==> p in l'.tabs
    requires Pt(l.kernel, 0, 0, addr / 0x20_0000) in l'.tabs
    ensures MadeSoFar(l', addr + 4096)
  {
    LowVpn(addr);
    var d := addr / 0x20_0000;
    assert Parent(Pt(l.kernel, 0, 0, d)) == Pd(l.kernel, 0, 0) && Parent(Pd(l.kernel, 0, 0)) == Pdpt(l.kernel, 0);
    forall c: Index
      ensures Pt(l.kernel, 0, 0, c) in l'.tabs <==> c * 0x20_0000 < addr + 4096
    {
      NextRegion(addr, c);
    }
  }

  lemma NextRegion(addr: nat, c: nat)
    requires addr % 4096 == 0
    ensures c * 0x20_0000 < addr + 4096 <==> c * 0x20_0000 < addr || c == addr / 0x20_0000
  {
    var q, r := addr / 0x20_0000, addr % 0x20_0000;
    assert addr == 0x20_0000 * q + r && r % 4096 == 0;
  }

  lemma InitOnward(s: Phys, l: Layout, addr: nat, end: nat) returns (s1: Phys, l1: Layout)
    requires Good(s, l) && addr % 4096 == 0 && addr < end <= INIT_END && MadeSoFar(l, addr)
    requires |Clearable(s.free)| >= StillNeeded(addr, end)
    ensures s1 == Mapped(s, l.kernel, VpnOf(addr), Pte(addr, 3))
    ensures |Clearable(s.free)| >= Needs(s.mem, l.kernel, Route(VpnOf(addr)))
    ensures Good(s1, l1) && l1.kernel == l.kernel && (addr + 4096) % 4096 == 0 && MadeSoFar(l1, addr + 4096)
    ensures s1.free <= s.free
    ensures |Clearable(s1.free)| - StillNeeded(addr + 4096, end) == |Clearable(s.free)| - StillNeeded(addr, end)
  {
    s1 := Mapped(s, l.kernel, VpnOf(addr), Pte(addr, 3));
    l1 := InitStep(s, l, addr);
  }

  /** With a page for each table on the way, the loop gets to `end`, and takes exactly those pages. */
  lemma {:induction false} InitAffordable(s: Phys, l: Layout, addr: nat, end: nat) returns (s': Phys, l': Layout)
    requires Good(s, l) && addr % 4096 == 0 && end <= INIT_END && MadeSoFar(l, addr)
    requires |Clearable(s.free)| >= StillNeeded(addr, end)
    ensures RangeAffordable(s, l.kernel, addr, end, 3) && s' == IdentityMapped(s, l.kernel, addr, end, 3)
    ensures Good(s', l') && l'.kernel == l.kernel && s'.free <= s.free
    ensures |Clearable(s'.free)| == |Clearable(s.free)| - StillNeeded(addr, end)
    ensures addr <= end && end % 4096 == 0 ==> MadeSoFar(l', end)
    decreases end - addr
  {
    if addr < end {
      var s1, l1 := InitOnward(s, l, addr, end);
      s', l' := InitAffordable(s1, l1, addr + 4096, end);
      RangeStep(s, s1, l.kernel, addr, end, 3);
      WholePages(addr, end);
    } else {
      s', l' := s, l;
    }
  }

  lemma WholePages(addr: nat, end: nat)
    requires addr % 4096 == 0 && addr < end
    ensures end % 4096 == 0 ==> addr + 4096 <= end
  {
  }

  lemma RangeStep(s: Phys, s': Phys, root: nat, addr: nat, end: nat, flags: nat)
    requires addr < end && s' == Mapped(s, root, VpnOf(addr), Pte(addr, flags))
    requires |Clearable(s.free)| >= Needs(s.mem, root, Route(VpnOf(addr)))
    requires RangeAffordable(s', root, addr + 4096, end, flags)
    ensures RangeAffordable(s, root, addr, end, flags)
    ensures IdentityMapped(s, root, addr, end, flags) == IdentityMapped(s', root, addr + 4096, end, flags)
  {
  }
}
