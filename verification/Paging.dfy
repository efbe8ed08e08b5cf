/** kernel/paging.c: the global pml4_table, the tables in physical memory and the page allocator,
    with the functions that change them in place. memset clears a page that ends below its limit and
    leaves alone any other, the null page among them. */
module Paging {
  import opened Pmm
  import opened PageTree
  import opened PageMaps
  import opened PageSpaces
  import opened PageInit
  import opened PageBoot

  /** Tables of a root that paging_free_pml4 has met before index (a, b, c). */
  predicate Before(p: Place, a: nat, b: nat, c: nat) {
    match p
    case Pml4(_) => false
    case Pdpt(_, x) => x < a
    case Pd(_, x, y) => x < a || (x == a && y < b)
    case Pt(_, x, y, z) => x < a || (x == a && (y < b || (y == b && z < c)))
  }

  /** Page n holds a table of `root` met before index (a, b, c). */
  ghost predicate Freed(l: Layout, root: nat, n: nat, a: nat, b: nat, c: nat) {
    Owns(l, root, n) && Before(l.at[AddrOf(n)], a, b, c)
  }

  /** Tables live on managed pages. */
  ghost predicate PagesAreOwn(l: Layout) {
    forall a :: a in l.at ==> Managed(a) && a == AddrOf(IndexOf(a))
  }

  /** No table is on a page of `free`. */
  ghost predicate NoneFree(l: Layout, free: set<nat>) {
    forall n :: AddrOf(n) in l.at ==> n !in free
  }

  /** Page n holds the table at p. */
  ghost predicate PageOf(l: Layout, p: Place, n: nat) {
    p in l.tabs && l.tabs[p] == AddrOf(n)
  }

  lemma FreedTable(mem: Memory, l: Layout, root: nat, a: Index, b: Index, c: Index)
    requires Separate(mem, l)
    ensures forall n ::
              Freed(l, root, n, a, b, c + 1) <==> Freed(l, root, n, a, b, c) || PageOf(l, Pt(root, a, b, c), n)
    ensures forall n :: PageOf(l, Pt(root, a, b, c), n) ==> !Freed(l, root, n, a, b, c)
  {
  }

  lemma FreedDirectory(mem: Memory, l: Layout, root: nat, a: Index, b: Index)
    requires Separate(mem, l) && Rooted(l)
    ensures Pd(root, a, b) !in l.tabs ==>
              forall n :: Freed(l, root, n, a, b + 1, 0) <==> Freed(l, root, n, a, b, 0)
    ensures Pd(root, a, b) in l.tabs ==>
              forall n ::
                Freed(l, root, n, a, b + 1, 0) <==> Freed(l, root, n, a, b, 512) || PageOf(l, Pd(root, a, b), n)
    ensures forall n :: PageOf(l, Pd(root, a, b), n) ==> !Freed(l, root, n, a, b, 512)
  {
    assert forall z: Index :: Parent(Pt(root, a, b, z)) == Pd(root, a, b);
  }

  lemma FreedPointer(mem: Memory, l: Layout, root: nat, a: Index)
    requires Separate(mem, l) && Rooted(l)
    ensures Pdpt(root, a) !in l.tabs ==>
              forall n :: Freed(l, root, n, a + 1, 0, 0) <==> Freed(l, root, n, a, 0, 0)
    ensures Pdpt(root, a) in l.tabs ==>
              forall n ::
                Freed(l, root, n, a + 1, 0, 0) <==> Freed(l, root, n, a, 512, 0) || PageOf(l, Pdpt(root, a), n)
    ensures forall n :: PageOf(l, Pdpt(root, a), n) ==> !Freed(l, root, n, a, 512, 0)
  {
    assert forall y: Index :: Parent(Pd(root, a, y)) == Pdpt(root, a);
    assert forall y: Index, z: Index :: Parent(Pt(root, a, y, z)) == Pd(root, a, y);
  }

  /** Two addresses in the same page, as far as the 48 bits that are translated go. */
  predicate SamePage(a: nat, b: nat) {
    a / 4096 % 0x10_0000_0000 == b / 4096 % 0x10_0000_0000
  }

  /** What get_phys_addr answers after a map, for any frame, flags and address. */
  lemma MapAnswers(s: Phys, l: Layout, root: nat, virt: nat, phys: nat, flags: nat, x: nat)
    requires Good(s, l) && Pml4(root) in l.tabs && |Clearable(s.free)| >= Needs(s.mem, root, Route(VpnOf(virt)))
    ensures root != 0
    ensures PhysAddr(Mapped(s, root, VpnOf(virt), Pte(phys, flags)).mem, root, x)
         == if SamePage(virt, x) then phys - phys % 4096 + x % 4096 else PhysAddr(s.mem, root, x)
  {
    var mem' := Mapped(s, root, VpnOf(virt), Pte(phys, flags)).mem;
    var v, w := VpnOf(virt), VpnOf(x);
    assert Walk(mem', root, w) == if w == v then Pte(phys, flags) else Walk(s.mem, root, w) by {
      var l' := MapInstalls(s, l, root, VpnOf(virt), Pte(phys, flags));
    }
    VpnDecomposition(virt, x);
    AnswerIsFrame(mem', root, x, phys, flags);
  }

  /** ... and after an unmap. */
  lemma UnmapAnswers(s: Phys, l: Layout, root: nat, virt: nat, x: nat)
    requires Good(s, l) && Pml4(root) in l.tabs
    ensures root != 0
    ensures PhysAddr(Unmapped(s.mem, root, VpnOf(virt)), root, x)
         == if SamePage(virt, x) then 0 else PhysAddr(s.mem, root, x)
  {
    var mem' := Unmapped(s.mem, root, VpnOf(virt));
    assert Walk(mem', root, VpnOf(x)) == if VpnOf(x) == VpnOf(virt) then 0 else Walk(s.mem, root, VpnOf(x)) by {
      UnmapRemoves(s, l, root, VpnOf(virt));
    }
    VpnDecomposition(virt, x);
    AnswerIsFrame(mem', root, x, 0, 0);
  }

  class AddressSpaces {
    const pmm: PageAllocator
    var mem: Memory
    var pml4Table: nat

    ghost function State(): Phys
      reads this, pmm
    {
      Phys(mem, pmm.free)
    }

    /** The statics before paging_init: no table yet. */
    constructor (pmm: PageAllocator, mem: Memory)
      ensures this.pmm == pmm && this.mem == mem && pml4Table == 0
    {
      this.pmm, this.mem, pml4Table := pmm, mem, 0;
    }

    /** One stanza of map_page: allocate, clear and link a table unless one is already there. */
    method EnsureEntry(table: nat, i: Index) returns (child: nat)
      requires pmm.Valid()
      modifies this`mem, pmm`freePages, pmm`free, pmm.bitmap
      ensures pmm.Valid() && State() == Ensured(old(State()), table, i) && child == Next(mem, table, i)
    {
      if !Present(Entry(mem, table, i)) {
        var a := pmm.AllocPage();
        if a != 0 {
          LowestIsUnique(old(pmm.free), IndexOf(a));
          mem := mem[a := Cleared(mem, a)];
        }
        mem := Written(mem, table, i, Link(a));
      }
      child := Base(Entry(mem, table, i));
    }

    method MapPage(virt: nat, phys: nat, flags: nat)
      requires pmm.Valid()
      modifies this`mem, pmm`freePages, pmm`free, pmm.bitmap
      ensures pmm.Valid()
      ensures State() == if pml4Table == 0 then old(State())
                         else Mapped(old(State()), pml4Table, VpnOf(virt), Pte(phys, flags))
    {
      if pml4Table == 0 {
        return;
      }
      var v := VpnOf(virt);
      var pdpt := EnsureEntry(pml4Table, v.i4);
      var pd := EnsureEntry(pdpt, v.i3);
      var pt := EnsureEntry(pd, v.i2);
      mem := Written(mem, pt, v.i1, Pte(phys, flags));
      ThreeStanzas(old(State()), pml4Table, v);
    }

    /** Maps into the given root and restores the current one. */
    method RustMapPage(pml4: nat, virt: nat, phys: nat, flags: nat)
      requires pmm.Valid()
      modifies this`mem, this`pml4Table, pmm`freePages, pmm`free, pmm.bitmap
      ensures pmm.Valid() && pml4Table == old(pml4Table)
      ensures State() == if pml4 == 0 then old(State())
                         else Mapped(old(State()), pml4, VpnOf(virt), Pte(phys, flags))
    {
      var oldPml4 := pml4Table;
      pml4Table := pml4;
      MapPage(virt, phys, flags);
      pml4Table := oldPml4;
    }

    method UnmapPage(virt: nat)
      modifies this`mem
      ensures mem == if pml4Table == 0 then old(mem) else Unmapped(old(mem), pml4Table, VpnOf(virt))
    {
      if pml4Table == 0 {
        return;
      }
      var v := VpnOf(virt);
      var pdpt := Base(Entry(mem, pml4Table, v.i4));
      if pdpt == 0 {
        return;
      }
      var pd := Base(Entry(mem, pdpt, v.i3));
      if pd == 0 {
        return;
      }
      var pt := Base(Entry(mem, pd, v.i2));
      if pt == 0 {
        return;
      }
      mem := Written(mem, pt, v.i1, 0);
    }

    method GetPhysAddr(virt: nat) returns (phys: nat)
      ensures phys == if pml4Table == 0 then 0 else PhysAddr(mem, pml4Table, virt)
    {
      if pml4Table == 0 {
        return 0;
      }
      var v := VpnOf(virt);
      var pdpt := Base(Entry(mem, pml4Table, v.i4));
      if pdpt == 0 {
        return 0;
      }
      var pd := Base(Entry(mem, pdpt, v.i3));
      if pd == 0 {
        return 0;
      }
      var pt := Base(Entry(mem, pd, v.i2));
      if pt == 0 {
        return 0;
      }
      var pte := Entry(mem, pt, v.i1);
      if !Present(pte) {
        return 0;
      }
      return Base(pte) + virt % 4096;
    }

    /** map_page and then get_phys_addr of any address x: in the page just mapped it is the frame plus the
        offset, and in every other page what it was. */
    method MapThenLook(virt: nat, phys: nat, flags: nat, x: nat, ghost l: Layout) returns (was: nat, answer: nat)
      requires pmm.Valid() && Good(State(), l) && Pml4(pml4Table) in l.tabs
      requires |Clearable(pmm.free)| >= Needs(mem, pml4Table, Route(VpnOf(virt)))
      modifies this`mem, pmm`freePages, pmm`free, pmm.bitmap
      ensures answer == if SamePage(virt, x) then phys - phys % 4096 + x % 4096 else was
    {
      was := GetPhysAddr(x);
      MapAnswers(State(), l, pml4Table, virt, phys, flags, x);
      MapPage(virt, phys, flags);
      answer := GetPhysAddr(x);
    }

    /** unmap_page and then get_phys_addr: null in that page, and everywhere else what it was. */
    method UnmapThenLook(virt: nat, x: nat, ghost l: Layout) returns (was: nat, answer: nat)
      requires pmm.Valid() && Good(State(), l) && Pml4(pml4Table) in l.tabs
      modifies this`mem
      ensures answer == if SamePage(virt, x) then 0 else was
    {
      was := GetPhysAddr(x);
      UnmapAnswers(State(), l, pml4Table, virt, x);
      UnmapPage(virt);
      answer := GetPhysAddr(x);
    }

    /** The loop that copies the upper half of the current root into a page. */
    method CopyUpperHalf(page: nat)
      requires page in mem && page != pml4Table
      modifies this`mem
      ensures mem == old(mem)[page := UpperHalf(old(mem), pml4Table, old(mem)[page])]
    {
      var i := 256;
      while i < 512
        invariant 256 <= i <= 512 && page in mem
        invariant mem == old(mem)[page := mem[page]]
        invariant forall j: Index ::
                    mem[page][j] == if 256 <= j < i then Entry(old(mem), pml4Table, j) else old(mem)[page][j]
      {
        mem := Written(mem, page, i, Entry(mem, pml4Table, i));
        i := i + 1;
      }
      assert mem[page] == UpperHalf(old(mem), pml4Table, old(mem)[page]);
    }

    /** A null answer means that no page was free, or that there is no current root to copy from;
        in the second case the page that was taken stays taken. */
    method NewPml4() returns (root: nat)
      requires pmm.Valid() && (pml4Table == 0 || Held(pml4Table, pmm.free))
      modifies this`mem, pmm`freePages, pmm`free, pmm.bitmap
      ensures pmm.Valid()
      ensures root == 0 <==> old(pmm.free) == {} || pml4Table == 0
      ensures old(pmm.free) == {} ==> State() == old(State())
      ensures root != 0 ==> root == AddrOf(Lowest(old(pmm.free))) && State() == NewRoot(old(State()), pml4Table)
      ensures old(pmm.free) != {} && pml4Table == 0 ==> pmm.free == old(pmm.free) - {Lowest(old(pmm.free))}
    {
      root := pmm.AllocPage();
      if root == 0 {
        return;
      }
      LowestIsUnique(old(pmm.free), IndexOf(root));
      mem := mem[root := Cleared(mem, root)];
      if pml4Table == 0 {
        return 0;
      }
      ghost var cleared := mem;
      CopyUpperHalf(root);
      assert UpperHalf(cleared, pml4Table, cleared[root]) == UpperHalf(old(mem), pml4Table, cleared[root]);
      assert mem == old(mem)[root := UpperHalf(old(mem), pml4Table, Cleared(old(mem), root))];
    }

    /** free_page on the page of one table, which must still be in use: no table is freed twice. */
    method FreeTable(a: nat, ghost p: Place, ghost l: Layout)
      requires pmm.Valid() && PagesAreOwn(l) && a in l.at && p in l.tabs && l.tabs[p] == a
      requires forall n :: PageOf(l, p, n) ==> n !in pmm.free
      modifies pmm`freePages, pmm`free, pmm.bitmap
      ensures pmm.Valid() && pmm.freePages == old(pmm.freePages) + 1
      ensures forall n :: n in pmm.free <==> n in old(pmm.free) || PageOf(l, p, n)
    {
      assert PageOf(l, p, IndexOf(a));
      pmm.FreePage(a);
    }

    /** Innermost loop of paging_free_pml4: the page tables below one directory. */
    method FreeTables(root: nat, a: Index, b: Index, pd: nat, ghost l: Layout, ghost free0: set<nat>)
      requires pmm.Valid() && Tree(mem, l) && PagesAreOwn(l) && NoneFree(l, free0)
      requires Pd(root, a, b) in l.tabs && l.tabs[Pd(root, a, b)] == pd
      requires forall n :: n in pmm.free <==> n in free0 || Freed(l, root, n, a, b, 0)
      modifies pmm`freePages, pmm`free, pmm.bitmap
      ensures pmm.Valid()
      ensures forall n :: n in pmm.free <==> n in free0 || Freed(l, root, n, a, b, 512)
    {
      var c := 0;
      while c < 512
        invariant 0 <= c <= 512 && pmm.Valid()
        invariant forall n :: n in pmm.free <==> n in free0 || Freed(l, root, n, a, b, c)
      {
        EntryLeadsToChild(mem, l, Pd(root, a, b), c);
        FreedTable(mem, l, root, a, b, c);
        if Present(Entry(mem, pd, c)) {
          var pt := Base(Entry(mem, pd, c));
          if pt != 0 {
            FreeTable(pt, Pt(root, a, b, c), l);
          }
        }
        c := c + 1;
      }
    }

    /** One iteration of the middle loop: the directory behind entry b, if there is one. */
    method FreeDirectory(root: nat, a: Index, b: Index, pdpt: nat, ghost l: Layout, ghost free0: set<nat>)
      requires pmm.Valid() && Tree(mem, l) && PagesAreOwn(l) && NoneFree(l, free0)
      requires Pdpt(root, a) in l.tabs && l.tabs[Pdpt(root, a)] == pdpt
      requires forall n :: n in pmm.free <==> n in free0 || Freed(l, root, n, a, b, 0)
      modifies pmm`freePages, pmm`free, pmm.bitmap
      ensures pmm.Valid()
      ensures forall n :: n in pmm.free <==> n in free0 || Freed(l, root, n, a, b + 1, 0)
    {
      EntryLeadsToChild(mem, l, Pdpt(root, a), b);
      FreedDirectory(mem, l, root, a, b);
      if Present(Entry(mem, pdpt, b)) {
        var pd := Base(Entry(mem, pdpt, b));
        if pd != 0 {
          FreeTables(root, a, b, pd, l, free0);
          FreeTable(pd, Pd(root, a, b), l);
        }
      }
    }

    /** Middle loop: the directories below one directory pointer table. */
    method FreeDirectories(root: nat, a: Index, pdpt: nat, ghost l: Layout, ghost free0: set<nat>)
      requires pmm.Valid() && Tree(mem, l) && PagesAreOwn(l) && NoneFree(l, free0)
      requires Pdpt(root, a) in l.tabs && l.tabs[Pdpt(root, a)] == pdpt
      requires forall n :: n in pmm.free <==> n in free0 || Freed(l, root, n, a, 0, 0)
      modifies pmm`freePages, pmm`free, pmm.bitmap
      ensures pmm.Valid()
      ensures forall n :: n in pmm.free <==> n in free0 || Freed(l, root, n, a, 512, 0)
    {
      var b := 0;
      while b < 512
        invariant 0 <= b <= 512 && pmm.Valid()
        invariant forall n :: n in pmm.free <==> n in free0 || Freed(l, root, n, a, b, 0)
      {
        FreeDirectory(root, a, b, pdpt, l, free0);
        b := b + 1;
      }
    }

    /** One iteration of the outer loop: the pointer table behind entry a, if there is one. */
    method FreePointerTable(root: nat, a: Index, ghost l: Layout, ghost free0: set<nat>)
      requires pmm.Valid() && Tree(mem, l) && PagesAreOwn(l) && NoneFree(l, free0) && Pml4(root) in l.tabs && a < 256
      requires forall n :: n in pmm.free <==> n in free0 || Freed(l, root, n, a, 0, 0)
      modifies pmm`freePages, pmm`free, pmm.bitmap
      ensures pmm.Valid()
      ensures forall n :: n in pmm.free <==> n in free0 || Freed(l, root, n, a + 1, 0, 0)
    {
      EntryLeadsToChild(mem, l, Pml4(root), a);
      FreedPointer(mem, l, root, a);
      if Present(Entry(mem, root, a)) {
        var pdpt := Base(Entry(mem, root, a));
        if pdpt != 0 {
          FreeDirectories(root, a, pdpt, l, free0);
          FreeTable(pdpt, Pdpt(root, a), l);
        }
      }
    }

    /** Outer loop: the directory pointer tables of the lower half. */
    method FreeLowerHalf(root: nat, ghost l: Layout)
      requires pmm.Valid() && Tree(mem, l) && PagesAreOwn(l) && NoneFree(l, pmm.free) && Pml4(root) in l.tabs
      modifies pmm`freePages, pmm`free, pmm.bitmap
      ensures pmm.Valid()
      ensures forall n :: n in pmm.free <==> n in old(pmm.free) || Freed(l, root, n, 256, 0, 0)
    {
      ghost var free0 := pmm.free;
      var a := 0;
      while a < 256
        invariant 0 <= a <= 256 && pmm.Valid()
        invariant forall n :: n in pmm.free <==> n in free0 || Freed(l, root, n, a, 0, 0)
      {
        FreePointerTable(root, a, l, free0);
        a := a + 1;
      }
    }

    /** Gives back the root and every table of its lower half, each once; no leaf frame, no table of
        another space and no table of the upper half is among them. */
    method FreePml4(root: nat, ghost l: Layout)
      requires pmm.Valid() && (root == 0 || (Good(State(), l) && Pml4(root) in l.tabs))
      modifies pmm`freePages, pmm`free, pmm.bitmap
      ensures pmm.Valid()
      ensures pmm.free == if root == 0 then old(pmm.free) else Dropped(old(State()), root).free
      ensures root != 0 && root != l.kernel ==> Good(State(), Without(l, root))
    {
      if root == 0 {
        return;
      }
      ghost var s := State();
      TablesHeld(s, l);
      FreeLowerHalf(root, l);
      RootStillHeld(s, l, root, pmm.free);
      FreeTable(root, Pml4(root), l);
      FreedIsDropped(s, l, root, pmm.free);
    }

    /** map_page(a, a, flags) for each page step of [start, end). */
    method MapRange(start: nat, end: nat, flags: nat)
      requires pmm.Valid()
      modifies this`mem, pmm`freePages, pmm`free, pmm.bitmap
      ensures pmm.Valid()
      ensures State() == if pml4Table == 0 then old(State())
                         else IdentityMapped(old(State()), pml4Table, start, end, flags)
    {
      var addr := start;
      while addr < end
        invariant pmm.Valid()
        invariant pml4Table == 0 ==> State() == old(State())
        invariant pml4Table != 0 ==> IdentityMapped(State(), pml4Table, addr, end, flags)
                                     == IdentityMapped(old(State()), pml4Table, start, end, flags)
        decreases end - addr
      {
        MapPage(addr, addr, flags);
        addr := addr + 4096;
      }
    }

    /** Flags PRESENT, RW, PWT and PCD. */
    method MapMmio(phys: nat, size: nat)
      requires pmm.Valid()
      modifies this`mem, pmm`freePages, pmm`free, pmm.bitmap
      ensures pmm.Valid()
      ensures State() == if pml4Table == 0 then old(State())
                         else IdentityMapped(old(State()), pml4Table, phys, phys + size, 0x1B)
    {
      MapRange(phys, phys + size, 0x1B);
    }

    /** One page for the root, one for the trial copy, three for the first tables and one for each further 2 MiB:
        get_phys_addr finds address x below 16 MiB mapped to itself exactly when that many were free, and nothing else.
        The processor finds it there too, and beyond that it finds everything below 16 MiB mapped to the last 2 MiB. */
    method PagingInit() returns (ghost l: Layout)
      requires pmm.Valid() && forall n :: n in pmm.free ==> AddrOf(n) in mem
      modifies this, pmm`freePages, pmm`free, pmm.bitmap
      ensures pmm.Valid() && (pml4Table == 0 <==> old(pmm.free) == {})
      ensures |old(pmm.free)| >= 4 && Clean(old(pmm.free), 12) ==>
                forall x: nat :: x < VIRTUAL_LIMIT ==> Booted(old(mem), mem, pml4Table, |old(pmm.free)|, x)
      ensures |Clearable(old(pmm.free))| >= 12 ==>
                && Good(State(), l) && pml4Table == l.kernel
                && (forall x: nat :: x < INIT_END ==> PhysAddr(mem, pml4Table, x) == x)
    {
      ghost var s0 := State();
      ClearableIsPart(pmm.free);
      l := SingleRoot(0);
      if Clearable(pmm.free) != {} {
        l := InitialRoot(State());
      }
      pml4Table := pmm.AllocPage();
      if pml4Table != 0 {
        LowestIsUnique(old(pmm.free), IndexOf(pml4Table));
        mem := mem[pml4Table := Cleared(mem, pml4Table)];
      }
      TestPage(l);
      ghost var s := State();
      MapRange(0, INIT_END, 3);
      if |s0.free| >= 4 && Clean(s0.free, 12) {
        CleanForBoot(s0.free);
        AllOutcomes(s0.mem, s, l, State(), |s0.free|);
      }
      if |Clearable(s0.free)| >= 12 {
        CleanForBoot(s0.free);
        l := InitIsGood(s, l);
        InitTranslates(s0.mem, mem, pml4Table, |s0.free|);
      }
    }

    /** paging_init's trial copy of the upper half; the page is never given back. */
    method TestPage(ghost l: Layout)
      requires pmm.Valid() && (pml4Table == 0 || Held(pml4Table, pmm.free))
      modifies this`mem, pmm`freePages, pmm`free, pmm.bitmap
      ensures pmm.Valid()
      ensures old(Good(State(), l)) ==> Good(State(), l) && SameWalks(old(mem), mem, l)
      ensures pmm.free == (if old(pmm.free) == {} then {} else old(pmm.free) - {Lowest(old(pmm.free))})
      ensures 0 in mem <==> 0 in old(mem)
    {
      var test := pmm.AllocPage();
      if test != 0 {
        LowestIsUnique(old(pmm.free), IndexOf(test));
        mem := mem[test := Cleared(mem, test)];
        CopyUpperHalf(test);
        assert mem == old(mem)[test := mem[test]];
        if old(Good(State(), l)) {
          SparePage(old(State()), l, mem[test]);
          SparePageUnread(old(State()), l, mem[test]);
        }
      }
    }

    /** A whole address space, from creation to release: every page comes back, the current root is
        untouched, and no other space ever translates differently. */
    method Lifecycle(calls: seq<MapCall>, ghost l: Layout)
      requires pmm.Valid() && Good(State(), l) && pml4Table == l.kernel && Clearable(pmm.free) != {}
      requires Affordable(NewRoot(State(), l.kernel), AddrOf(Lowest(pmm.free)), Requests(calls))
      modifies this, pmm`freePages, pmm`free, pmm.bitmap
      ensures pmm.Valid() && pmm.free == old(pmm.free) && pmm.freePages == old(pmm.freePages)
      ensures pml4Table == old(pml4Table) && SameWalks(old(mem), mem, l)
    {
      assert Held(pml4Table, pmm.free);
      ghost var s := State();
      var root := NewPml4();
      MapThenFree(root, calls, s, l);
    }

    /** The rest of the lifecycle, after paging_new_pml4 in state s. */
    method MapThenFree(root: nat, calls: seq<MapCall>, ghost s: Phys, ghost l: Layout)
      requires pmm.Valid() && Good(s, l) && Clearable(s.free) != {} && State() == NewRoot(s, l.kernel)
      requires root == AddrOf(Lowest(s.free)) && Affordable(State(), root, Requests(calls))
      modifies this, pmm`freePages, pmm`free, pmm.bitmap
      ensures pmm.Valid() && pml4Table == old(pml4Table) && pmm.free == s.free && SameWalks(s.mem, mem, l)
    {
      ghost var l' := LifecycleConserves(s, l, Requests(calls));
      MapCalls(root, calls);
      FreePml4(root, l');
    }

    method MapCalls(root: nat, calls: seq<MapCall>)
      requires pmm.Valid() && root != 0
      modifies this, pmm`freePages, pmm`free, pmm.bitmap
      ensures pmm.Valid() && pml4Table == old(pml4Table) && State() == MapAll(old(State()), root, Requests(calls))
    {
      var rest := calls;
      while rest != []
        invariant pmm.Valid() && pml4Table == old(pml4Table)
        invariant MapAll(State(), root, Requests(rest)) == MapAll(old(State()), root, Requests(calls))
        decreases |rest|
      {
        MapAllStep(State(), root, rest);
        RustMapPage(root, rest[0].virt, rest[0].phys, rest[0].flags);
        rest := rest[1..];
      }
    }
  }

  /** A map_page call of the FFI, as its arguments. */
  datatype MapCall = MapCall(virt: nat, phys: nat, flags: nat)

  function Requests(calls: seq<MapCall>): seq<Request> {
    seq(|calls|, i requires 0 <= i < |calls| => Request(VpnOf(calls[i].virt), Pte(calls[i].phys, calls[i].flags)))
  }

  lemma MapAllStep(s: Phys, root: nat, calls: seq<MapCall>)
    requires calls != []
    ensures MapAll(s, root, Requests(calls))
         == MapAll(Mapped(s, root, VpnOf(calls[0].virt), Pte(calls[0].phys, calls[0].flags)), root,
                   Requests(calls[1..]))
  {
    assert Requests(calls)[1..] == Requests(calls[1..]);
  }

  lemma TablesHeld(s: Phys, l: Layout)
    requires Good(s, l)
    ensures PagesAreOwn(l) && NoneFree(l, s.free)
  {
    forall n | AddrOf(n) in l.at
      ensures n !in s.free
    {
      assert Held(AddrOf(n), s.free);
    }
  }

  lemma RootStillHeld(s: Phys, l: Layout, root: nat, free: set<nat>)
    requires Good(s, l) && Pml4(root) in l.tabs && NoneFree(l, s.free)
    requires forall n :: n in free <==> n in s.free || Freed(l, root, n, 256, 0, 0)
    ensures root in l.at && forall n :: PageOf(l, Pml4(root), n) ==> n !in free
  {
  }

  /** The lower half of a space, and its root. */
  lemma FreedIsLow(s: Phys, l: Layout, root: nat, n: nat)
    requires Good(s, l) && Pml4(root) in l.tabs
    ensures PageOf(l, Pml4(root), n) || Freed(l, root, n, 256, 0, 0) <==> Owns(l, root, n) && IsLow(l.at[AddrOf(n)])
  {
  }

  lemma FreedIsDropped(s: Phys, l: Layout, root: nat, free: set<nat>)
    requires Good(s, l) && Pml4(root) in l.tabs
    requires forall n :: n in free <==> n in s.free || Freed(l, root, n, 256, 0, 0) || PageOf(l, Pml4(root), n)
    ensures free == Dropped(s, root).free
    ensures root != l.kernel ==> Good(Phys(s.mem, free), Without(l, root))
  {
    DroppingKeepsOthers(s, l, root);
    forall n
      ensures n in free <==> n in Dropped(s, root).free
    {
      FreedIsLow(s, l, root, n);
    }
  }

  lemma AllOutcomes(mem0: Memory, s: Phys, l: Layout, s': Phys, k: nat)
    requires k >= 4 && |s.free| == k - 2 && Clean(s.free, 10) && Good(s, l) && MadeSoFar(l, 0)
    requires (forall v :: Walk(s.mem, l.kernel, v) == 0) && (0 in s.mem <==> 0 in mem0)
    requires s' == IdentityMapped(s, l.kernel, 0, INIT_END, 3)
    ensures forall x: nat :: x < VIRTUAL_LIMIT ==> Booted(mem0, s'.mem, l.kernel, k, x)
  {
    forall x: nat | x < VIRTUAL_LIMIT
      ensures Booted(mem0, s'.mem, l.kernel, k, x)
    {
      InitOutcome(s, l, s', x);
      ReachByPages(k - 2, x);
    }
  }

  lemma InitIsGood(s: Phys, l: Layout) returns (l': Layout)
    requires |Clearable(s.free)| >= 10 && Good(s, l) && MadeSoFar(l, 0)
    ensures Good(IdentityMapped(s, l.kernel, 0, INIT_END, 3), l') && l'.kernel == l.kernel
  {
    NeededIs(0, 0, 8);
    var s';
    s', l' := InitAffordable(s, l, 0, INIT_END);
  }

  lemma InitTranslates(mem0: Memory, mem: Memory, root: nat, k: nat)
    requires k >= 12 && forall x: nat :: x < VIRTUAL_LIMIT ==> Booted(mem0, mem, root, k, x)
    ensures forall x: nat :: x < INIT_END ==> PhysAddr(mem, root, x) == x
  {
    forall x: nat | x < INIT_END
      ensures PhysAddr(mem, root, x) == x
    {
      assert Booted(mem0, mem, root, k, x) && x / 0x20_0000 < 8;
      SamePageTranslates(mem, root, x, x, 3);
    }
  }

  lemma SparePageUnread(s: Phys, l: Layout, content: Page)
    requires Good(s, l) && s.free != {}
    ensures SameWalks(s.mem, s.mem[AddrOf(Lowest(s.free)) := content], l)
  {
    var page := AddrOf(Lowest(s.free));
    var mem' := s.mem[page := content];
    SparePage(s, l, content);
    forall r, v | Pml4(r) in l.tabs
      ensures Walk(mem', r, v) == Walk(s.mem, r, v)
    {
      SpareLeaf(s, l, content, r, v);
      WalkReadsLeaf(s.mem, l, r, v);
      WalkReadsLeaf(mem', l, r, v);
    }
  }

  lemma SpareLeaf(s: Phys, l: Layout, content: Page, r: nat, v: Vpn)
    requires Good(s, l) && s.free != {} && Pml4(r) in l.tabs
    ensures Leaf(s.mem[AddrOf(Lowest(s.free)) := content], l, r, v) == Leaf(s.mem, l, r, v)
  {
    assert IndexOf(AddrOf(Lowest(s.free))) == Lowest(s.free);
  }

  lemma ThreeStanzas(s: Phys, root: nat, v: Vpn)
    ensures var s1 := Ensured(s, root, v.i4);
            var t1 := Next(s1.mem, root, v.i4);
            var s2 := Ensured(s1, t1, v.i3);
            var t2 := Next(s2.mem, t1, v.i3);
            var s3 := Ensured(s2, t2, v.i2);
            Path(s, root, [v.i4, v.i3, v.i2]) == (s3, Next(s3.mem, t2, v.i2))
  {
    assert [v.i4, v.i3, v.i2][1..] == [v.i3, v.i2] && [v.i3, v.i2][1..] == [v.i2] && [v.i2][1..] == [];
    var s1 := Ensured(s, root, v.i4);
    var t1 := Next(s1.mem, root, v.i4);
    var s2 := Ensured(s1, t1, v.i3);
    var t2 := Next(s2.mem, t1, v.i3);
    var s3 := Ensured(s2, t2, v.i2);
    assert Path(s2, t2, [v.i2]) == (s3, Next(s3.mem, t2, v.i2));
    assert Path(s1, t1, [v.i3, v.i2]) == Path(s2, t2, [v.i2]);
  }
}
