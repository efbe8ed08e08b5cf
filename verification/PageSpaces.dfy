/** Whole address spaces of kernel/paging.c: unmapping, looking up, creating a root that shares
    the kernel's upper half, freeing one, and complete lifecycles. */
module PageSpaces {
  import opened Pmm
  import opened PageTree
  import opened PageMaps

  // ----- unmap_page and get_phys_addr -----

  /** The leaf table the code's walk reaches, or null. */
  function LeafTable(mem: Memory, root: nat, v: Vpn): nat {
    var pdpt := Next(mem, root, v.i4);
    if pdpt == 0 then 0 else
    var pd := Next(mem, pdpt, v.i3);
    if pd == 0 then 0 else Next(mem, pd, v.i2)
  }

  function Unmapped(mem: Memory, root: nat, v: Vpn): Memory {
    var pt := LeafTable(mem, root, v);
    if pt == 0 then mem else Written(mem, pt, v.i1, 0)
  }

  /** `base | offset` for a present leaf entry, else 0. */
  function PhysAddr(mem: Memory, root: nat, virt: nat): nat {
    var e := Walk(mem, root, VpnOf(virt));
    if Present(e) then Base(e) + virt % 4096 else 0
  }

  lemma LeafTableIs(mem: Memory, l: Layout, root: nat, v: Vpn)
    requires Tree(mem, l) && Pml4(root) in l.tabs
    ensures var p := Pt(Owner(mem, l, root, v.i4), v.i4, v.i3, v.i2);
            LeafTable(mem, root, v) == if p in l.tabs then l.tabs[p] else 0
  {
    EntryLeadsToChild(mem, l, Pml4(root), v.i4);
    var o := Owner(mem, l, root, v.i4);
    assert Parent(Pt(o, v.i4, v.i3, v.i2)) == Pd(o, v.i4, v.i3);
    assert Parent(Pd(o, v.i4, v.i3)) == Pdpt(o, v.i4);
    if Pdpt(o, v.i4) in l.tabs {
      EntryLeadsToChild(mem, l, Pdpt(o, v.i4), v.i3);
      if Pd(o, v.i4, v.i3) in l.tabs {
        EntryLeadsToChild(mem, l, Pd(o, v.i4, v.i3), v.i2);
      }
    }
  }

  /** Two spaces see the same tables for an index exactly when the index has the same owner in both. */
  lemma SeesIffOwner(mem: Memory, l: Layout, r: nat, i: Index, root: nat)
    requires Tree(mem, l) && Pml4(r) in l.tabs && Pml4(root) in l.tabs
    ensures Sees(mem, r, i, root) <==> Owner(mem, l, r, i) == Owner(mem, l, root, i)
  {
    assert EntryOk(mem, l, Pml4(r), i) && EntryOk(mem, l, Pml4(root), i) && EntryOk(mem, l, Pml4(l.kernel), i);
  }

  /** unmap_page deletes exactly one key, in the spaces that share the leaf table. */
  lemma UnmapRemoves(s: Phys, l: Layout, root: nat, v: Vpn)
    requires Good(s, l) && Pml4(root) in l.tabs
    ensures Good(Phys(Unmapped(s.mem, root, v), s.free), l)
    ensures forall r, w :: Pml4(r) in l.tabs ==>
              Walk(Unmapped(s.mem, root, v), r, w)
              == if w == v && Sees(s.mem, r, v.i4, root) then 0 else Walk(s.mem, r, w)
  {
    LeafTableIs(s.mem, l, root, v);
    var o := Owner(s.mem, l, root, v.i4);
    var p := Pt(o, v.i4, v.i3, v.i2);
    if p in l.tabs {
      WrittenIsTree(s.mem, l, p, v.i1, 0);
    }
    forall r, w | Pml4(r) in l.tabs
      ensures Walk(Unmapped(s.mem, root, v), r, w)
           == if w == v && Sees(s.mem, r, v.i4, root) then 0 else Walk(s.mem, r, w)
    {
      SeesIffOwner(s.mem, l, r, v.i4, root);
      if p in l.tabs {
        WrittenWalks(s.mem, l, p, v.i1, 0, r, w);
      } else {
        WalkReadsLeaf(s.mem, l, r, v);
      }
    }
  }

  /** Spaces that see the same tables translate alike. */
  lemma SeersAgree(mem: Memory, l: Layout, r: nat, root: nat, v: Vpn)
    requires Tree(mem, l) && Pml4(root) in l.tabs && Pml4(r) in l.tabs && Sees(mem, r, v.i4, root)
    ensures Walk(mem, r, v) == Walk(mem, root, v)
  {
    SeesIffOwner(mem, l, r, v.i4, root);
    WalkReadsLeaf(mem, l, r, v);
    WalkReadsLeaf(mem, l, root, v);
  }

  /** Mapping an unmapped page and unmapping it again restores the whole translation. */
  lemma MapUnmapRestores(s: Phys, l: Layout, root: nat, v: Vpn, e: nat)
    requires Good(s, l) && Pml4(root) in l.tabs && |Clearable(s.free)| >= Needs(s.mem, root, Route(v))
    requires Walk(s.mem, root, v) == 0
    ensures SameWalks(s.mem, Unmapped(Mapped(s, root, v, e).mem, root, v), l)
  {
    var l' := MapInstalls(s, l, root, v, e);
    var s' := Mapped(s, root, v, e);
    UnmapRemoves(s', l', root, v);
    forall r, w | Pml4(r) in l.tabs
      ensures Walk(Unmapped(s'.mem, root, v), r, w) == Walk(s.mem, r, w)
    {
      MapUnmapOne(s, l, l', root, v, e, r, w);
    }
  }

  lemma MapUnmapOne(s: Phys, l: Layout, l': Layout, root: nat, v: Vpn, e: nat, r: nat, w: Vpn)
    requires Good(s, l) && Pml4(root) in l.tabs && |Clearable(s.free)| >= Needs(s.mem, root, Route(v))
    requires Walk(s.mem, root, v) == 0
    requires Good(Mapped(s, root, v, e), l') && Extends(s, l, Mapped(s, root, v, e), l', Owner(s.mem, l, root, v.i4))
    requires Pml4(r) in l.tabs && Pt(Owner(s.mem, l, root, v.i4), v.i4, v.i3, v.i2) in l'.tabs
    requires var mem' := Mapped(s, root, v, e).mem;
             && Walk(mem', r, w) == (if w == v && Sees(s.mem, r, v.i4, root) then e else Walk(s.mem, r, w))
             && Walk(Unmapped(mem', root, v), r, w)
                == if w == v && Sees(mem', r, v.i4, root) then 0 else Walk(mem', r, w)
    ensures Walk(Unmapped(Mapped(s, root, v, e).mem, root, v), r, w) == Walk(s.mem, r, w)
  {
    if w == v {
      if Sees(s.mem, r, v.i4, root) {
        SeersAgree(s.mem, l, r, root, v);
        StillSees(s, l, l', root, v, e, r);
      } else if Sees(Mapped(s, root, v, e).mem, r, v.i4, root) {
        NewlySees(s, l, l', root, v, e, r);
      }
    }
  }

  lemma StillSees(s: Phys, l: Layout, l': Layout, root: nat, v: Vpn, e: nat, r: nat)
    requires Good(s, l) && Pml4(root) in l.tabs && |Clearable(s.free)| >= Needs(s.mem, root, Route(v))
    requires Pml4(r) in l.tabs
    requires Good(Mapped(s, root, v, e), l') && Extends(s, l, Mapped(s, root, v, e), l', Owner(s.mem, l, root, v.i4))
    requires Sees(s.mem, r, v.i4, root)
    ensures Sees(Mapped(s, root, v, e).mem, r, v.i4, root)
  {
    if r != root {
      MappedKeepsRoots(s, l, root, v, e, r, v.i4);
      MappedKeepsRoots(s, l, root, v, e, root, v.i4);
    }
  }

  /** A table added under an empty index is seen by no other space. */
  lemma NewTableUnseen(mem: Memory, l: Layout, mem': Memory, l': Layout, root: nat, i: Index, r: nat)
    requires Tree(mem, l) && Tree(mem', l') && Pml4(root) in l.tabs && Pml4(r) in l.tabs && r != root
    requires forall q :: q in l.tabs ==> q in l'.tabs && l'.tabs[q] == l.tabs[q]
    requires Entry(mem, root, i) == 0 && Pdpt(root, i) in l'.tabs && Entry(mem', r, i) == Entry(mem, r, i)
    ensures !Sees(mem', r, i, root)
  {
    assert EntryOk(mem, l, Pml4(r), i) && EntryOk(mem, l, Pml4(root), i) && EntryOk(mem', l', Pml4(root), i);
    if Entry(mem, r, i) != 0 {
      var q := if Pdpt(r, i) in l.tabs then Pdpt(r, i) else Pdpt(l.kernel, i);
      assert q in l.tabs && Entry(mem, r, i) == Link(l.tabs[q]);
      assert l'.at[l'.tabs[q]] == q;
    }
  }

  lemma NewlySees(s: Phys, l: Layout, l': Layout, root: nat, v: Vpn, e: nat, r: nat)
    requires Good(s, l) && Pml4(root) in l.tabs && |Clearable(s.free)| >= Needs(s.mem, root, Route(v))
    requires Pml4(r) in l.tabs
    requires Good(Mapped(s, root, v, e), l') && Extends(s, l, Mapped(s, root, v, e), l', Owner(s.mem, l, root, v.i4))
    requires Pt(Owner(s.mem, l, root, v.i4), v.i4, v.i3, v.i2) in l'.tabs
    requires Sees(Mapped(s, root, v, e).mem, r, v.i4, root)
    ensures Sees(s.mem, r, v.i4, root)
  {
    var mem', o := Mapped(s, root, v, e).mem, Owner(s.mem, l, root, v.i4);
    if r != root {
      MappedKeepsRoots(s, l, root, v, e, r, v.i4);
      MappedKeepsRoots(s, l, root, v, e, root, v.i4);
      if Entry(s.mem, root, v.i4) == 0 {
        assert Parent(Pt(o, v.i4, v.i3, v.i2)) == Pd(o, v.i4, v.i3) && Parent(Pd(o, v.i4, v.i3)) == Pdpt(o, v.i4);
        NewTableUnseen(s.mem, l, mem', l', root, v.i4, r);
      } else if o != root {
        SharedMap(s, l, root, v, e);
      }
    }
  }

  /** Mapping loses no entry of any root, and writes to no root page but the owner's. */
  lemma MappedKeepsRoots(s: Phys, l: Layout, root: nat, v: Vpn, e: nat, r: nat, i: Index)
    requires Good(s, l) && Pml4(root) in l.tabs && |Clearable(s.free)| >= Needs(s.mem, root, Route(v))
    requires Pml4(r) in l.tabs
    ensures Entry(s.mem, r, i) != 0 || r != Owner(s.mem, l, root, v.i4) ==>
              Entry(Mapped(s, root, v, e).mem, r, i) == Entry(s.mem, r, i)
  {
    var o := Owner(s.mem, l, root, v.i4);
    if o != root {
      SharedMap(s, l, root, v, e);
    }
    assert EntryOk(s.mem, l, Pml4(o), v.i4);
    NeedsIsMissing(s.mem, l, Pml4(o), Route(v));
    OwnMapKeepsRoots(s, l, o, v, e, r, i);
  }

  lemma OwnMapKeepsRoots(s: Phys, l: Layout, root: nat, v: Vpn, e: nat, r: nat, i: Index)
    requires Good(s, l) && MayEnter(s.mem, l, Pml4(root), v.i4)
    requires |Clearable(s.free)| >= Missing(l, Pml4(root), Route(v))
    requires Pml4(r) in l.tabs
    ensures Entry(s.mem, r, i) != 0 || r != root ==> Entry(Mapped(s, root, v, e).mem, r, i) == Entry(s.mem, r, i)
  {
    var l' := PathReaches(s, l, Pml4(root), Route(v));
    PathIsLeaf(root, v);
    var (s1, pt) := Path(s, root, Route(v));
    LeafIsNoRoot(s1.mem, l', Pt(root, v.i4, v.i3, v.i2), r);
    if r != root {
      PathKeepsRoots(s, l, Pml4(root), Route(v), r, i);
    } else if Entry(s.mem, r, i) != 0 {
      PathKeepsOwn(s, l, Pml4(root), Route(v), i);
    }
  }

  lemma LeafIsNoRoot(mem: Memory, l: Layout, p: Place, r: nat)
    requires Separate(mem, l) && Rooted(l) && p in l.tabs && p.Pt? && Pml4(r) in l.tabs
    ensures l.tabs[p] != r
  {
  }

  // ----- paging_new_pml4 -----

  /** A cleared page after the loop that copies the upper half of the kernel's root. */
  function UpperHalf(mem: Memory, kernel: nat, page: Page): Page {
    seq(512, i requires 0 <= i < 512 => if i < 256 then page[i] else Entry(mem, kernel, i))
  }

  ghost function NewRoot(s: Phys, kernel: nat): Phys
    requires s.free != {}
  {
    var page := AddrOf(Lowest(s.free));
    Phys(s.mem[page := UpperHalf(s.mem, kernel, Cleared(s.mem, page))], s.free - {Lowest(s.free)})
  }

  lemma RootsArePresent(l: Layout, p: Place)
    requires Rooted(l) && p in l.tabs
    ensures Pml4(p.root) in l.tabs
    decreases Depth(p)
  {
    if !p.Pml4? {
      RootsArePresent(l, Parent(p));
    }
  }

  lemma NewRootEntry(s: Phys, l: Layout, i: Index)
    requires Good(s, l) && Clearable(s.free) != {}
    ensures var page := AddrOf(Lowest(s.free));
            EntryOk(NewRoot(s, l.kernel).mem, l.Add(Pml4(page), page), Pml4(page), i)
  {
    var page := AddrOf(Lowest(s.free));
    if Pdpt(page, i) in l.tabs {
      RootsArePresent(l, Pdpt(page, i));
      assert false;
    }
    assert EntryOk(s.mem, l, Pml4(l.kernel), i);
  }

  lemma OldRootEntry(s: Phys, l: Layout, p: Place, i: Index)
    requires Good(s, l) && Clearable(s.free) != {} && p in l.tabs && !p.Pt?
    ensures var page := AddrOf(Lowest(s.free));
            p != Pml4(page) ==> EntryOk(NewRoot(s, l.kernel).mem, l.Add(Pml4(page), page), p, i)
  {
    assert IndexOf(AddrOf(Lowest(s.free))) == Lowest(s.free);
    assert EntryOk(s.mem, l, p, i);
  }

  lemma NewRootSeparate(s: Phys, l: Layout)
    requires Good(s, l) && Clearable(s.free) != {}
    ensures var page := AddrOf(Lowest(s.free));
            Separate(NewRoot(s, l.kernel).mem, l.Add(Pml4(page), page)) && page !in l.at && Pml4(page) !in l.tabs
  {
    assert IndexOf(AddrOf(Lowest(s.free))) == Lowest(s.free);
  }

  lemma NewRootRooted(l: Layout, page: nat)
    requires Rooted(l) && Pml4(page) !in l.tabs
    ensures Rooted(l.Add(Pml4(page), page))
  {
  }

  lemma NewRootTree(s: Phys, l: Layout)
    requires Good(s, l) && Clearable(s.free) != {}
    ensures var page := AddrOf(Lowest(s.free));
            Tree(NewRoot(s, l.kernel).mem, l.Add(Pml4(page), page)) && page !in l.at && Pml4(page) !in l.tabs
  {
    var page := AddrOf(Lowest(s.free));
    var mem', l' := NewRoot(s, l.kernel).mem, l.Add(Pml4(page), page);
    NewRootSeparate(s, l);
    NewRootRooted(l, page);
    forall p, i: Index | p in l'.tabs && !p.Pt?
      ensures EntryOk(mem', l', p, i)
    {
      if p == Pml4(page) {
        NewRootEntry(s, l, i);
      } else {
        OldRootEntry(s, l, p, i);
      }
    }
  }

  /** The new space owns exactly the page it took. */
  ghost predicate StartsWith(s: Phys, l: Layout, s': Phys, l': Layout, root: nat) {
    && (forall n :: n in s'.free || Owns(l', root, n) <==> n in s.free)
    && (forall n :: Owns(l', root, n) ==> n !in s'.free)
  }

  lemma NoStranger(s: Phys, l: Layout, a: nat)
    requires Good(s, l) && Clearable(s.free) != {} && a in l.at
    ensures l.at[a].root != AddrOf(Lowest(s.free))
  {
    NewRootTree(s, l);
    RootsArePresent(l, l.at[a]);
  }

  lemma FreshRootOwns(l: Layout, m: nat)
    requires forall a :: a in l.at ==> l.at[a].root != AddrOf(m)
    ensures forall n :: Owns(l.Add(Pml4(AddrOf(m)), AddrOf(m)), AddrOf(m), n) <==> n == m
  {
  }

  lemma NewRootOwns(s: Phys, l: Layout)
    requires Good(s, l) && Clearable(s.free) != {}
    ensures var page := AddrOf(Lowest(s.free));
            StartsWith(s, l, NewRoot(s, l.kernel), l.Add(Pml4(page), page), page)
  {
    forall a | a in l.at
      ensures l.at[a].root != AddrOf(Lowest(s.free))
    {
      NoStranger(s, l, a);
    }
    FreshRootOwns(l, Lowest(s.free));
  }

  lemma NewRootKeepsLeaf(s: Phys, l: Layout, r: nat, v: Vpn)
    requires Good(s, l) && Clearable(s.free) != {} && Pml4(r) in l.tabs && AddrOf(Lowest(s.free)) !in l.at
    ensures var page := AddrOf(Lowest(s.free));
            Leaf(NewRoot(s, l.kernel).mem, l.Add(Pml4(page), page), r, v) == Leaf(s.mem, l, r, v)
  {
  }

  lemma NewRootKeepsWalks(s: Phys, l: Layout)
    requires Good(s, l) && Clearable(s.free) != {}
    ensures SameWalks(s.mem, NewRoot(s, l.kernel).mem, l)
  {
    var page, mem' := AddrOf(Lowest(s.free)), NewRoot(s, l.kernel).mem;
    NewRootTree(s, l);
    forall r, v | Pml4(r) in l.tabs
      ensures Walk(mem', r, v) == Walk(s.mem, r, v)
    {
      NewRootKeepsLeaf(s, l, r, v);
      WalkReadsLeaf(s.mem, l, r, v);
      WalkReadsLeaf(mem', l.Add(Pml4(page), page), r, v);
    }
  }

  lemma NewRootWalk(s: Phys, l: Layout, v: Vpn)
    requires Good(s, l) && Clearable(s.free) != {} && AddrOf(Lowest(s.free)) != l.kernel
    ensures Walk(NewRoot(s, l.kernel).mem, AddrOf(Lowest(s.free)), v)
         == if v.i4 >= 256 then Walk(NewRoot(s, l.kernel).mem, l.kernel, v) else 0
  {
  }

  /** A new space sees the kernel's upper half and nothing below; no other space changes. */
  lemma NewRootIsolates(s: Phys, l: Layout) returns (l': Layout)
    requires Good(s, l) && Clearable(s.free) != {}
    ensures var page, s' := AddrOf(Lowest(s.free)), NewRoot(s, l.kernel);
            && Good(s', l') && l' == l.Add(Pml4(page), page) && Pml4(page) !in l.tabs
            && StartsWith(s, l, s', l', page) && AllLow(l', page)
    ensures SameWalks(s.mem, NewRoot(s, l.kernel).mem, l)
    ensures forall v :: Walk(NewRoot(s, l.kernel).mem, AddrOf(Lowest(s.free)), v)
                        == if v.i4 >= 256 then Walk(s.mem, l.kernel, v) else 0
  {
    var page := AddrOf(Lowest(s.free));
    l' := l.Add(Pml4(page), page);
    NewRootTree(s, l);
    HeldAfterAdd(s.free, l, Pml4(page));
    NewRootOwns(s, l);
    NewRootKeepsWalks(s, l);
    forall v: Vpn
      ensures Walk(NewRoot(s, l.kernel).mem, page, v) == if v.i4 >= 256 then Walk(s.mem, l.kernel, v) else 0
    {
      NewRootWalk(s, l, v);
    }
  }

  /** The lower half of a new root is empty exactly when memset reached its page or it was blank there. */
  lemma NewRootCleanIff(s: Phys, kernel: nat)
    requires s.free != {} && AddrOf(Lowest(s.free)) in s.mem
    ensures var page := AddrOf(Lowest(s.free));
            (forall i: Index :: i < 256 ==> Entry(NewRoot(s, kernel).mem, page, i) == 0)
            <==> (page + 4096 <= CLEAR_LIMIT || forall i: Index :: i < 256 ==> Entry(s.mem, page, i) == 0)
  {
    var page := AddrOf(Lowest(s.free));
    var mem' := NewRoot(s, kernel).mem;
    forall i: Index | i < 256
      ensures Entry(mem', page, i) == if page + 4096 <= CLEAR_LIMIT then 0 else Entry(s.mem, page, i)
    {
    }
  }

  // ----- paging_free_pml4 -----

  /** The layout without one address space. */
  ghost function Without(l: Layout, root: nat): Layout {
    Layout(l.kernel,
           map p | p in l.tabs && p.root != root :: l.tabs[p],
           map a | a in l.at && l.at[a].root != root :: l.at[a])
  }

  /** A table that paging_free_pml4 looks at: a root, or one below an index of the lower half. */
  predicate IsLow(p: Place) {
    p.Pml4? || p.i4 < 256
  }

  /** Entry i of a table is present and leads to x. */
  predicate Leads(mem: Memory, table: nat, i: Index, x: nat) {
    Present(Entry(mem, table, i)) && Next(mem, table, i) == x
  }

  /** The pages that paging_free_pml4 frees, read off memory. */
  ghost predicate LowTable(mem: Memory, root: nat, x: nat) {
    || x == root
    || (exists a: Index :: a < 256 && Leads(mem, root, a, x))
    || (exists a: Index, b: Index :: a < 256 && Present(Entry(mem, root, a)) && Leads(mem, Next(mem, root, a), b, x))
    || (exists a: Index, b: Index, c: Index ::
          a < 256 && Present(Entry(mem, root, a)) && Present(Entry(mem, Next(mem, root, a), b))
          && Leads(mem, Next(mem, Next(mem, root, a), b), c, x))
  }

  ghost function Dropped(s: Phys, root: nat): Phys {
    Phys(s.mem, s.free + set n: nat | n < MAX_PAGES && LowTable(s.mem, root, AddrOf(n)))
  }

  /** Which are the tables of the space at or below an index of the lower half. */
  lemma LowTableIs(mem: Memory, l: Layout, root: nat, x: nat)
    requires Tree(mem, l) && Pml4(root) in l.tabs
    ensures LowTable(mem, root, x) <==> x in l.at && l.at[x].root == root && IsLow(l.at[x])
  {
    if LowTable(mem, root, x) {
      LowTableIsOwn(mem, l, root, x);
    }
    if x in l.at && l.at[x].root == root && IsLow(l.at[x]) {
      OwnIsLowTable(mem, l, l.at[x]);
    }
  }

  lemma OwnIsLowTable(mem: Memory, l: Layout, p: Place)
    requires Tree(mem, l) && p in l.tabs && IsLow(p)
    ensures LowTable(mem, p.root, l.tabs[p])
  {
    if !p.Pml4? {
      var d := Pdpt(p.root, p.i4);
      if p.Pt? {
        assert Parent(p) in l.tabs && Parent(Parent(p)) == d;
        EntryLeadsToChild(mem, l, Parent(p), p.i2);
        EntryLeadsToChild(mem, l, d, p.i3);
        EntryLeadsToChild(mem, l, Pml4(p.root), p.i4);
        assert Leads(mem, Next(mem, Next(mem, p.root, p.i4), p.i3), p.i2, l.tabs[p]);
      } else if p.Pd? {
        assert Parent(p) == d;
        EntryLeadsToChild(mem, l, d, p.i3);
        EntryLeadsToChild(mem, l, Pml4(p.root), p.i4);
        assert Leads(mem, Next(mem, p.root, p.i4), p.i3, l.tabs[p]);
      } else {
        EntryLeadsToChild(mem, l, Pml4(p.root), p.i4);
        assert Leads(mem, p.root, p.i4, l.tabs[p]);
      }
    }
  }

  /** An entry below a table of the space's lower half leads to a table of its lower half. */
  lemma LeadsToOwn(mem: Memory, l: Layout, p: Place, i: Index, x: nat)
    requires Tree(mem, l) && p in l.tabs && !p.Pt? && IsLow(p) && (p.Pml4? ==> i < 256) && Leads(mem, l.tabs[p], i, x)
    ensures Child(p, i) in l.tabs && l.tabs[Child(p, i)] == x && IsLow(Child(p, i))
  {
    EntryLeadsToChild(mem, l, p, i);
  }

  lemma LowTableIsOwn(mem: Memory, l: Layout, root: nat, x: nat)
    requires Tree(mem, l) && Pml4(root) in l.tabs && LowTable(mem, root, x)
    ensures x in l.at && l.at[x].root == root && IsLow(l.at[x])
  {
    if x != root {
      if a: Index :| a < 256 && Leads(mem, root, a, x) {
        LeadsToOwn(mem, l, Pml4(root), a, x);
      } else if a: Index, b: Index :|
                a < 256 && Present(Entry(mem, root, a)) && Leads(mem, Next(mem, root, a), b, x) {
        LeadsToOwn(mem, l, Pml4(root), a, Next(mem, root, a));
        LeadsToOwn(mem, l, Pdpt(root, a), b, x);
      } else {
        var a: Index, b: Index, c: Index :|
          a < 256 && Present(Entry(mem, root, a)) && Present(Entry(mem, Next(mem, root, a), b))
          && Leads(mem, Next(mem, Next(mem, root, a), b), c, x);
        LeadsToOwn(mem, l, Pml4(root), a, Next(mem, root, a));
        LeadsToOwn(mem, l, Pdpt(root, a), b, Next(mem, Next(mem, root, a), b));
        LeadsToOwn(mem, l, Pd(root, a, b), c, x);
      }
    }
  }

  /** paging_free_pml4 gives back the root and the tables of its lower half. Dropping a user space leaves the
      others intact, tables, entries and all. */
  lemma DroppingKeepsOthers(s: Phys, l: Layout, root: nat)
    requires Good(s, l) && Pml4(root) in l.tabs
    ensures forall n :: n in Dropped(s, root).free <==> n in s.free || (Owns(l, root, n) && IsLow(l.at[AddrOf(n)]))
    ensures root != l.kernel ==> Good(Dropped(s, root), Without(l, root))
  {
    forall n
      ensures n in Dropped(s, root).free <==> n in s.free || (Owns(l, root, n) && IsLow(l.at[AddrOf(n)]))
    {
      LowTableIs(s.mem, l, root, AddrOf(n));
      if Owns(l, root, n) {
        OwnedPage(s, l, n);
      }
    }
    if root != l.kernel {
      DroppedIsGood(s, l, root, Dropped(s, root), Without(l, root));
    }
  }

  lemma DroppedIsGood(s: Phys, l: Layout, root: nat, s': Phys, l': Layout)
    requires Good(s, l) && root != l.kernel && l' == Without(l, root)
    requires s'.mem == s.mem && forall n :: n in s'.free ==> n in s.free || Owns(l, root, n)
    ensures Good(s', l')
  {
    WithoutIsTree(s.mem, l, root);
    WithoutHeld(s, l, root, s'.free);
  }

  lemma OwnedPage(s: Phys, l: Layout, n: nat)
    requires Good(s, l) && AddrOf(n) in l.at
    ensures n < MAX_PAGES && n !in s.free && AddrOf(n) in s.mem
  {
    assert Held(AddrOf(n), s.free);
  }

  lemma WithoutIsTree(mem: Memory, l: Layout, root: nat)
    requires Tree(mem, l) && root != l.kernel
    ensures Tree(mem, Without(l, root))
  {
    var l' := Without(l, root);
    forall p, i: Index | p in l'.tabs && !p.Pt?
      ensures EntryOk(mem, l', p, i)
    {
      assert EntryOk(mem, l, p, i);
    }
  }

  lemma WithoutHeld(s: Phys, l: Layout, root: nat, free': set<nat>)
    requires Good(s, l) && forall n :: n in free' ==> n in s.free || Owns(l, root, n)
    ensures forall a :: a in Without(l, root).at ==> Held(a, free')
    ensures forall n :: n in free' ==> n < MAX_PAGES && AddrOf(n) in s.mem
  {
    forall a | a in Without(l, root).at
      ensures Held(a, free')
    {
      assert Held(a, s.free);
    }
    forall n | n in free'
      ensures n < MAX_PAGES && AddrOf(n) in s.mem
    {
      if n !in s.free {
        OwnedPage(s, l, n);
      }
    }
  }

  /** No table of the space is above the lower half. */
  ghost predicate AllLow(l: Layout, root: nat) {
    forall p :: p in l.tabs && p.root == root ==> IsLow(p)
  }

  /** Freeing a space gives back all of its pages exactly when it has no table of its own in the upper half;
      such a table stays allocated and belongs to no space any more. */
  lemma DropLeaksUpper(s: Phys, l: Layout, root: nat)
    requires Good(s, l) && Pml4(root) in l.tabs
    ensures (forall n :: n in Dropped(s, root).free <==> n in s.free || Owns(l, root, n)) <==> AllLow(l, root)
  {
    DroppingKeepsOthers(s, l, root);
    if !AllLow(l, root) {
      var p :| p in l.tabs && p.root == root && !IsLow(p);
      var a := l.tabs[p];
      assert Held(a, s.free);
      assert Owns(l, root, IndexOf(a)) && IndexOf(a) !in Dropped(s, root).free;
    }
  }

  // ----- rust_map_page -----

  /** A lower-half mapping into one root changes one page's translation there and nothing
      under any other root. */
  lemma LowerMapsAreIsolated(s: Phys, l: Layout, root: nat, v: Vpn, e: nat) returns (l': Layout)
    requires Good(s, l) && Pml4(root) in l.tabs && v.i4 < 256 && |Clearable(s.free)| >= Needs(s.mem, root, Route(v))
    ensures Good(Mapped(s, root, v, e), l') && Extends(s, l, Mapped(s, root, v, e), l', root)
    ensures AllLow(l, root) ==> AllLow(l', root)
    ensures forall r, w :: Pml4(r) in l.tabs ==>
              Walk(Mapped(s, root, v, e).mem, r, w) == if r == root && w == v then e else Walk(s.mem, r, w)
  {
    assert EntryOk(s.mem, l, Pml4(root), v.i4);
    l' := MapInstalls(s, l, root, v, e);
    forall r | Pml4(r) in l.tabs
      ensures Sees(s.mem, r, v.i4, root) <==> r == root
    {
      LowerIsPrivate(s.mem, l, r, v.i4, root);
    }
  }

  /** No two spaces share tables in the lower half. */
  lemma LowerIsPrivate(mem: Memory, l: Layout, r: nat, i: Index, root: nat)
    requires Tree(mem, l) && Pml4(r) in l.tabs && Pml4(root) in l.tabs && i < 256
    ensures Sees(mem, r, i, root) <==> r == root
  {
    assert EntryOk(mem, l, Pml4(r), i) && EntryOk(mem, l, Pml4(root), i);
  }

  /** Whatever the kernel maps or unmaps later, a space disagrees with it in the upper half only at an index
      where it has a table of its own: elsewhere it translates a page as the kernel does, or not at all. */
  lemma UpperHalfAgrees(s: Phys, l: Layout, root: nat, v: Vpn)
    requires Good(s, l) && Pml4(root) in l.tabs && Pdpt(root, v.i4) !in l.tabs
    ensures Walk(s.mem, root, v) == 0 || Walk(s.mem, root, v) == Walk(s.mem, l.kernel, v)
  {
    WalkReadsLeaf(s.mem, l, root, v);
    WalkReadsLeaf(s.mem, l, l.kernel, v);
    assert Parent(Pt(root, v.i4, v.i3, v.i2)) == Pd(root, v.i4, v.i3);
    assert Parent(Pd(root, v.i4, v.i3)) == Pdpt(root, v.i4);
    assert EntryOk(s.mem, l, Pml4(root), v.i4);
    if Entry(s.mem, root, v.i4) != 0 {
      SharedOwner(s.mem, l, root, v.i4);
    }
  }

  lemma SharedOwner(mem: Memory, l: Layout, root: nat, i: Index)
    requires Tree(mem, l) && Pml4(root) in l.tabs && Entry(mem, root, i) != 0
    ensures Owner(mem, l, l.kernel, i) == l.kernel
  {
    assert EntryOk(mem, l, Pml4(l.kernel), i);
  }

  /** Mapping an upper-half page under a user root gives that space a table of its own exactly when its entry
      was empty; then it translates the page and the kernel does not. */
  lemma PrivateUpperIff(s: Phys, l: Layout, root: nat, v: Vpn, e: nat) returns (l': Layout)
    requires Good(s, l) && Pml4(root) in l.tabs && root != l.kernel && AllLow(l, root) && v.i4 >= 256
    requires |Clearable(s.free)| >= Needs(s.mem, root, Route(v))
    ensures Good(Mapped(s, root, v, e), l') && (AllLow(l', root) <==> Entry(s.mem, root, v.i4) != 0)
    ensures Walk(Mapped(s, root, v, e).mem, root, v) == e
    ensures Entry(s.mem, root, v.i4) == 0 ==>
              Walk(Mapped(s, root, v, e).mem, l.kernel, v) == Walk(s.mem, l.kernel, v)
  {
    assert EntryOk(s.mem, l, Pml4(root), v.i4);
    l' := MapInstalls(s, l, root, v, e);
  }

  // ----- lifecycles -----

  /** A map_page request: a page and its leaf entry. */
  datatype Request = Request(v: Vpn, e: nat)

  ghost function MapAll(s: Phys, root: nat, reqs: seq<Request>): Phys
    decreases |reqs|
  {
    if reqs == [] then s else MapAll(Mapped(s, root, reqs[0].v, reqs[0].e), root, reqs[1..])
  }

  /** Every request is for the lower half and finds a page for each table it needs. */
  ghost predicate Affordable(s: Phys, root: nat, reqs: seq<Request>)
    decreases |reqs|
  {
    reqs == []
    || (&& reqs[0].v.i4 < 256
        && |Clearable(s.free)| >= Needs(s.mem, root, Route(reqs[0].v))
        && Affordable(Mapped(s, root, reqs[0].v, reqs[0].e), root, reqs[1..]))
  }

  /** Any sequence of lower-half mappings keeps the invariant, moves pages only between the free
      set and the space's own tables, and changes no translation under any other root. */
  lemma {:induction false} MapAllStaysInside(s: Phys, l: Layout, root: nat, reqs: seq<Request>) returns (l': Layout)
    requires Good(s, l) && Pml4(root) in l.tabs && Affordable(s, root, reqs)
    ensures Good(MapAll(s, root, reqs), l') && Extends(s, l, MapAll(s, root, reqs), l', root)
    ensures AllLow(l, root) ==> AllLow(l', root)
    ensures forall r, w :: Pml4(r) in l.tabs && r != root ==> Walk(MapAll(s, root, reqs).mem, r, w) == Walk(s.mem, r, w)
    decreases |reqs|
  {
    if reqs == [] {
      l' := l;
    } else {
      var s1 := Mapped(s, root, reqs[0].v, reqs[0].e);
      var l1 := LowerMapsAreIsolated(s, l, root, reqs[0].v, reqs[0].e);
      l' := MapAllStaysInside(s1, l1, root, reqs[1..]);
      assert forall r :: Pml4(r) in l.tabs ==> Pml4(r) in l1.tabs;
    }
  }

  /** paging_new_pml4, any affordable mappings, paging_free_pml4: the free set is what it was,
      and every other address space translates as before. */
  lemma LifecycleConserves(s: Phys, l: Layout, reqs: seq<Request>) returns (l': Layout)
    requires Good(s, l) && Clearable(s.free) != {} && Affordable(NewRoot(s, l.kernel), AddrOf(Lowest(s.free)), reqs)
    ensures var root := AddrOf(Lowest(s.free));
            var s' := MapAll(NewRoot(s, l.kernel), root, reqs);
            && Good(s', l') && Pml4(root) in l'.tabs && root != l'.kernel
            && Dropped(s', root).free == s.free && SameWalks(s.mem, s'.mem, l)
  {
    var root, s0 := AddrOf(Lowest(s.free)), NewRoot(s, l.kernel);
    var l0 := NewRootIsolates(s, l);
    l' := MapAllStaysInside(s0, l0, root, reqs);
    var s' := MapAll(s0, root, reqs);
    DropLeaksUpper(s', l', root);
    FullCircle(s, l, s0, l0, s', l', root, Dropped(s', root).free);
    forall r, v | Pml4(r) in l.tabs
      ensures Walk(s'.mem, r, v) == Walk(s.mem, r, v)
    {
      assert Pml4(r) in l0.tabs && r != root;
    }
  }

  lemma FullCircle(s: Phys, l: Layout, s0: Phys, l0: Layout, s': Phys, l': Layout, root: nat, free': set<nat>)
    requires StartsWith(s, l, s0, l0, root) && Extends(s0, l0, s', l', root)
    requires forall n :: n in free' <==> n in s'.free || Owns(l', root, n)
    ensures free' == s.free
  {
    forall n
      ensures n in free' <==> n in s.free
    {
      assert n in s'.free || Owns(l', root, n) <==> n in s0.free || Owns(l0, root, n);
    }
  }
}
