/** What map_page does to physical memory and to the set of free pages, as functions, and what
    that means for every address space: kernel/paging.c over kernel/pmm.c. */
module PageMaps {
  import opened Pmm
  import opened PageTree

  /** Physical memory together with the page allocator's free set. */
  datatype Phys = Phys(mem: Memory, free: set<nat>)

  /** One stanza of map_page: allocate, clear and link a table unless one is already there.
      A failed allocation goes unnoticed; memset ignores the null pointer. */
  ghost function Ensured(s: Phys, table: nat, i: Index): Phys {
    if Present(Entry(s.mem, table, i)) then s
    else if s.free == {} then Phys(Written(s.mem, table, i, Link(0)), s.free)
    else Phys(Grown(s.mem, table, i, AddrOf(Lowest(s.free))), s.free - {Lowest(s.free)})
  }

  function Next(mem: Memory, table: nat, i: Index): nat {
    Base(Entry(mem, table, i))
  }

  /** The stanzas for a list of indices, and the table they end at. */
  ghost function Path(s: Phys, table: nat, route: seq<Index>): (Phys, nat)
    decreases |route|
  {
    if route == [] then (s, table)
    else
      var s' := Ensured(s, table, route[0]);
      Path(s', Next(s'.mem, table, route[0]), route[1..])
  }

  /** All of map_page below the root it is given. */
  ghost function Mapped(s: Phys, root: nat, v: Vpn, e: nat): Phys {
    var (s', pt) := Path(s, root, [v.i4, v.i3, v.i2]);
    Phys(Written(s'.mem, pt, v.i1, e), s'.free)
  }

  // ----- the invariant -----

  /** A page the allocator has handed out and not taken back. */
  ghost predicate Held(a: nat, free: set<nat>) {
    Managed(a) && a == AddrOf(IndexOf(a)) && IndexOf(a) !in free
  }

  /** The tables form a tree and live on pages that are not free. */
  ghost predicate Good(s: Phys, l: Layout) {
    && Tree(s.mem, l)
    && (forall a :: a in l.at ==> Held(a, s.free))
    && (forall n :: n in s.free ==> n < MAX_PAGES && AddrOf(n) in s.mem)
  }

  /** The free pages that memset can clear. The allocator takes the lowest page first, so it takes these first. */
  function Clearable(free: set<nat>): set<nat> {
    set n | n in free && AddrOf(n) + 4096 <= CLEAR_LIMIT
  }

  lemma LowestIsClearable(free: set<nat>)
    requires Clearable(free) != {}
    ensures free != {} && Lowest(free) in free && AddrOf(Lowest(free)) + 4096 <= CLEAR_LIMIT
    ensures Clearable(free - {Lowest(free)}) == Clearable(free) - {Lowest(free)}
    ensures |Clearable(free - {Lowest(free)})| == |Clearable(free)| - 1
  {
    var n :| n in Clearable(free);
    assert Lowest(free) <= n;
  }

  lemma ClearableIsPart(free: set<nat>)
    ensures |Clearable(free)| <= |free|
  {
    var rest := set n | n in free && n !in Clearable(free);
    assert free == Clearable(free) + rest;
  }

  lemma ClearablePart(free: set<nat>, free': set<nat>)
    requires Clearable(free) == free && free' <= free
    ensures Clearable(free') == free'
  {
  }

  /** Page n holds a table of the given address space. */
  ghost predicate Owns(l: Layout, root: nat, n: nat) {
    AddrOf(n) in l.at && l.at[AddrOf(n)].root == root
  }

  ghost predicate SameWalks(mem: Memory, mem': Memory, l: Layout) {
    forall r, v :: Pml4(r) in l.tabs ==> Walk(mem', r, v) == Walk(mem, r, v)
  }

  /** Tables only get added, below the given root, on pages taken from the free set. */
  ghost predicate Extends(s: Phys, l: Layout, s': Phys, l': Layout, root: nat) {
    && l'.kernel == l.kernel
    && (forall p :: p in l.tabs ==> p in l'.tabs && l'.tabs[p] == l.tabs[p])
    && (forall p :: p in l'.tabs && p !in l.tabs ==> p.root == root && !p.Pml4?)
    && (forall n :: n in s'.free || Owns(l', root, n) <==> n in s.free || Owns(l, root, n))
  }

  /** A step that keeps the invariant and every translation. */
  ghost predicate Quiet(s: Phys, l: Layout, s': Phys, l': Layout, root: nat) {
    Good(s', l') && SameWalks(s.mem, s'.mem, l) && Extends(s, l, s', l', root)
  }

  lemma QuietChains(s: Phys, l: Layout, s1: Phys, l1: Layout, s2: Phys, l2: Layout, root: nat)
    requires Quiet(s, l, s1, l1, root) && Quiet(s1, l1, s2, l2, root)
    ensures Quiet(s, l, s2, l2, root)
  {
    forall r, v | Pml4(r) in l.tabs
      ensures Walk(s2.mem, r, v) == Walk(s.mem, r, v)
    {
      assert Pml4(r) in l1.tabs;
    }
  }

  // ----- one stanza -----

  /** Index i of the table at p leads to a table of the same space, or nowhere yet. */
  ghost predicate MayEnter(mem: Memory, l: Layout, p: Place, i: Index) {
    p in l.tabs && !p.Pt? && (Child(p, i) in l.tabs || Entry(mem, l.tabs[p], i) == 0)
  }

  lemma EntersBelow(mem: Memory, l: Layout, p: Place, i: Index)
    requires Tree(mem, l) && p in l.tabs && !p.Pt? && !p.Pml4?
    ensures MayEnter(mem, l, p, i)
  {
    assert EntryOk(mem, l, p, i);
  }

  lemma EnsureFinds(s: Phys, l: Layout, p: Place, i: Index)
    requires Good(s, l) && MayEnter(s.mem, l, p, i) && Child(p, i) in l.tabs
    ensures Ensured(s, l.tabs[p], i) == s && Next(s.mem, l.tabs[p], i) == l.tabs[Child(p, i)]
  {
    EntryLeadsToChild(s.mem, l, p, i);
  }

  lemma FreshPage(s: Phys, l: Layout, p: Place, i: Index)
    requires Good(s, l) && MayEnter(s.mem, l, p, i) && Child(p, i) !in l.tabs && Clearable(s.free) != {}
    ensures CanGrow(s.mem, l, p, i, AddrOf(Lowest(s.free)))
    ensures Ensured(s, l.tabs[p], i)
         == Phys(Grown(s.mem, l.tabs[p], i, AddrOf(Lowest(s.free))), s.free - {Lowest(s.free)})
  {
    EntryLeadsToChild(s.mem, l, p, i);
    LowestIsClearable(s.free);
    var page := AddrOf(Lowest(s.free));
    assert IndexOf(page) == Lowest(s.free);
  }

  lemma EnsureAddsGood(s: Phys, l: Layout, p: Place, i: Index)
    requires Good(s, l) && MayEnter(s.mem, l, p, i) && Child(p, i) !in l.tabs && Clearable(s.free) != {}
    ensures Good(Ensured(s, l.tabs[p], i), l.Add(Child(p, i), AddrOf(Lowest(s.free))))
  {
    FreshPage(s, l, p, i);
    GrownIsTree(s.mem, l, p, i, AddrOf(Lowest(s.free)));
    HeldAfterAdd(s.free, l, Child(p, i));
  }

  lemma HeldAfterAdd(free: set<nat>, l: Layout, c: Place)
    requires free != {} && (forall n :: n in free ==> n < MAX_PAGES) && forall a :: a in l.at ==> Held(a, free)
    ensures forall a :: a in l.Add(c, AddrOf(Lowest(free))).at ==> Held(a, free - {Lowest(free)})
  {
    assert IndexOf(AddrOf(Lowest(free))) == Lowest(free);
  }

  lemma EnsureAddsWalks(s: Phys, l: Layout, p: Place, i: Index)
    requires Good(s, l) && MayEnter(s.mem, l, p, i) && Child(p, i) !in l.tabs && Clearable(s.free) != {}
    ensures SameWalks(s.mem, Ensured(s, l.tabs[p], i).mem, l)
    ensures Next(Ensured(s, l.tabs[p], i).mem, l.tabs[p], i) == AddrOf(Lowest(s.free))
  {
    FreshPage(s, l, p, i);
    var page := AddrOf(Lowest(s.free));
    forall r, v | Pml4(r) in l.tabs
      ensures Walk(Ensured(s, l.tabs[p], i).mem, r, v) == Walk(s.mem, r, v)
    {
      GrownKeepsWalks(s.mem, l, p, i, page, r, v);
    }
    LinkRoundTrip(page);
  }

  lemma AddedPage(s: Phys, l: Layout, p: Place, i: Index)
    requires Good(s, l) && MayEnter(s.mem, l, p, i) && Child(p, i) !in l.tabs && Clearable(s.free) != {}
    ensures Extends(s, l, Ensured(s, l.tabs[p], i), l.Add(Child(p, i), AddrOf(Lowest(s.free))), p.root)
  {
    FreshPage(s, l, p, i);
    var l' := l.Add(Child(p, i), AddrOf(Lowest(s.free)));
    forall n
      ensures n in s.free - {Lowest(s.free)} || Owns(l', p.root, n) <==> n in s.free || Owns(l, p.root, n)
    {
      AddedOwner(s.free, l, Child(p, i), n);
    }
  }

  lemma AddedOwner(free: set<nat>, l: Layout, c: Place, n: nat)
    requires free != {} && AddrOf(Lowest(free)) !in l.at
    ensures Owns(l.Add(c, AddrOf(Lowest(free))), c.root, n) <==> Owns(l, c.root, n) || n == Lowest(free)
  {
  }

  lemma TakesOnePage(s: Phys, l: Layout, p: Place, i: Index)
    requires Good(s, l) && MayEnter(s.mem, l, p, i) && Child(p, i) !in l.tabs && Clearable(s.free) != {}
    ensures Ensured(s, l.tabs[p], i).free <= s.free
    ensures |Clearable(Ensured(s, l.tabs[p], i).free)| == |Clearable(s.free)| - 1
  {
    FreshPage(s, l, p, i);
    LowestIsClearable(s.free);
  }

  /** With a page to spare, a missing table is added quietly. */
  lemma EnsureAdds(s: Phys, l: Layout, p: Place, i: Index)
    requires Good(s, l) && MayEnter(s.mem, l, p, i) && Child(p, i) !in l.tabs && Clearable(s.free) != {}
    ensures Quiet(s, l, Ensured(s, l.tabs[p], i), l.Add(Child(p, i), AddrOf(Lowest(s.free))), p.root)
  {
    EnsureAddsGood(s, l, p, i);
    EnsureAddsWalks(s, l, p, i);
    AddedPage(s, l, p, i);
  }

  // ----- all stanzas -----

  /** The place reached from p along a route. */
  function Below(p: Place, route: seq<Index>): Place
    decreases |route|
  {
    if route == [] || p.Pt? then p else Below(Child(p, route[0]), route[1..])
  }

  /** How many tables are missing along a route. */
  ghost function Missing(l: Layout, p: Place, route: seq<Index>): (m: nat)
    ensures m <= |route|
    decreases |route|
  {
    if route == [] || p.Pt? then 0
    else if Child(p, route[0]) in l.tabs then Missing(l, Child(p, route[0]), route[1..])
    else |route|
  }

  /** map_page's demand on the allocator, read off memory: one page per absent table. */
  function Needs(mem: Memory, table: nat, route: seq<Index>): nat
    decreases |route|
  {
    if route == [] then 0
    else if Present(Entry(mem, table, route[0])) then Needs(mem, Next(mem, table, route[0]), route[1..])
    else |route|
  }

  lemma {:induction false} NeedsIsMissing(mem: Memory, l: Layout, p: Place, route: seq<Index>)
    requires Tree(mem, l) && Depth(p) + |route| <= 3 && p in l.tabs && (route != [] ==> MayEnter(mem, l, p, route[0]))
    ensures Needs(mem, l.tabs[p], route) == Missing(l, p, route)
    decreases |route|
  {
    if route != [] {
      var c := Child(p, route[0]);
      EntryLeadsToChild(mem, l, p, route[0]);
      if c in l.tabs {
        if |route| > 1 {
          EntersBelow(mem, l, c, route[1]);
        }
        NeedsIsMissing(mem, l, c, route[1..]);
      }
    }
  }

  /** A place on the route from p. */
  predicate On(q: Place, p: Place, route: seq<Index>)
    decreases |route|
  {
    route != [] && !p.Pt? && (q == Child(p, route[0]) || On(q, Child(p, route[0]), route[1..]))
  }

  /** Only tables on the way to one page have been added. */
  ghost predicate GrewTo(l: Layout, l': Layout, root: nat, v: Vpn) {
    forall q :: q in l'.tabs && q !in l.tabs ==>
      q == Pdpt(root, v.i4) || q == Pd(root, v.i4, v.i3) || q == Pt(root, v.i4, v.i3, v.i2)
  }

  lemma OnRoute(root: nat, v: Vpn, q: Place)
    requires On(q, Pml4(root), Route(v))
    ensures q == Pdpt(root, v.i4) || q == Pd(root, v.i4, v.i3) || q == Pt(root, v.i4, v.i3, v.i2)
  {
    var r := Route(v);
    assert r[1..] == [v.i3, v.i2] && [v.i3, v.i2][1..] == [v.i2] && [v.i2][1..] == [];
    assert !On(q, Pt(root, v.i4, v.i3, v.i2), []);
    assert On(q, Pd(root, v.i4, v.i3), [v.i2]) ==> q == Pt(root, v.i4, v.i3, v.i2);
    assert On(q, Pdpt(root, v.i4), [v.i3, v.i2]) ==> q == Pd(root, v.i4, v.i3) || On(q, Pd(root, v.i4, v.i3), [v.i2]);
  }

  lemma QuietStep(s: Phys, l: Layout, p: Place, i: Index) returns (l': Layout)
    requires Good(s, l) && MayEnter(s.mem, l, p, i) && (Child(p, i) in l.tabs || Clearable(s.free) != {})
    ensures Quiet(s, l, Ensured(s, l.tabs[p], i), l', p.root)
    ensures Child(p, i) in l'.tabs && l'.tabs[Child(p, i)] == Next(Ensured(s, l.tabs[p], i).mem, l.tabs[p], i)
    ensures Child(p, i) in l.tabs ==> l' == l && Ensured(s, l.tabs[p], i) == s
    ensures Ensured(s, l.tabs[p], i).free <= s.free
    ensures Child(p, i) !in l.tabs ==> |Clearable(Ensured(s, l.tabs[p], i).free)| == |Clearable(s.free)| - 1
    ensures Child(p, i) !in l.tabs ==> l' == l.Add(Child(p, i), AddrOf(Lowest(s.free)))
  {
    if Child(p, i) in l.tabs {
      EnsureFinds(s, l, p, i);
      l' := l;
    } else {
      EnsureAdds(s, l, p, i);
      EnsureAddsWalks(s, l, p, i);
      TakesOnePage(s, l, p, i);
      l' := l.Add(Child(p, i), AddrOf(Lowest(s.free)));
    }
  }

  lemma MissingAfterAdd(l: Layout, c: Place, page: nat, route: seq<Index>)
    requires Rooted(l) && c !in l.tabs && Depth(c) + |route| <= 3
    ensures Missing(l.Add(c, page), c, route) == |route|
  {
    if route != [] {
      assert Parent(Child(c, route[0])) == c;
    }
  }

  /** With enough pages, the stanzas reach the leaf table and change no translation. */
  lemma {:induction false} PathReaches(s: Phys, l: Layout, p: Place, route: seq<Index>) returns (l': Layout)
    requires Good(s, l) && Depth(p) + |route| <= 3 && p in l.tabs && (route != [] ==> MayEnter(s.mem, l, p, route[0]))
    requires |Clearable(s.free)| >= Missing(l, p, route)
    ensures var (s', t) := Path(s, l.tabs[p], route);
            && Quiet(s, l, s', l', p.root) && Below(p, route) in l'.tabs && t == l'.tabs[Below(p, route)]
            && s'.free <= s.free && |Clearable(s'.free)| == |Clearable(s.free)| - Missing(l, p, route)
    ensures forall q :: q in l'.tabs && q !in l.tabs ==> On(q, p, route)
    decreases |route|
  {
    if route == [] {
      l' := l;
    } else {
      var c, s1 := Child(p, route[0]), Ensured(s, l.tabs[p], route[0]);
      var l1 := QuietStep(s, l, p, route[0]);
      if c !in l.tabs {
        MissingAfterAdd(l, c, AddrOf(Lowest(s.free)), route[1..]);
      }
      if |route| > 1 {
        EntersBelow(s1.mem, l1, c, route[1]);
      }
      l' := PathReaches(s1, l1, c, route[1..]);
      QuietChains(s, l, s1, l1, Path(s1, l1.tabs[c], route[1..]).0, l', p.root);
    }
  }

  // ----- map_page with enough pages -----

  function Route(v: Vpn): seq<Index> {
    [v.i4, v.i3, v.i2]
  }

  /** Space r looks at the same tables as `root` for index i. */
  ghost predicate Sees(mem: Memory, r: nat, i: Index, root: nat) {
    r == root || Entry(mem, r, i) == Entry(mem, root, i) != 0
  }

  lemma PathIsLeaf(root: nat, v: Vpn)
    ensures Below(Pml4(root), Route(v)) == Pt(root, v.i4, v.i3, v.i2)
  {
    var r := Route(v);
    assert r[1..] == [v.i3, v.i2] && [v.i3, v.i2][1..] == [v.i2] && [v.i2][1..] == [];
    assert Below(Pd(root, v.i4, v.i3), [v.i2]) == Pt(root, v.i4, v.i3, v.i2);
    assert Below(Pdpt(root, v.i4), [v.i3, v.i2]) == Below(Pd(root, v.i4, v.i3), [v.i2]);
  }

  lemma AddKeepsRoots(s: Phys, l: Layout, p: Place, j: Index, r: nat, i: Index)
    requires Good(s, l) && MayEnter(s.mem, l, p, j) && Child(p, j) !in l.tabs && Clearable(s.free) != {}
    requires Pml4(r) in l.tabs && r != p.root
    ensures Entry(Ensured(s, l.tabs[p], j).mem, r, i) == Entry(s.mem, r, i)
  {
    FreshPage(s, l, p, j);
  }

  /** The stanzas write only below `root`. */
  lemma {:induction false} PathKeepsRoots(s: Phys, l: Layout, p: Place, route: seq<Index>, r: nat, i: Index)
    requires Good(s, l) && Depth(p) + |route| <= 3 && p in l.tabs && (route != [] ==> MayEnter(s.mem, l, p, route[0]))
    requires |Clearable(s.free)| >= Missing(l, p, route) && Pml4(r) in l.tabs && r != p.root
    ensures Entry(Path(s, l.tabs[p], route).0.mem, r, i) == Entry(s.mem, r, i)
    decreases |route|
  {
    if route != [] {
      var c, s1 := Child(p, route[0]), Ensured(s, l.tabs[p], route[0]);
      var l1 := QuietStep(s, l, p, route[0]);
      if c !in l.tabs {
        MissingAfterAdd(l, c, AddrOf(Lowest(s.free)), route[1..]);
        AddKeepsRoots(s, l, p, route[0], r, i);
      }
      if |route| > 1 {
        EntersBelow(s1.mem, l1, c, route[1]);
      }
      PathKeepsRoots(s1, l1, c, route[1..], r, i);
    }
  }

  /** Within their own root they lose no entry. */
  lemma {:induction false} PathKeepsOwn(s: Phys, l: Layout, p: Place, route: seq<Index>, i: Index)
    requires Good(s, l) && Depth(p) + |route| <= 3 && p in l.tabs && (route != [] ==> MayEnter(s.mem, l, p, route[0]))
    requires |Clearable(s.free)| >= Missing(l, p, route) && Pml4(p.root) in l.tabs && Entry(s.mem, p.root, i) != 0
    ensures Entry(Path(s, l.tabs[p], route).0.mem, p.root, i) == Entry(s.mem, p.root, i)
    decreases |route|
  {
    if route != [] {
      var c, s1 := Child(p, route[0]), Ensured(s, l.tabs[p], route[0]);
      var l1 := QuietStep(s, l, p, route[0]);
      StepKeepsRoots(s, l, p, route[0]);
      if c !in l.tabs {
        MissingAfterAdd(l, c, AddrOf(Lowest(s.free)), route[1..]);
      }
      if |route| > 1 {
        EntersBelow(s1.mem, l1, c, route[1]);
      }
      PathKeepsOwn(s1, l1, c, route[1..], i);
    }
  }

  /** Other spaces see the tables of `root` for an index only through entries copied from the kernel. */
  lemma SeesIsShared(mem: Memory, l: Layout, r: nat, i: Index, root: nat)
    requires Tree(mem, l) && Pml4(r) in l.tabs && r != root && MayEnter(mem, l, Pml4(root), i)
    ensures Sees(mem, r, i, root) <==> root == l.kernel && Pdpt(r, i) !in l.tabs && Entry(mem, r, i) != 0
  {
    assert EntryOk(mem, l, Pml4(r), i) && EntryOk(mem, l, Pml4(root), i);
  }

  /** map_page under an index whose tables belong to the root itself. */
  lemma MapOwn(s: Phys, l: Layout, root: nat, v: Vpn, e: nat) returns (l': Layout)
    requires Good(s, l) && MayEnter(s.mem, l, Pml4(root), v.i4)
    requires |Clearable(s.free)| >= Missing(l, Pml4(root), Route(v))
    ensures var s' := Mapped(s, root, v, e);
            && Good(s', l') && Extends(s, l, s', l', root) && GrewTo(l, l', root, v)
            && s'.free <= s.free && |Clearable(s'.free)| == |Clearable(s.free)| - Missing(l, Pml4(root), Route(v))
    ensures Pt(root, v.i4, v.i3, v.i2) in l'.tabs
    ensures forall r, w :: Pml4(r) in l.tabs ==>
              Walk(Mapped(s, root, v, e).mem, r, w)
              == if w == v && Sees(s.mem, r, v.i4, root) then e else Walk(s.mem, r, w)
  {
    l' := PathReaches(s, l, Pml4(root), Route(v));
    PathIsLeaf(root, v);
    var (s1, pt) := Path(s, root, Route(v));
    var leaf := Pt(root, v.i4, v.i3, v.i2);
    WrittenIsTree(s1.mem, l', leaf, v.i1, e);
    forall q | q in l'.tabs && q !in l.tabs
      ensures q == Pdpt(root, v.i4) || q == Pd(root, v.i4, v.i3) || q == leaf
    {
      OnRoute(root, v, q);
    }
    forall r, w | Pml4(r) in l.tabs
      ensures Walk(Mapped(s, root, v, e).mem, r, w)
           == if w == v && Sees(s.mem, r, v.i4, root) then e else Walk(s.mem, r, w)
    {
      OwnerAfterPath(s, l, s1, l', root, v, r);
      WrittenWalks(s1.mem, l', leaf, v.i1, e, r, w);
    }
  }

  lemma OwnerAfterPath(s: Phys, l: Layout, s1: Phys, l': Layout, root: nat, v: Vpn, r: nat)
    requires Good(s, l) && MayEnter(s.mem, l, Pml4(root), v.i4)
    requires |Clearable(s.free)| >= Missing(l, Pml4(root), Route(v))
    requires s1 == Path(s, root, Route(v)).0 && Pml4(r) in l.tabs && Extends(s, l, s1, l', root) && Rooted(l')
    requires GrewTo(l, l', root, v) && Pt(root, v.i4, v.i3, v.i2) in l'.tabs
    ensures Owner(s1.mem, l', r, v.i4) == root <==> Sees(s.mem, r, v.i4, root)
  {
    assert Parent(Pt(root, v.i4, v.i3, v.i2)) == Pd(root, v.i4, v.i3);
    assert Parent(Pd(root, v.i4, v.i3)) == Pdpt(root, v.i4);
    if r != root {
      SeesIsShared(s.mem, l, r, v.i4, root);
      PathKeepsRoots(s, l, Pml4(root), Route(v), r, v.i4);
    }
  }

  /** A shared entry leads map_page into the kernel's tables. */
  lemma SharedMap(s: Phys, l: Layout, root: nat, v: Vpn, e: nat)
    requires Good(s, l) && Pml4(root) in l.tabs && Owner(s.mem, l, root, v.i4) != root
    ensures Owner(s.mem, l, root, v.i4) == l.kernel && Entry(s.mem, root, v.i4) == Entry(s.mem, l.kernel, v.i4) != 0
    ensures MayEnter(s.mem, l, Pml4(l.kernel), v.i4)
    ensures Mapped(s, root, v, e) == Mapped(s, l.kernel, v, e)
    ensures Needs(s.mem, root, Route(v)) == Needs(s.mem, l.kernel, Route(v))
  {
    EntryLeadsToChild(s.mem, l, Pml4(root), v.i4);
    EntryLeadsToChild(s.mem, l, Pml4(l.kernel), v.i4);
    assert EntryOk(s.mem, l, Pml4(l.kernel), v.i4);
  }

  /** map_page is a one-key update of the translation, in every address space at once: wherever the root
      and the address, the page gets the entry in the spaces that look at the same tables. */
  lemma MapInstalls(s: Phys, l: Layout, root: nat, v: Vpn, e: nat) returns (l': Layout)
    requires Good(s, l) && Pml4(root) in l.tabs && |Clearable(s.free)| >= Needs(s.mem, root, Route(v))
    ensures var s', o := Mapped(s, root, v, e), Owner(s.mem, l, root, v.i4);
            && Good(s', l') && Extends(s, l, s', l', o) && GrewTo(l, l', o, v)
            && s'.free <= s.free && |Clearable(s'.free)| == |Clearable(s.free)| - Needs(s.mem, root, Route(v))
            && Pt(o, v.i4, v.i3, v.i2) in l'.tabs
    ensures forall r, w :: Pml4(r) in l.tabs ==>
              Walk(Mapped(s, root, v, e).mem, r, w)
              == if w == v && Sees(s.mem, r, v.i4, root) then e else Walk(s.mem, r, w)
  {
    if Owner(s.mem, l, root, v.i4) == root {
      assert EntryOk(s.mem, l, Pml4(root), v.i4);
      NeedsIsMissing(s.mem, l, Pml4(root), Route(v));
      l' := MapOwn(s, l, root, v, e);
    } else {
      SharedMap(s, l, root, v, e);
      NeedsIsMissing(s.mem, l, Pml4(l.kernel), Route(v));
      l' := MapOwn(s, l, l.kernel, v, e);
      forall r
        ensures Sees(s.mem, r, v.i4, root) <==> Sees(s.mem, r, v.i4, l.kernel)
      {
      }
    }
  }

  // ----- map_page without enough pages -----

  /** Following present entries from a page of z stays in z. */
  ghost predicate Contained(mem: Memory, z: set<nat>) {
    forall a, j: Index :: a in z && Present(Entry(mem, a, j)) ==> Base(Entry(mem, a, j)) in z
  }

  /** Where the null page leads, read as a table: nowhere near a table or a free page. On a machine whose
      page 0 holds other data, z is everything that data points to. */
  ghost predicate Stray(s: Phys, l: Layout, z: set<nat>) {
    && 0 in z && Contained(s.mem, z)
    && (forall a :: a in l.at ==> a !in z)
    && (forall n :: n in s.free ==> AddrOf(n) !in z)
  }

  ghost predicate OnlyIn(mem: Memory, mem': Memory, z: set<nat>) {
    forall a: nat, j: Index :: a !in z ==> Entry(mem', a, j) == Entry(mem, a, j)
  }

  lemma WriteInside(mem: Memory, z: set<nat>, t: nat, i: Index)
    requires Contained(mem, z) && t in z && 0 in z
    ensures Contained(Written(mem, t, i, Link(0)), z)
  {
    LinkRoundTrip(0);
    var mem' := Written(mem, t, i, Link(0));
    assert forall a, j: Index :: Entry(mem', a, j) == Entry(mem, a, j) || Entry(mem', a, j) == Link(0);
  }

  lemma WriteOutside(mem: Memory, z: set<nat>, t: nat, i: Index, e: nat)
    requires Contained(mem, z) && t !in z
    ensures Contained(Written(mem, t, i, e), z)
  {
    var mem' := Written(mem, t, i, e);
    assert forall a, j: Index :: a in z ==> Entry(mem', a, j) == Entry(mem, a, j);
  }

  /** Once it has run out of pages and off the tables, map_page scribbles inside z and nowhere else. */
  lemma {:induction false} PathAstray(s: Phys, t: nat, route: seq<Index>, z: set<nat>)
    requires s.free == {} && 0 in z && t in z && Contained(s.mem, z)
    ensures var (s', t') := Path(s, t, route);
            t' in z && s'.free == {} && Contained(s'.mem, z) && OnlyIn(s.mem, s'.mem, z)
    decreases |route|
  {
    if route != [] {
      var s1 := Ensured(s, t, route[0]);
      LinkRoundTrip(0);
      WriteInside(s.mem, z, t, route[0]);
      PathAstray(s1, Next(s1.mem, t, route[0]), route[1..], z);
    }
  }

  /** The first table missing along a route. */
  function Gap(l: Layout, p: Place, route: seq<Index>): (Place, Index)
    requires route != []
    decreases |route|
  {
    if !p.Pt? && Child(p, route[0]) in l.tabs && |route| > 1 then Gap(l, Child(p, route[0]), route[1..])
    else (p, route[0])
  }

  /** An entry for a missing table has become a present one with a null base. */
  ghost predicate NullAtGap(mem: Memory, l: Layout, p: Place, route: seq<Index>) {
    route != [] && var (q, i) := Gap(l, p, route); q in l.tabs && Entry(mem, l.tabs[q], i) == Link(0)
  }

  lemma NullLink(mem: Memory, mem': Memory, l: Layout, p: Place, i: Index)
    requires Tree(mem, l) && Hollowed(mem, mem', l) && p in l.tabs && !p.Pt? && Entry(mem, l.tabs[p], i) == 0
    ensures Hollowed(mem, Written(mem', l.tabs[p], i, Link(0)), l)
    ensures l.tabs[p] in mem' ==> Entry(Written(mem', l.tabs[p], i, Link(0)), l.tabs[p], i) == Link(0)
  {
    var mem'' := Written(mem', l.tabs[p], i, Link(0));
    forall q, j: Index | q in l.tabs
      ensures HollowEntry(mem, mem'', l, q, j)
    {
      assert HollowEntry(mem, mem', l, q, j);
    }
  }

  lemma OnlyInHollow(mem: Memory, mem1: Memory, mem2: Memory, l: Layout, z: set<nat>)
    requires Separate(mem, l) && Hollowed(mem, mem1, l) && OnlyIn(mem1, mem2, z) && forall a :: a in l.at ==> a !in z
    ensures Hollowed(mem, mem2, l)
    ensures forall p, i: Index :: p in l.tabs ==> Entry(mem2, l.tabs[p], i) == Entry(mem1, l.tabs[p], i)
  {
    forall p, i: Index | p in l.tabs
      ensures HollowEntry(mem, mem2, l, p, i)
    {
      assert HollowEntry(mem, mem1, l, p, i);
    }
  }

  /** With no page left, the stanzas stop at the first missing table: they leave a null link there, wander off
      into z, and change no entry of a table otherwise. `mem` is the tree before any of this happened. */
  lemma {:induction false} PathHollows(s: Phys, mem: Memory, l: Layout, p: Place, route: seq<Index>, z: set<nat>)
    requires Tree(mem, l) && Hollowed(mem, s.mem, l) && s.free == {} && Stray(s, l, z) && TablesIn(s.mem, l)
    requires Depth(p) + |route| <= 3 && p in l.tabs && Missing(l, p, route) > 0 && MayEnter(mem, l, p, route[0])
    ensures var (s', t) := Path(s, l.tabs[p], route);
            && t in z && s'.free == {} && Hollowed(mem, s'.mem, l) && Stray(s', l, z)
            && NullAtGap(s'.mem, l, p, route) && TablesIn(s'.mem, l)
    decreases |route|
  {
    var c, s1 := Child(p, route[0]), Ensured(s, l.tabs[p], route[0]);
    assert HollowEntry(mem, s.mem, l, p, route[0]);
    EntryLeadsToChild(mem, l, p, route[0]);
    LinkRoundTrip(0);
    if c in l.tabs {
      EntersBelow(mem, l, c, route[1]);
      PathHollows(s, mem, l, c, route[1..], z);
    } else {
      NullLink(mem, s.mem, l, p, route[0]);
      WriteOutside(s.mem, z, l.tabs[p], route[0], Link(0));
      PathAstray(s1, 0, route[1..], z);
      var s' := Path(s1, 0, route[1..]).0;
      OnlyInHollow(mem, s1.mem, s'.mem, l, z);
      StillThere(s1, 0, route[1..], l);
    }
  }

  /** The tables' pages are part of memory. */
  ghost predicate TablesIn(mem: Memory, l: Layout) {
    forall p :: p in l.tabs ==> l.tabs[p] in mem
  }

  lemma {:induction false} StillThere(s: Phys, t: nat, route: seq<Index>, l: Layout)
    requires TablesIn(s.mem, l)
    ensures TablesIn(Path(s, t, route).0.mem, l)
    decreases |route|
  {
    if route != [] {
      var s1 := Ensured(s, t, route[0]);
      StillThere(s1, Next(s1.mem, t, route[0]), route[1..], l);
    }
  }

  lemma {:induction false} GapMeetsNull(mem: Memory, mem': Memory, l: Layout, p: Place, route: seq<Index>)
    requires Tree(mem, l) && Hollowed(mem, mem', l) && p in l.tabs && Depth(p) + |route| <= 3
    requires Missing(l, p, route) > 0 && MayEnter(mem, l, p, route[0]) && NullAtGap(mem', l, p, route)
    ensures MeetsNull(mem', l.tabs[p], route)
    decreases |route|
  {
    var c := Child(p, route[0]);
    if c in l.tabs {
      EntryLeadsToChild(mem, l, p, route[0]);
      assert HollowEntry(mem, mem', l, p, route[0]);
      EntersBelow(mem, l, c, route[1]);
      GapMeetsNull(mem, mem', l, c, route[1..]);
    }
  }

  lemma StrayAfterAdd(s: Phys, l: Layout, p: Place, i: Index, z: set<nat>)
    requires Good(s, l) && MayEnter(s.mem, l, p, i) && Child(p, i) !in l.tabs && Clearable(s.free) != {}
    requires Stray(s, l, z)
    ensures Stray(Ensured(s, l.tabs[p], i), l.Add(Child(p, i), AddrOf(Lowest(s.free))), z)
  {
    FreshPage(s, l, p, i);
    var s' := Ensured(s, l.tabs[p], i);
    assert forall a, j: Index :: a in z ==> Entry(s'.mem, a, j) == Entry(s.mem, a, j);
  }

  /** What is left when the pages run out on the way: a tree `mem` with layout `l'` that translates as before, of which
      memory is a hollowed copy with a null link on the route. */
  ghost predicate Starved(s: Phys, l: Layout, s': Phys, mem: Memory, l': Layout, p: Place, route: seq<Index>,
                          z: set<nat>) {
    && Tree(mem, l') && SameWalks(s.mem, mem, l) && KeepsRoots(s.mem, mem, l) && l'.kernel == l.kernel
    && (forall q :: q in l.tabs ==> q in l'.tabs && l'.tabs[q] == l.tabs[q])
    && s'.free == {} && Hollowed(mem, s'.mem, l') && Stray(s', l', z) && TablesIn(s'.mem, l')
    && p in l'.tabs && Depth(p) + |route| <= 3 && Missing(l', p, route) > 0 && MayEnter(mem, l', p, route[0])
    && NullAtGap(s'.mem, l', p, route)
  }

  /** No entry of a root is lost. */
  ghost predicate KeepsRoots(mem: Memory, mem': Memory, l: Layout) {
    forall r, i: Index :: Pml4(r) in l.tabs && Entry(mem, r, i) != 0 ==> Entry(mem', r, i) == Entry(mem, r, i)
  }

  lemma StepKeepsRoots(s: Phys, l: Layout, p: Place, i: Index)
    requires Good(s, l) && MayEnter(s.mem, l, p, i) && (Child(p, i) in l.tabs || Clearable(s.free) != {})
    ensures KeepsRoots(s.mem, Ensured(s, l.tabs[p], i).mem, l)
  {
    if Child(p, i) in l.tabs {
      EnsureFinds(s, l, p, i);
    } else {
      FreshPage(s, l, p, i);
    }
  }

  lemma {:induction false} PathStarves(s: Phys, l: Layout, p: Place, route: seq<Index>, z: set<nat>)
    returns (mem: Memory, l': Layout)
    requires Good(s, l) && Depth(p) + |route| <= 3 && p in l.tabs && (route != [] ==> MayEnter(s.mem, l, p, route[0]))
    requires Clearable(s.free) == s.free && |s.free| < Missing(l, p, route) && Stray(s, l, z)
    ensures Starved(s, l, Path(s, l.tabs[p], route).0, mem, l', p, route, z) && Path(s, l.tabs[p], route).1 in z
    ensures forall q :: q in l'.tabs && q !in l.tabs ==> On(q, p, route)
    decreases |route|
  {
    var c, s1 := Child(p, route[0]), Ensured(s, l.tabs[p], route[0]);
    if c !in l.tabs && s.free == {} {
      mem, l' := s.mem, l;
      PathHollows(s, s.mem, l, p, route, z);
    } else {
      var l1 := QuietStep(s, l, p, route[0]);
      if c !in l.tabs {
        MissingAfterAdd(l, c, AddrOf(Lowest(s.free)), route[1..]);
        StrayAfterAdd(s, l, p, route[0], z);
      }
      ClearablePart(s.free, s1.free);
      EntersBelow(s1.mem, l1, c, route[1]);
      mem, l' := PathStarves(s1, l1, c, route[1..], z);
      StepKeepsRoots(s, l, p, route[0]);
      StarvedBelow(s, l, s1, l1, Path(s, l.tabs[p], route).0, mem, l', p, route, z);
    }
  }

  lemma StarvedBelow(s: Phys, l: Layout, s1: Phys, l1: Layout, s': Phys, mem: Memory, l': Layout,
                     p: Place, route: seq<Index>, z: set<nat>)
    requires p in l.tabs && !p.Pt? && route != [] && Depth(p) + |route| <= 3 && Child(p, route[0]) in l1.tabs
    requires SameWalks(s.mem, s1.mem, l) && KeepsRoots(s.mem, s1.mem, l) && l1.kernel == l.kernel
    requires forall q :: q in l.tabs ==> q in l1.tabs && l1.tabs[q] == l.tabs[q]
    requires Starved(s1, l1, s', mem, l', Child(p, route[0]), route[1..], z)
    ensures Starved(s, l, s', mem, l', p, route, z)
  {
    forall r, v | Pml4(r) in l.tabs
      ensures Walk(mem, r, v) == Walk(s.mem, r, v)
    {
      assert Pml4(r) in l1.tabs;
    }
  }

  lemma StarvedWrite(s: Phys, l: Layout, s': Phys, mem: Memory, l': Layout, p: Place, route: seq<Index>, z: set<nat>,
                     t: nat, i: Index, e: nat)
    requires Starved(s, l, s', mem, l', p, route, z) && t in z
    ensures var mem' := Written(s'.mem, t, i, e);
            Hollowed(mem, mem', l') && NullAtGap(mem', l', p, route) && TablesIn(mem', l')
  {
    OnlyInHollow(mem, s'.mem, Written(s'.mem, t, i, e), l', z);
  }

  lemma MapOwnStarves(s: Phys, l: Layout, root: nat, v: Vpn, e: nat, z: set<nat>)
    returns (mem: Memory, l': Layout)
    requires Good(s, l) && MayEnter(s.mem, l, Pml4(root), v.i4)
    requires Clearable(s.free) == s.free && |s.free| < Missing(l, Pml4(root), Route(v)) && Stray(s, l, z)
    ensures Tree(mem, l') && Hollowed(mem, Mapped(s, root, v, e).mem, l') && SameWalks(s.mem, mem, l)
    ensures KeepsRoots(s.mem, mem, l) && forall q :: q in l.tabs ==> q in l'.tabs && l'.tabs[q] == l.tabs[q]
    ensures MeetsNull(Mapped(s, root, v, e).mem, root, Route(v))
  {
    mem, l' := PathStarves(s, l, Pml4(root), Route(v), z);
    var (s1, t) := Path(s, root, Route(v));
    StarvedWrite(s, l, s1, mem, l', Pml4(root), Route(v), z, t, v.i1, e);
    GapMeetsNull(mem, Mapped(s, root, v, e).mem, l', Pml4(root), Route(v));
  }

  lemma HollowSameWalks(mem0: Memory, mem: Memory, mem': Memory, l: Layout, l': Layout)
    requires Tree(mem, l') && Hollowed(mem, mem', l') && SameWalks(mem0, mem, l)
    requires forall q :: q in l.tabs ==> q in l'.tabs
    ensures SameWalks(mem0, mem', l)
  {
    forall r, w | Pml4(r) in l.tabs
      ensures Walk(mem', r, w) == Walk(mem0, r, w)
    {
      HollowKeepsWalks(mem, mem', l', r, w);
    }
  }

  lemma SharedMeetsNull(s: Phys, l: Layout, root: nat, v: Vpn, mem: Memory, mem': Memory, l': Layout)
    requires Good(s, l) && Pml4(root) in l.tabs && Owner(s.mem, l, root, v.i4) != root
    requires Tree(mem, l') && Hollowed(mem, mem', l') && KeepsRoots(s.mem, mem, l)
    requires forall q :: q in l.tabs ==> q in l'.tabs
    requires MeetsNull(mem', l.kernel, Route(v))
    ensures MeetsNull(mem', root, Route(v))
  {
    SharedMap(s, l, root, v, 0);
    assert HollowEntry(mem, mem', l', Pml4(root), v.i4) && HollowEntry(mem, mem', l', Pml4(l.kernel), v.i4);
  }

  /** With too few pages map_page installs nothing that get_phys_addr finds in any address space, and changes nothing
      that it finds; no layout whatever makes a tree of what is left under the root. */
  lemma MapStarves(s: Phys, l: Layout, root: nat, v: Vpn, e: nat, z: set<nat>)
    requires Good(s, l) && Pml4(root) in l.tabs && Stray(s, l, z)
    requires Clearable(s.free) == s.free && |s.free| < Needs(s.mem, root, Route(v))
    ensures SameWalks(s.mem, Mapped(s, root, v, e).mem, l)
    ensures Walk(Mapped(s, root, v, e).mem, root, v) == 0
    ensures forall k: Layout :: Pml4(root) in k.tabs ==> !Tree(Mapped(s, root, v, e).mem, k)
  {
    var mem, l';
    var mem' := Mapped(s, root, v, e).mem;
    if Owner(s.mem, l, root, v.i4) == root {
      assert EntryOk(s.mem, l, Pml4(root), v.i4);
      NeedsIsMissing(s.mem, l, Pml4(root), Route(v));
      mem, l' := MapOwnStarves(s, l, root, v, e, z);
    } else {
      SharedMap(s, l, root, v, e);
      NeedsIsMissing(s.mem, l, Pml4(l.kernel), Route(v));
      mem, l' := MapOwnStarves(s, l, l.kernel, v, e, z);
      SharedMeetsNull(s, l, root, v, mem, mem', l');
    }
    HollowSameWalks(s.mem, mem, mem', l, l');
    NeedsMeansUnmapped(s.mem, l, root, v);
    forall k: Layout | Pml4(root) in k.tabs && Tree(mem', k)
      ensures false
    {
      TreeMeetsNoNull(mem', k, Pml4(root), Route(v));
    }
  }

  /** A page number whose tables are missing is unmapped. */
  lemma NeedsMeansUnmapped(mem: Memory, l: Layout, root: nat, v: Vpn)
    requires Tree(mem, l) && Pml4(root) in l.tabs && Needs(mem, root, Route(v)) > 0
    ensures Walk(mem, root, v) == 0
  {
    WalkReadsLeaf(mem, l, root, v);
    EntryLeadsToChild(mem, l, Pml4(root), v.i4);
    var o := Owner(mem, l, root, v.i4);
    if o != root {
      EntryLeadsToChild(mem, l, Pml4(o), v.i4);
      assert Needs(mem, root, Route(v)) == Needs(mem, o, Route(v));
    }
    assert EntryOk(mem, l, Pml4(o), v.i4);
    NeedsIsMissing(mem, l, Pml4(o), Route(v));
    PathIsLeaf(o, v);
    MissingBelow(l, Pml4(o), Route(v));
  }

  lemma {:induction false} MissingBelow(l: Layout, p: Place, route: seq<Index>)
    requires Rooted(l) && Missing(l, p, route) > 0
    ensures Below(p, route) !in l.tabs
    decreases |route|
  {
    var c := Child(p, route[0]);
    if c in l.tabs {
      MissingBelow(l, c, route[1..]);
    } else {
      NothingBelow(l, c, route[1..]);
    }
  }

  lemma {:induction false} NothingBelow(l: Layout, p: Place, route: seq<Index>)
    requires Rooted(l) && p !in l.tabs
    ensures Below(p, route) !in l.tabs
    decreases |route|
  {
    if route != [] && !p.Pt? {
      assert Parent(Child(p, route[0])) == p;
      NothingBelow(l, Child(p, route[0]), route[1..]);
    }
  }

  /** The pages that k allocations take, as many as there are, can be cleared. */
  ghost predicate Clean(free: set<nat>, k: nat) {
    |Clearable(free)| >= k || Clearable(free) == free
  }

  /** The exact condition: get_phys_addr finds a page mapped as asked if and only if the allocator had a page
      for every missing table. */
  lemma MapInstallsIff(s: Phys, l: Layout, root: nat, v: Vpn, e: nat, z: set<nat>)
    requires Good(s, l) && Pml4(root) in l.tabs && Stray(s, l, z) && e != 0
    requires Clean(s.free, Needs(s.mem, root, Route(v)))
    ensures Walk(Mapped(s, root, v, e).mem, root, v) == e <==> |s.free| >= Needs(s.mem, root, Route(v))
  {
    if |Clearable(s.free)| >= Needs(s.mem, root, Route(v)) {
      ClearableIsPart(s.free);
      var l' := MapInstalls(s, l, root, v, e);
    } else {
      MapStarves(s, l, root, v, e, z);
    }
  }

  /** The plain case: page 0 has no entry that leads anywhere but to itself. */
  lemma InertPageZero(s: Phys, l: Layout)
    requires Good(s, l) && forall j: Index :: Present(Entry(s.mem, 0, j)) ==> Base(Entry(s.mem, 0, j)) == 0
    ensures Stray(s, l, {0})
  {
  }

  // ----- a leaf table on a page that memset may not reach -----

  /** Every walk of every space: through the new leaf table it finds what the page held, but for the entry that
      map_page writes; all others are as before. */
  lemma NewLeafWalk(s: Phys, l: Layout, root: nat, v: Vpn, e: nat, r: nat, w: Vpn)
    requires Tree(s.mem, l) && Pd(root, v.i4, v.i3) in l.tabs && Pt(root, v.i4, v.i3, v.i2) !in l.tabs
    requires s.free != {} && AddrOf(Lowest(s.free)) !in l.at && Pml4(r) in l.tabs
    ensures Walk(Mapped(s, root, v, e).mem, r, w)
            == if Pt(Owner(s.mem, l, r, w.i4), w.i4, w.i3, w.i2) != Pt(root, v.i4, v.i3, v.i2) then Walk(s.mem, r, w)
               else if w.i1 == v.i1 then e else Cleared(s.mem, AddrOf(Lowest(s.free)))[w.i1]
  {
    var d, page := Pd(root, v.i4, v.i3), AddrOf(Lowest(s.free));
    assert EntryOk(s.mem, l, d, v.i2);
    PathToNewLeaf(s, l, root, v);
    DirtyWalk(s.mem, l, d, v.i2, page, r, w);
    var mem1, l1, leaf := Grown(s.mem, l.tabs[d], v.i2, page), l.Add(Child(d, v.i2), page), Child(d, v.i2);
    WrittenWalks(mem1, l1, leaf, v.i1, e, r, w);
    assert Owner(mem1, l1, r, w.i4) == Owner(s.mem, l, r, w.i4);
  }

  lemma PathToNewLeaf(s: Phys, l: Layout, root: nat, v: Vpn)
    requires Tree(s.mem, l) && Pd(root, v.i4, v.i3) in l.tabs && Pt(root, v.i4, v.i3, v.i2) !in l.tabs
    requires s.free != {} && AddrOf(Lowest(s.free)) !in l.at
    ensures var page := AddrOf(Lowest(s.free));
            Path(s, root, Route(v))
            == (Phys(Grown(s.mem, l.tabs[Pd(root, v.i4, v.i3)], v.i2, page), s.free - {Lowest(s.free)}), page)
  {
    var d := Pd(root, v.i4, v.i3);
    assert Parent(d) in l.tabs && Parent(Parent(d)) == Pml4(root);
    EntryLeadsToChild(s.mem, l, Pml4(root), v.i4);
    EntryLeadsToChild(s.mem, l, Pdpt(root, v.i4), v.i3);
    assert EntryOk(s.mem, l, d, v.i2);
    LinkRoundTrip(AddrOf(Lowest(s.free)));
    var r := Route(v);
    assert r[1..] == [v.i3, v.i2] && [v.i3, v.i2][1..] == [v.i2] && [v.i2][1..] == [];
    assert Path(s, root, r) == Path(s, l.tabs[d], [v.i2]);
    var s' := Ensured(s, l.tabs[d], v.i2);
    assert Path(s', AddrOf(Lowest(s.free)), []) == (s', AddrOf(Lowest(s.free)));
  }

  /** When map_page makes a leaf table, it changes no translation of any space but the one asked for exactly when
      the page it takes reads as zeros elsewhere: memset reached it, or it was blank already. */
  lemma NewLeafCleanIff(s: Phys, l: Layout, root: nat, v: Vpn, e: nat)
    requires Tree(s.mem, l) && Pd(root, v.i4, v.i3) in l.tabs && Pt(root, v.i4, v.i3, v.i2) !in l.tabs
    requires s.free != {} && AddrOf(Lowest(s.free)) !in l.at && AddrOf(Lowest(s.free)) in s.mem
    ensures (forall r, w :: Pml4(r) in l.tabs && (w != v || Owner(s.mem, l, r, v.i4) != root) ==>
               Walk(Mapped(s, root, v, e).mem, r, w) == Walk(s.mem, r, w))
            <==> (|| AddrOf(Lowest(s.free)) + 4096 <= CLEAR_LIMIT
                  || forall j: Index :: j != v.i1 ==> s.mem[AddrOf(Lowest(s.free))][j] == 0)
  {
    var page, mem' := AddrOf(Lowest(s.free)), Mapped(s, root, v, e).mem;
    OwnLeaf(s.mem, l, Pd(root, v.i4, v.i3));
    if page + 4096 <= CLEAR_LIMIT || forall j: Index :: j != v.i1 ==> s.mem[page][j] == 0 {
      forall r, w | Pml4(r) in l.tabs && (w != v || Owner(s.mem, l, r, v.i4) != root)
        ensures Walk(mem', r, w) == Walk(s.mem, r, w)
      {
        NewLeafWalk(s, l, root, v, e, r, w);
        WalkReadsLeaf(s.mem, l, r, w);
      }
    } else {
      var j: Index :| j != v.i1 && s.mem[page][j] != 0;
      NewLeafWalk(s, l, root, v, e, root, v.(i1 := j));
      WalkReadsLeaf(s.mem, l, root, v.(i1 := j));
      assert Walk(mem', root, v.(i1 := j)) != Walk(s.mem, root, v.(i1 := j));
    }
  }
}
