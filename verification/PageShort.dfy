/** map_page of kernel/paging.c when the allocator has too few pages: what get_phys_addr then finds, and what the
    processor, which follows a present link to page 0 as it follows any other. */
module PageShort {
  import opened Bytes
  import opened Pmm
  import opened PageTree
  import opened PageMaps

  // ----- null links in a directory -----

  /** Memory is the tree `mem`, but for null links at the indices `cs` of directory d, where it has no tables. */
  ghost predicate Nulled(mem: Memory, mem': Memory, l: Layout, d: Place, cs: set<nat>) {
    && d in l.tabs && d.Pd? && (forall c: Index :: c in cs ==> Child(d, c) !in l.tabs)
    && forall p, i: Index :: p in l.tabs ==> NulledEntry(mem, mem', l, d, cs, p, i)
  }

  ghost predicate NulledEntry(mem: Memory, mem': Memory, l: Layout, d: Place, cs: set<nat>, p: Place, i: Index)
    requires p in l.tabs
  {
    Entry(mem', l.tabs[p], i) == if p == d && i in cs then Link(0) else Entry(mem, l.tabs[p], i)
  }

  /** The walk to w passes directory d. */
  ghost predicate PassesBy(mem: Memory, l: Layout, d: Place, r: nat, w: Vpn)
    requires d.Pd?
  {
    Owner(mem, l, r, w.i4) == d.root && w.i4 == d.i4 && w.i3 == d.i3
  }

  /** get_phys_addr sees nothing of the null links. The processor takes page 0 for the leaf table. */
  lemma NulledWalks(mem: Memory, mem': Memory, l: Layout, d: Place, cs: set<nat>, r: nat, w: Vpn)
    requires Tree(mem, l) && Nulled(mem, mem', l, d, cs) && Pml4(r) in l.tabs
    ensures Walk(mem', r, w) == Walk(mem, r, w)
    ensures PresentWalk(mem', r, w)
            == if PassesBy(mem, l, d, r, w) && w.i2 in cs then Entry(mem', 0, w.i1) else Walk(mem, r, w)
  {
    var o := Owner(mem, l, r, w.i4);
    WalkReadsLeaf(mem, l, r, w);
    assert NulledEntry(mem, mem', l, d, cs, Pml4(r), w.i4);
    EntryLeadsToChild(mem, l, Pml4(r), w.i4);
    if Pdpt(o, w.i4) in l.tabs {
      assert NulledEntry(mem, mem', l, d, cs, Pdpt(o, w.i4), w.i3);
      EntryLeadsToChild(mem, l, Pdpt(o, w.i4), w.i3);
      if Pd(o, w.i4, w.i3) in l.tabs {
        EntryLeadsToChild(mem, l, Pd(o, w.i4, w.i3), w.i2);
        NulledLeaf(mem, mem', l, d, cs, o, w);
      }
    }
  }

  lemma NulledLeaf(mem: Memory, mem': Memory, l: Layout, d: Place, cs: set<nat>, o: nat, w: Vpn)
    requires Tree(mem, l) && Nulled(mem, mem', l, d, cs) && Pd(o, w.i4, w.i3) in l.tabs
    ensures var p, q := Pd(o, w.i4, w.i3), Pt(o, w.i4, w.i3, w.i2);
            var e := Entry(mem', l.tabs[p], w.i2);
            && (p == d && w.i2 in cs ==> q !in l.tabs && Present(e) && Base(e) == 0)
            && (!(p == d && w.i2 in cs) ==> e == Entry(mem, l.tabs[p], w.i2))
            && (q in l.tabs ==> Entry(mem', l.tabs[q], w.i1) == Entry(mem, l.tabs[q], w.i1))
  {
    LinkRoundTrip(0);
    assert NulledEntry(mem, mem', l, d, cs, Pd(o, w.i4, w.i3), w.i2);
    if Pt(o, w.i4, w.i3, w.i2) in l.tabs {
      assert NulledEntry(mem, mem', l, d, cs, Pt(o, w.i4, w.i3, w.i2), w.i1);
    }
  }

  // ----- the stanza that finds no page -----

  /** What map_page does when all but the leaf table is there and no page is left: a null link into the
      directory, the leaf entry onto page 0. */
  ghost function Nullified(mem: Memory, pd: nat, v: Vpn, e: nat): Memory {
    Written(Written(mem, pd, v.i2, Link(0)), 0, v.i1, e)
  }

  lemma LastStanza(s: Phys, pd: nat, i: Index)
    requires s.free == {} && pd in s.mem && (Entry(s.mem, pd, i) == 0 || Entry(s.mem, pd, i) == Link(0))
    ensures Path(s, pd, [i]) == (Phys(Written(s.mem, pd, i, Link(0)), {}), 0)
  {
    LinkRoundTrip(0);
    assert [i][1..] == [];
    var s' := Ensured(s, pd, i);
    assert Entry(s.mem, pd, i) == Link(0) ==> s.mem[pd][i := Link(0)] == s.mem[pd] && s.mem[pd := s.mem[pd]] == s.mem;
    assert s' == Phys(Written(s.mem, pd, i, Link(0)), {});
    assert Path(s', 0, []) == (s', 0);
  }

  lemma NullifiedIsNulled(mem: Memory, mem': Memory, l: Layout, d: Place, cs: set<nat>, v: Vpn, e: nat)
    requires Separate(mem, l) && Nulled(mem, mem', l, d, cs) && TablesIn(mem', l) && Child(d, v.i2) !in l.tabs
    ensures Nulled(mem, Nullified(mem', l.tabs[d], v, e), l, d, cs + {v.i2})
    ensures TablesIn(Nullified(mem', l.tabs[d], v, e), l)
    ensures forall j: Index :: Entry(Nullified(mem', l.tabs[d], v, e), 0, j)
                               == if 0 in mem' && j == v.i1 then e else Entry(mem', 0, j)
  {
    var mem'' := Nullified(mem', l.tabs[d], v, e);
    forall p, i: Index | p in l.tabs
      ensures NulledEntry(mem, mem'', l, d, cs + {v.i2}, p, i)
    {
      assert NulledEntry(mem, mem', l, d, cs, p, i);
    }
  }

  /** One more call below a directory without leaf tables. */
  lemma StarvedCall(s: Phys, mem: Memory, l: Layout, d: Place, cs: set<nat>, v: Vpn, e: nat)
    requires Tree(mem, l) && Nulled(mem, s.mem, l, d, cs) && TablesIn(s.mem, l) && s.free == {}
    requires v.i4 == d.i4 && v.i3 == d.i3 && Child(d, v.i2) !in l.tabs
    ensures Mapped(s, d.root, v, e) == Phys(Nullified(s.mem, l.tabs[d], v, e), {})
  {
    assert Parent(d) in l.tabs && Parent(Parent(d)) == Pml4(d.root);
    assert NulledEntry(mem, s.mem, l, d, cs, Pml4(d.root), v.i4) && NulledEntry(mem, s.mem, l, d, cs, Parent(d), v.i3);
    assert NulledEntry(mem, s.mem, l, d, cs, d, v.i2) && EntryOk(mem, l, d, v.i2);
    EntryLeadsToChild(mem, l, Pml4(d.root), v.i4);
    EntryLeadsToChild(mem, l, Parent(d), v.i3);
    var r := Route(v);
    assert r[1..] == [v.i3, v.i2] && [v.i3, v.i2][1..] == [v.i2];
    assert Path(s, d.root, r) == Path(s, l.tabs[d], [v.i2]);
    LastStanza(s, l.tabs[d], v.i2);
  }

  // ----- one page short -----

  /** One page short: everything but the leaf table is made, quietly, and then comes the null link. */
  lemma OnePageShort(s: Phys, l: Layout, root: nat, v: Vpn, e: nat) returns (mem: Memory, l': Layout)
    requires Good(s, l) && MayEnter(s.mem, l, Pml4(root), v.i4)
    requires Clearable(s.free) == s.free && |s.free| + 1 == Missing(l, Pml4(root), Route(v))
    ensures Tree(mem, l') && SameWalks(s.mem, mem, l) && l'.kernel == l.kernel && GrewTo(l, l', root, v)
    ensures forall q :: q in l.tabs ==> q in l'.tabs
    ensures Pd(root, v.i4, v.i3) in l'.tabs && Pt(root, v.i4, v.i3, v.i2) !in l'.tabs
    ensures Mapped(s, root, v, e) == Phys(Nullified(mem, l'.tabs[Pd(root, v.i4, v.i3)], v, e), {})
    ensures forall r :: Pml4(r) in l.tabs && r != root ==> Entry(mem, r, v.i4) == Entry(s.mem, r, v.i4)
    ensures (0 in mem <==> 0 in s.mem) && forall j: Index :: Entry(mem, 0, j) == Entry(s.mem, 0, j)
  {
    l' := ReachDirectory(s, l, root, v);
    var up := [v.i4, v.i3];
    var (s2, pd) := Path(s, root, up);
    mem := s2.mem;
    MissingUp(l, root, v);
    forall r | Pml4(r) in l.tabs && r != root
      ensures Entry(mem, r, v.i4) == Entry(s.mem, r, v.i4)
    {
      PathKeepsRoots(s, l, Pml4(root), up, r, v.i4);
    }
    PathKeepsPage(s, l, Pml4(root), up, 0);
    PathSplit(s, root, v);
    assert EntryOk(mem, l', Pd(root, v.i4, v.i3), v.i2);
    LastStanza(s2, pd, v.i2);
  }

  /** A page that is neither a table nor free. */
  ghost predicate Outside(s: Phys, l: Layout, a: nat) {
    a !in l.at && forall n :: n in s.free ==> AddrOf(n) != a
  }

  lemma StanzaKeepsPage(s: Phys, l: Layout, p: Place, i: Index, l1: Layout, a: nat)
    requires Good(s, l) && MayEnter(s.mem, l, p, i) && (Child(p, i) in l.tabs || Clearable(s.free) != {})
    requires l1 == (if Child(p, i) in l.tabs then l else
                    LowestIsClearable(s.free); l.Add(Child(p, i), AddrOf(Lowest(s.free))))
    requires Outside(s, l, a)
    ensures var s1 := Ensured(s, l.tabs[p], i);
            Outside(s1, l1, a) && (a in s1.mem <==> a in s.mem) && (a in s.mem ==> s1.mem[a] == s.mem[a])
  {
    if Child(p, i) in l.tabs {
      EnsureFinds(s, l, p, i);
    } else {
      FreshPage(s, l, p, i);
      LowestIsClearable(s.free);
    }
  }

  /** The stanzas touch no page that is neither a table nor free. */
  lemma {:induction false} PathKeepsPage(s: Phys, l: Layout, p: Place, route: seq<Index>, a: nat)
    requires Good(s, l) && Depth(p) + |route| <= 3 && p in l.tabs && (route != [] ==> MayEnter(s.mem, l, p, route[0]))
    requires |Clearable(s.free)| >= Missing(l, p, route) && Outside(s, l, a)
    ensures var mem := Path(s, l.tabs[p], route).0.mem; (a in mem <==> a in s.mem) && (a in mem ==> mem[a] == s.mem[a])
    decreases |route|
  {
    if route != [] {
      var c, s1 := Child(p, route[0]), Ensured(s, l.tabs[p], route[0]);
      var l1 := QuietStep(s, l, p, route[0]);
      StanzaKeepsPage(s, l, p, route[0], l1, a);
      if c !in l.tabs {
        MissingAfterAdd(l, c, AddrOf(Lowest(s.free)), route[1..]);
      }
      if |route| > 1 {
        EntersBelow(s1.mem, l1, c, route[1]);
      }
      PathKeepsPage(s1, l1, c, route[1..], a);
    }
  }

  lemma ReachDirectory(s: Phys, l: Layout, root: nat, v: Vpn) returns (l': Layout)
    requires Good(s, l) && MayEnter(s.mem, l, Pml4(root), v.i4)
    requires Clearable(s.free) == s.free && |s.free| + 1 == Missing(l, Pml4(root), Route(v))
    ensures var (s2, pd) := Path(s, root, [v.i4, v.i3]);
            && Good(s2, l') && SameWalks(s.mem, s2.mem, l) && s2.free == {} && l'.kernel == l.kernel
            && Pd(root, v.i4, v.i3) in l'.tabs && pd == l'.tabs[Pd(root, v.i4, v.i3)]
    ensures (forall q :: q in l.tabs ==> q in l'.tabs) && GrewTo(l, l', root, v)
    ensures Pt(root, v.i4, v.i3, v.i2) !in l'.tabs
  {
    var up := [v.i4, v.i3];
    MissingUp(l, root, v);
    l' := PathReaches(s, l, Pml4(root), up);
    ClearablePart(s.free, Path(s, root, up).0.free);
    assert up[1..] == [v.i3] && [v.i3][1..] == [];
    assert Below(Pdpt(root, v.i4), [v.i3]) == Pd(root, v.i4, v.i3);
    forall q | q in l'.tabs && q !in l.tabs
      ensures q == Pdpt(root, v.i4) || q == Pd(root, v.i4, v.i3)
    {
      OnShortRoute(root, v, q);
    }
    PathIsLeaf(root, v);
    MissingBelow(l, Pml4(root), Route(v));
  }

  lemma OnShortRoute(root: nat, v: Vpn, q: Place)
    requires On(q, Pml4(root), [v.i4, v.i3])
    ensures q == Pdpt(root, v.i4) || q == Pd(root, v.i4, v.i3)
  {
    var up := [v.i4, v.i3];
    assert up[1..] == [v.i3] && [v.i3][1..] == [];
    assert !On(q, Pd(root, v.i4, v.i3), []);
    assert On(q, Pdpt(root, v.i4), [v.i3]) ==> q == Pd(root, v.i4, v.i3);
  }

  lemma PathSplit(s: Phys, root: nat, v: Vpn)
    ensures var (s2, pd) := Path(s, root, [v.i4, v.i3]); Path(s, root, Route(v)) == Path(s2, pd, [v.i2])
  {
    var r, up := Route(v), [v.i4, v.i3];
    assert r[1..] == [v.i3, v.i2] && [v.i3, v.i2][1..] == [v.i2] && up[1..] == [v.i3] && [v.i3][1..] == [];
    var s1 := Ensured(s, root, v.i4);
    var t1 := Next(s1.mem, root, v.i4);
    assert Path(s1, t1, [v.i3]) == (Ensured(s1, t1, v.i3), Next(Ensured(s1, t1, v.i3).mem, t1, v.i3));
  }

  /** If the leaf table is missing, one fewer is missing above it. */
  lemma MissingUp(l: Layout, root: nat, v: Vpn)
    requires Missing(l, Pml4(root), Route(v)) > 0
    ensures Missing(l, Pml4(root), [v.i4, v.i3]) + 1 == Missing(l, Pml4(root), Route(v))
    ensures Pt(root, v.i4, v.i3, v.i2) in l.tabs ==> Pd(root, v.i4, v.i3) !in l.tabs || Pdpt(root, v.i4) !in l.tabs
  {
    var r, up := Route(v), [v.i4, v.i3];
    assert r[1..] == [v.i3, v.i2] && [v.i3, v.i2][1..] == [v.i2] && [v.i2][1..] == [];
    assert up[1..] == [v.i3] && [v.i3][1..] == [];
    var a, b, c := Pdpt(root, v.i4), Pd(root, v.i4, v.i3), Pt(root, v.i4, v.i3, v.i2);
    assert Missing(l, c, []) == 0 && Missing(l, b, []) == 0;
    assert Missing(l, b, [v.i2]) == if c in l.tabs then 0 else 1;
    assert Missing(l, a, [v.i3, v.i2]) == if b in l.tabs then Missing(l, b, [v.i2]) else 2;
    assert Missing(l, a, [v.i3]) == if b in l.tabs then 0 else 1;
  }

  // ----- one page short, in every space -----

  lemma OwnerAfterUp(s: Phys, l: Layout, root: nat, v: Vpn, mem: Memory, l': Layout, r: nat)
    requires Tree(s.mem, l) && MayEnter(s.mem, l, Pml4(root), v.i4) && Pml4(r) in l.tabs && Tree(mem, l')
    requires l'.kernel == l.kernel && GrewTo(l, l', root, v) && Pd(root, v.i4, v.i3) in l'.tabs
    requires forall q :: q in l.tabs ==> q in l'.tabs
    requires r != root ==> Entry(mem, r, v.i4) == Entry(s.mem, r, v.i4)
    ensures Owner(mem, l', r, v.i4) == root <==> Sees(s.mem, r, v.i4, root)
  {
    assert Parent(Pd(root, v.i4, v.i3)) == Pdpt(root, v.i4);
    if r != root {
      SeesIsShared(s.mem, l, r, v.i4, root);
    }
  }

  /** The pages that share their leaf table with v in the spaces that see the same tables. */
  ghost predicate SameLeaf(mem: Memory, root: nat, v: Vpn, r: nat, w: Vpn) {
    Sees(mem, r, v.i4, root) && w.i4 == v.i4 && w.i3 == v.i3 && w.i2 == v.i2
  }

  /** What the processor finds one page short: page 0 as the leaf table. */
  ghost function ThroughNull(mem: Memory, root: nat, v: Vpn, e: nat, r: nat, w: Vpn): nat {
    if !SameLeaf(mem, root, v, r, w) then Walk(mem, r, w)
    else if w.i1 == v.i1 && 0 in mem then e
    else Entry(mem, 0, w.i1)
  }

  lemma OneShortOwn(s: Phys, l: Layout, root: nat, v: Vpn, e: nat, r: nat, w: Vpn)
    requires Good(s, l) && MayEnter(s.mem, l, Pml4(root), v.i4) && Pml4(r) in l.tabs
    requires Clearable(s.free) == s.free && |s.free| + 1 == Missing(l, Pml4(root), Route(v))
    ensures Walk(Mapped(s, root, v, e).mem, r, w) == Walk(s.mem, r, w)
    ensures PresentWalk(Mapped(s, root, v, e).mem, r, w) == ThroughNull(s.mem, root, v, e, r, w)
  {
    var mem, l' := OnePageShort(s, l, root, v, e);
    OwnerAfterUp(s, l, root, v, mem, l', r);
    OneNull(mem, l', root, v, e, r, w);
  }

  /** A tree after one null link and the store on page 0. */
  lemma OneNull(mem: Memory, l: Layout, root: nat, v: Vpn, e: nat, r: nat, w: Vpn)
    requires Tree(mem, l) && Pd(root, v.i4, v.i3) in l.tabs && Pt(root, v.i4, v.i3, v.i2) !in l.tabs
    requires Pml4(r) in l.tabs
    ensures var mem' := Nullified(mem, l.tabs[Pd(root, v.i4, v.i3)], v, e);
            && Walk(mem', r, w) == Walk(mem, r, w)
            && PresentWalk(mem', r, w)
               == if Owner(mem, l, r, w.i4) == root && w.i4 == v.i4 && w.i3 == v.i3 && w.i2 == v.i2
                  then if 0 in mem && w.i1 == v.i1 then e else Entry(mem, 0, w.i1)
                  else Walk(mem, r, w)
  {
    var d := Pd(root, v.i4, v.i3);
    assert forall p, i: Index :: p in l.tabs ==> NulledEntry(mem, mem, l, d, {}, p, i);
    NullifiedIsNulled(mem, mem, l, d, {}, v, e);
    NulledWalks(mem, Nullified(mem, l.tabs[d], v, e), l, d, {} + {v.i2}, r, w);
  }

  /** One page short, whatever page 0 holds: get_phys_addr finds every translation of every space as it was. The
      processor finds the entry on page 0, and for the other pages of that leaf table what page 0 held there. */
  lemma OneShortOutcome(s: Phys, l: Layout, root: nat, v: Vpn, e: nat, r: nat, w: Vpn)
    requires Good(s, l) && Pml4(root) in l.tabs && Pml4(r) in l.tabs
    requires Clearable(s.free) == s.free && |s.free| + 1 == Needs(s.mem, root, Route(v))
    ensures Walk(Mapped(s, root, v, e).mem, r, w) == Walk(s.mem, r, w)
    ensures PresentWalk(Mapped(s, root, v, e).mem, r, w) == ThroughNull(s.mem, root, v, e, r, w)
  {
    if Owner(s.mem, l, root, v.i4) == root {
      assert EntryOk(s.mem, l, Pml4(root), v.i4);
      NeedsIsMissing(s.mem, l, Pml4(root), Route(v));
      OneShortOwn(s, l, root, v, e, r, w);
    } else {
      SharedMap(s, l, root, v, e);
      NeedsIsMissing(s.mem, l, Pml4(l.kernel), Route(v));
      OneShortOwn(s, l, l.kernel, v, e, r, w);
    }
  }

  // ----- any number short, with a blank page 0 -----

  /** Page 0 is there and has no entries but null links. */
  ghost predicate OnlyNulls(mem: Memory) {
    0 in mem && forall j: Index :: Entry(mem, 0, j) == 0 || Entry(mem, 0, j) == Link(0)
  }

  /** Present entries lead along the route, to tables as long as m more steps remain and to page 0 from then on. */
  ghost predicate ZeroFrom(mem: Memory, t: nat, route: seq<Index>, m: nat)
    decreases |route|
  {
    && (t == 0 <==> |route| < m)
    && (route != [] ==> Present(Entry(mem, t, route[0]))
                        && ZeroFrom(mem, Base(Entry(mem, t, route[0])), route[1..], m))
  }

  /** The stanzas overwrite no present entry. */
  lemma {:induction false} PathKeepsPresent(s: Phys, t: nat, route: seq<Index>, a: nat, i: Index)
    requires Present(Entry(s.mem, a, i)) && forall n :: n in s.free ==> AddrOf(n) != a
    ensures Entry(Path(s, t, route).0.mem, a, i) == Entry(s.mem, a, i)
    decreases |route|
  {
    if route != [] {
      var s1 := Ensured(s, t, route[0]);
      PathKeepsPresent(s1, Next(s1.mem, t, route[0]), route[1..], a, i);
    }
  }

  /** A stanza on page 0. */
  lemma NullStanza(s: Phys, i: Index)
    requires s.free == {} && OnlyNulls(s.mem)
    ensures var s1 := Ensured(s, 0, i);
            && s1.free == {} && OnlyNulls(s1.mem) && Entry(s1.mem, 0, i) == Link(0) && Next(s1.mem, 0, i) == 0
            && forall a: nat, j: Index :: a != 0 ==> Entry(s1.mem, a, j) == Entry(s.mem, a, j)
  {
    LinkRoundTrip(0);
    var s1 := Ensured(s, 0, i);
    assert forall j: Index :: Entry(s1.mem, 0, j) == Entry(s.mem, 0, j) || Entry(s1.mem, 0, j) == Link(0);
  }

  lemma {:induction false} NullsAstray(s: Phys, route: seq<Index>, s': Phys, t: nat)
    requires s.free == {} && OnlyNulls(s.mem) && (s', t) == Path(s, 0, route)
    ensures t == 0 && OnlyNulls(s'.mem) && ZeroFrom(s'.mem, 0, route, |route| + 1)
    ensures forall a: nat, j: Index :: a != 0 ==> Entry(s'.mem, a, j) == Entry(s.mem, a, j)
    decreases |route|
  {
    if route != [] {
      var s1 := Ensured(s, 0, route[0]);
      NullStanza(s, route[0]);
      assert Path(s, 0, route) == Path(s1, 0, route[1..]);
      NullsAstray(s1, route[1..], s', t);
      NullStays(s1, route[1..], route[0], s');
      ZeroOnNull(s'.mem, route);
    }
  }

  lemma NullStays(s: Phys, route: seq<Index>, i: Index, s': Phys)
    requires s.free == {} && Entry(s.mem, 0, i) == Link(0) && s' == Path(s, 0, route).0
    ensures Entry(s'.mem, 0, i) == Link(0)
  {
    LinkRoundTrip(0);
    PathKeepsPresent(s, 0, route, 0, i);
  }

  lemma ZeroOnNull(mem: Memory, route: seq<Index>)
    requires route != [] && Entry(mem, 0, route[0]) == Link(0) && ZeroFrom(mem, 0, route[1..], |route|)
    ensures ZeroFrom(mem, 0, route, |route| + 1)
  {
    LinkRoundTrip(0);
    ZeroMore(mem, 0, route[1..], |route|, |route| + 1);
  }

  lemma {:induction false} ZeroMore(mem: Memory, t: nat, route: seq<Index>, m: nat, n: nat)
    requires ZeroFrom(mem, t, route, m) && |route| < m <= n
    ensures ZeroFrom(mem, t, route, n)
    decreases |route|
  {
    if route != [] {
      ZeroMore(mem, Base(Entry(mem, t, route[0])), route[1..], m, n);
    }
  }

  lemma GapOnNulls(s: Phys, l: Layout, p: Place, route: seq<Index>)
    requires Good(s, l) && s.free == {} && p in l.tabs && !p.Pt? && route != [] && OnlyNulls(s.mem)
    requires MayEnter(s.mem, l, p, route[0]) && Child(p, route[0]) !in l.tabs
    ensures var (s', t) := Path(s, l.tabs[p], route);
            t == 0 && OnlyNulls(s'.mem) && ZeroFrom(s'.mem, l.tabs[p], route, |route|)
  {
    LinkRoundTrip(0);
    var s1 := Ensured(s, l.tabs[p], route[0]);
    assert s1 == Phys(Written(s.mem, l.tabs[p], route[0], Link(0)), {});
    assert forall j: Index :: Entry(s1.mem, 0, j) == Entry(s.mem, 0, j);
    NullsAstray(s1, route[1..], Path(s1, 0, route[1..]).0, Path(s1, 0, route[1..]).1);
  }

  lemma NullsStay(s: Phys, l: Layout, p: Place, i: Index)
    requires Good(s, l) && MayEnter(s.mem, l, p, i) && OnlyNulls(s.mem)
    requires Clearable(s.free) == s.free && (Child(p, i) in l.tabs || s.free != {})
    ensures OnlyNulls(Ensured(s, l.tabs[p], i).mem)
  {
    if Child(p, i) in l.tabs {
      EnsureFinds(s, l, p, i);
    } else {
      FreshPage(s, l, p, i);
      var mem' := Ensured(s, l.tabs[p], i).mem;
      assert forall j: Index :: Entry(mem', 0, j) == Entry(s.mem, 0, j);
    }
  }

  /** A stanza that finds its table, or a page for it, leaves the route as many pages short as it was. */
  lemma StaysShort(s: Phys, l: Layout, p: Place, route: seq<Index>, l1: Layout)
    requires Good(s, l) && Depth(p) + |route| <= 3 && p in l.tabs && |route| > 1 && MayEnter(s.mem, l, p, route[0])
    requires Clearable(s.free) == s.free && (Child(p, route[0]) in l.tabs || s.free != {})
    requires var c, s1 := Child(p, route[0]), Ensured(s, l.tabs[p], route[0]);
             && s1.free <= s.free && (c in l.tabs ==> l1 == l && s1 == s)
             && (c !in l.tabs ==>
                   l1 == l.Add(c, AddrOf(Lowest(s.free))) && |Clearable(s1.free)| == |Clearable(s.free)| - 1)
    ensures var c, s1 := Child(p, route[0]), Ensured(s, l.tabs[p], route[0]);
            && Clearable(s1.free) == s1.free
            && Missing(l1, c, route[1..]) - |s1.free| == Missing(l, p, route) - |s.free|
  {
    var c := Child(p, route[0]);
    ClearablePart(s.free, Ensured(s, l.tabs[p], route[0]).free);
    if c !in l.tabs {
      MissingAfterAdd(l, c, AddrOf(Lowest(s.free)), route[1..]);
    }
  }

  /** Its entry is present and stays so. */
  lemma EntryStays(s: Phys, l: Layout, p: Place, i: Index, l1: Layout, route: seq<Index>)
    requires Good(s, l) && MayEnter(s.mem, l, p, i) && Good(Ensured(s, l.tabs[p], i), l1)
    requires Ensured(s, l.tabs[p], i).free <= s.free && Child(p, i) in l1.tabs && p in l1.tabs
    requires l1.tabs[p] == l.tabs[p]
    ensures var s1 := Ensured(s, l.tabs[p], i);
            var x := Entry(Path(s1, l1.tabs[Child(p, i)], route).0.mem, l.tabs[p], i);
            l.tabs[p] != 0 && Present(x) && Base(x) == l1.tabs[Child(p, i)] == Next(s1.mem, l.tabs[p], i)
  {
    var s1 := Ensured(s, l.tabs[p], i);
    EntryLeadsToChild(s1.mem, l1, p, i);
    assert Held(l.tabs[p], s.free);
    PathKeepsPresent(s1, l1.tabs[Child(p, i)], route, l.tabs[p], i);
  }

  lemma ZeroStep(mem: Memory, t: nat, route: seq<Index>, m: nat)
    requires route != [] && t != 0 && |route| >= m && Present(Entry(mem, t, route[0]))
    requires ZeroFrom(mem, Base(Entry(mem, t, route[0])), route[1..], m)
    ensures ZeroFrom(mem, t, route, m)
  {
  }

  /** m pages short, the stanzas end on page 0, and so do the entries they leave. */
  lemma {:induction false} ShortOnNulls(s: Phys, l: Layout, p: Place, route: seq<Index>, m: nat, s': Phys, t: nat)
    requires Good(s, l) && Depth(p) + |route| <= 3 && p in l.tabs && (route != [] ==> MayEnter(s.mem, l, p, route[0]))
    requires Clearable(s.free) == s.free && OnlyNulls(s.mem) && m > 0 && |s.free| + m == Missing(l, p, route)
    requires (s', t) == Path(s, l.tabs[p], route)
    ensures t == 0 && OnlyNulls(s'.mem) && ZeroFrom(s'.mem, l.tabs[p], route, m)
    decreases |route|
  {
    var c, s1 := Child(p, route[0]), Ensured(s, l.tabs[p], route[0]);
    if c !in l.tabs && s.free == {} {
      GapOnNulls(s, l, p, route);
    } else {
      var l1 := QuietStep(s, l, p, route[0]);
      StaysShort(s, l, p, route, l1);
      NullsStay(s, l, p, route[0]);
      EntersBelow(s1.mem, l1, c, route[1]);
      EntryStays(s, l, p, route[0], l1, route[1..]);
      ShortOnNulls(s1, l1, c, route[1..], m, s', t);
      ZeroStep(s'.mem, l.tabs[p], route, m);
    }
  }

  /** The store of the entry falls on an entry of the way, m pages short. */
  predicate Collides(v: Vpn, m: nat) {
    (m >= 2 && v.i1 == v.i2) || (m >= 3 && v.i1 == v.i3)
  }

  /** Where the processor goes then: through the frame that was to be mapped. */
  function Onward(mem: Memory, frame: nat, v: Vpn, m: nat): nat {
    if m >= 3 && v.i1 == v.i3
    then
      var x := Entry(mem, frame, v.i2);
      if Present(x) then Entry(mem, Base(x), v.i1) else 0
    else Entry(mem, frame, v.i1)
  }

  lemma WalkOnNulls(mem: Memory, root: nat, v: Vpn, e: nat, m: nat)
    requires ZeroFrom(mem, root, Route(v), m) && 1 <= m <= 3 && 0 in mem && Present(e)
    ensures var mem' := Written(mem, 0, v.i1, e);
            PresentWalk(mem', root, v) == if Collides(v, m) then Onward(mem', Base(e), v, m) else e
  {
    var r := Route(v);
    assert r[1..] == [v.i3, v.i2] && [v.i3, v.i2][1..] == [v.i2] && [v.i2][1..] == [];
    var t1 := Base(Entry(mem, root, v.i4));
    var t2 := Base(Entry(mem, t1, v.i3));
    var t3 := Base(Entry(mem, t2, v.i2));
    assert ZeroFrom(mem, t1, [v.i3, v.i2], m) && ZeroFrom(mem, t2, [v.i2], m) && ZeroFrom(mem, t3, [], m);
  }

  /** m pages short with a blank page 0, the processor finds the entry unless its index in the leaf table is that
      of a table on the way that page 0 stands for. */
  lemma ShortOutcome(s: Phys, l: Layout, root: nat, v: Vpn, e: nat)
    requires Good(s, l) && Pml4(root) in l.tabs && Clearable(s.free) == s.free && OnlyNulls(s.mem) && Present(e)
    requires |s.free| < Needs(s.mem, root, Route(v))
    ensures var m, mem' := Needs(s.mem, root, Route(v)) - |s.free|, Mapped(s, root, v, e).mem;
            PresentWalk(mem', root, v) == if Collides(v, m) then Onward(mem', Base(e), v, m) else e
  {
    var m := Needs(s.mem, root, Route(v)) - |s.free|;
    if Owner(s.mem, l, root, v.i4) == root {
      assert EntryOk(s.mem, l, Pml4(root), v.i4);
      NeedsIsMissing(s.mem, l, Pml4(root), Route(v));
      ShortOnNulls(s, l, Pml4(root), Route(v), m, Path(s, root, Route(v)).0, Path(s, root, Route(v)).1);
    } else {
      SharedShort(s, l, root, v, m);
    }
    WalkOnNulls(Path(s, root, Route(v)).0.mem, root, v, e, m);
  }

  lemma SharedShort(s: Phys, l: Layout, root: nat, v: Vpn, m: nat)
    requires Good(s, l) && Pml4(root) in l.tabs && Clearable(s.free) == s.free && OnlyNulls(s.mem)
    requires Owner(s.mem, l, root, v.i4) != root && m > 0 && |s.free| + m == Needs(s.mem, root, Route(v))
    ensures var (s', t) := Path(s, root, Route(v));
            t == 0 && OnlyNulls(s'.mem) && ZeroFrom(s'.mem, root, Route(v), m)
  {
    SharedMap(s, l, root, v, 0);
    NeedsIsMissing(s.mem, l, Pml4(l.kernel), Route(v));
    var (s', t) := Path(s, l.kernel, Route(v));
    assert Path(s, root, Route(v)) == (s', t);
    ShortOnNulls(s, l, Pml4(l.kernel), Route(v), m, s', t);
    SharedEntry(s, l, root, v.i4, s', Route(v));
    SharedZero(s'.mem, l.kernel, root, Route(v), m);
  }

  lemma SharedEntry(s: Phys, l: Layout, root: nat, i: Index, s': Phys, route: seq<Index>)
    requires Good(s, l) && Pml4(root) in l.tabs && Entry(s.mem, root, i) == Entry(s.mem, l.kernel, i) != 0
    requires s' == Path(s, l.kernel, route).0
    ensures root != 0 && Entry(s'.mem, root, i) == Entry(s'.mem, l.kernel, i)
  {
    EntryLeadsToChild(s.mem, l, Pml4(root), i);
    assert Held(root, s.free) && Held(l.kernel, s.free);
    PathKeepsPresent(s, l.kernel, route, root, i);
    PathKeepsPresent(s, l.kernel, route, l.kernel, i);
  }

  lemma SharedZero(mem: Memory, r: nat, r': nat, route: seq<Index>, m: nat)
    requires ZeroFrom(mem, r, route, m) && route != [] && r != 0 && r' != 0
    requires Entry(mem, r, route[0]) == Entry(mem, r', route[0])
    ensures ZeroFrom(mem, r', route, m)
  {
  }

  // ----- the exact condition -----

  lemma {:induction false} ShortKeepsPage(s: Phys, l: Layout, p: Place, route: seq<Index>, a: nat, j: Index)
    requires Good(s, l) && Depth(p) + |route| <= 3 && p in l.tabs && (route != [] ==> MayEnter(s.mem, l, p, route[0]))
    requires Clearable(s.free) == s.free && OnlyNulls(s.mem) && |s.free| < Missing(l, p, route)
    requires a != 0 && Outside(s, l, a)
    ensures Entry(Path(s, l.tabs[p], route).0.mem, a, j) == Entry(s.mem, a, j)
    decreases |route|
  {
    var c, s1 := Child(p, route[0]), Ensured(s, l.tabs[p], route[0]);
    if c !in l.tabs && s.free == {} {
      LinkRoundTrip(0);
      assert forall i: Index :: Entry(s1.mem, 0, i) == Entry(s.mem, 0, i);
      NullsAstray(s1, route[1..], Path(s1, 0, route[1..]).0, Path(s1, 0, route[1..]).1);
    } else {
      var l1 := QuietStep(s, l, p, route[0]);
      StaysShort(s, l, p, route, l1);
      NullsStay(s, l, p, route[0]);
      EntersBelow(s1.mem, l1, c, route[1]);
      StanzaKeepsPage(s, l, p, route[0], l1, a);
      ShortKeepsPage(s1, l1, c, route[1..], a, j);
    }
  }

  /** A frame that is no table, not page 0, and blank. */
  ghost predicate BlankFrame(s: Phys, l: Layout, a: nat) {
    && a != 0 && Outside(s, l, a)
    && forall j: Index :: Entry(s.mem, a, j) == 0
  }

  lemma FrameStaysBlank(s: Phys, l: Layout, root: nat, v: Vpn, e: nat, j: Index)
    requires Good(s, l) && Pml4(root) in l.tabs && Clearable(s.free) == s.free && OnlyNulls(s.mem)
    requires |s.free| < Needs(s.mem, root, Route(v)) && BlankFrame(s, l, Base(e))
    ensures Entry(Mapped(s, root, v, e).mem, Base(e), j) == 0
  {
    if Owner(s.mem, l, root, v.i4) == root {
      assert EntryOk(s.mem, l, Pml4(root), v.i4);
      NeedsIsMissing(s.mem, l, Pml4(root), Route(v));
      OwnFrame(s, l, root, v, e, j);
    } else {
      SharedMap(s, l, root, v, e);
      NeedsIsMissing(s.mem, l, Pml4(l.kernel), Route(v));
      OwnFrame(s, l, l.kernel, v, e, j);
    }
  }

  lemma OwnFrame(s: Phys, l: Layout, root: nat, v: Vpn, e: nat, j: Index)
    requires Good(s, l) && MayEnter(s.mem, l, Pml4(root), v.i4) && Clearable(s.free) == s.free && OnlyNulls(s.mem)
    requires |s.free| < Missing(l, Pml4(root), Route(v)) && BlankFrame(s, l, Base(e))
    ensures Entry(Mapped(s, root, v, e).mem, Base(e), j) == 0
  {
    var (s', t) := Path(s, root, Route(v));
    ShortOnNulls(s, l, Pml4(root), Route(v), Missing(l, Pml4(root), Route(v)) - |s.free|, s', t);
    ShortKeepsPage(s, l, Pml4(root), Route(v), Base(e), j);
  }

  /** With a blank page 0 and a blank frame: m pages short, the processor finds the page mapped as asked exactly
      when the store of the entry falls on no entry of the way. */
  lemma ShortInstallsIff(s: Phys, l: Layout, root: nat, v: Vpn, e: nat)
    requires Good(s, l) && Pml4(root) in l.tabs && Clearable(s.free) == s.free && OnlyNulls(s.mem) && Present(e)
    requires |s.free| < Needs(s.mem, root, Route(v)) && BlankFrame(s, l, Base(e))
    ensures PresentWalk(Mapped(s, root, v, e).mem, root, v) == e
            <==> !Collides(v, Needs(s.mem, root, Route(v)) - |s.free|)
  {
    ShortOutcome(s, l, root, v, e);
    FrameStaysBlank(s, l, root, v, e, v.i1);
    FrameStaysBlank(s, l, root, v, e, v.i2);
  }
}
