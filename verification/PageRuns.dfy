/** Whole runs of kernel/paging.c: any number of address spaces, created, mapped into, unmapped from and freed
    in any order. */
module PageRuns {
  import opened Pmm
  import opened PageTree
  import opened PageMaps
  import opened PageSpaces

  /** Physical memory and free pages, the kernel's root, and the roots of the user spaces that exist. */
  datatype System = System(s: Phys, kernel: nat, spaces: set<nat>)

  datatype Op =
    | NewSpace
    | Map(root: nat, v: Vpn, e: nat)
    | Unmap(root: nat, v: Vpn)
    | Drop(root: nat)

  ghost predicate Live(x: System, r: nat) {
    r == x.kernel || r in x.spaces
  }

  /** Calls name a root that exists, free no kernel root, and find a page that memset can clear for each table they
      need; only creating a space may also find none at all. */
  ghost predicate Legal(x: System, op: Op) {
    match op
    case NewSpace => x.s.free == {} || Clearable(x.s.free) != {}
    case Map(root, v, _) => Live(x, root) && |Clearable(x.s.free)| >= Needs(x.s.mem, root, Route(v))
    case Unmap(root, _) => Live(x, root)
    case Drop(root) => root in x.spaces
  }

  ghost function Apply(x: System, op: Op): System {
    match op
    case NewSpace =>
      if x.s.free == {} then x
      else System(NewRoot(x.s, x.kernel), x.kernel, x.spaces + {AddrOf(Lowest(x.s.free))})
    case Map(root, v, e) => x.(s := Mapped(x.s, root, v, e))
    case Unmap(root, v) => x.(s := Phys(Unmapped(x.s.mem, root, v), x.s.free))
    case Drop(root) => System(Dropped(x.s, root), x.kernel, x.spaces - {root})
  }

  ghost predicate Inv(x: System, l: Layout) {
    && Good(x.s, l) && l.kernel == x.kernel && x.kernel !in x.spaces
    && forall r :: Pml4(r) in l.tabs <==> Live(x, r)
  }

  /** Page n is free or holds a table. */
  ghost predicate Counted(x: System, l: Layout, n: nat) {
    n in x.s.free || AddrOf(n) in l.at
  }

  /** Page n held an upper-half table of a space that is being freed. */
  ghost predicate Lost(l: Layout, op: Op, n: nat) {
    op.Drop? && Owns(l, op.root, n) && !IsLow(l.at[AddrOf(n)])
  }

  // ----- one step -----

  lemma ExtendsCounts(x: System, l: Layout, s': Phys, l': Layout, o: nat, n: nat)
    requires Good(x.s, l) && Good(s', l') && Extends(x.s, l, s', l', o)
    ensures Counted(x.(s := s'), l', n) <==> Counted(x, l, n)
  {
    assert n in s'.free || Owns(l', o, n) <==> n in x.s.free || Owns(l, o, n);
    if AddrOf(n) in l.at {
      var p := l.at[AddrOf(n)];
      assert l.tabs[p] == AddrOf(n);
    }
    if AddrOf(n) in l'.at {
      var p := l'.at[AddrOf(n)];
      assert l'.tabs[p] == AddrOf(n);
    }
  }

  lemma MapStep(x: System, l: Layout, op: Op) returns (l': Layout)
    requires Inv(x, l) && Legal(x, op) && op.Map?
    ensures Inv(Apply(x, op), l') && forall n :: Counted(Apply(x, op), l', n) <==> Counted(x, l, n)
    ensures var o := Owner(x.s.mem, l, op.root, op.v.i4);
            GrewTo(l, l', o, op.v) && Extends(x.s, l, Apply(x, op).s, l', o)
  {
    l' := MapInstalls(x.s, l, op.root, op.v, op.e);
    forall n
      ensures Counted(Apply(x, op), l', n) <==> Counted(x, l, n)
    {
      ExtendsCounts(x, l, Mapped(x.s, op.root, op.v, op.e), l', Owner(x.s.mem, l, op.root, op.v.i4), n);
    }
  }

  lemma NewCounts(x: System, l: Layout, n: nat)
    requires Good(x.s, l) && Clearable(x.s.free) != {}
    ensures var page := AddrOf(Lowest(x.s.free));
            Counted(Apply(x, NewSpace), l.Add(Pml4(page), page), n) <==> Counted(x, l, n)
  {
    assert AddrOf(n) == AddrOf(Lowest(x.s.free)) <==> n == Lowest(x.s.free);
  }

  lemma NewRoots(x: System, l: Layout, r: nat)
    requires Inv(x, l) && Clearable(x.s.free) != {}
    ensures var page := AddrOf(Lowest(x.s.free));
            Pml4(r) in l.Add(Pml4(page), page).tabs <==> Live(Apply(x, NewSpace), r)
  {
  }

  lemma NewInv(x: System, l: Layout, x': System, l': Layout)
    requires Inv(x, l) && Clearable(x.s.free) != {} && x' == Apply(x, NewSpace) && Good(x'.s, l')
    requires var page := AddrOf(Lowest(x.s.free)); l' == l.Add(Pml4(page), page) && Pml4(page) !in l.tabs
    ensures Inv(x', l')
  {
    forall r
      ensures Pml4(r) in l'.tabs <==> Live(x', r)
    {
      NewRoots(x, l, r);
    }
  }

  lemma NewStep(x: System, l: Layout) returns (l': Layout)
    requires Inv(x, l) && Clearable(x.s.free) != {}
    ensures Inv(Apply(x, NewSpace), l') && forall n :: Counted(Apply(x, NewSpace), l', n) <==> Counted(x, l, n)
    ensures var page := AddrOf(Lowest(x.s.free)); l' == l.Add(Pml4(page), page) && AllLow(l', page)
  {
    l' := NewRootIsolates(x.s, l);
    NewInv(x, l, Apply(x, NewSpace), l');
    forall n
      ensures Counted(Apply(x, NewSpace), l', n) <==> Counted(x, l, n)
    {
      NewCounts(x, l, n);
    }
  }

  lemma DropCounts(x: System, l: Layout, root: nat, n: nat)
    requires Good(x.s, l) && Pml4(root) in l.tabs
    requires n in Dropped(x.s, root).free <==> n in x.s.free || (Owns(l, root, n) && IsLow(l.at[AddrOf(n)]))
    ensures Counted(x, l, n)
            <==> Counted(Apply(x, Drop(root)), Without(l, root), n) || Lost(l, Drop(root), n)
  {
  }

  lemma DropAccounts(x: System, l: Layout, root: nat)
    requires Inv(x, l) && root in x.spaces
    ensures forall n :: Counted(x, l, n)
                        <==> Counted(Apply(x, Drop(root)), Without(l, root), n) || Lost(l, Drop(root), n)
  {
    DroppingKeepsOthers(x.s, l, root);
    forall n
      ensures Counted(x, l, n)
              <==> Counted(Apply(x, Drop(root)), Without(l, root), n) || Lost(l, Drop(root), n)
    {
      DropCounts(x, l, root, n);
    }
  }

  lemma DropRoots(x: System, l: Layout, root: nat, r: nat)
    requires Inv(x, l) && root in x.spaces
    ensures Pml4(r) in Without(l, root).tabs <==> Live(Apply(x, Drop(root)), r)
  {
    assert Pml4(r).root == r;
  }

  lemma DropIsGood(x: System, l: Layout, root: nat, s': Phys, l': Layout)
    requires Inv(x, l) && root in x.spaces && s' == Dropped(x.s, root) && l' == Without(l, root)
    ensures Good(s', l')
  {
    assert forall n :: n in s'.free ==> n in x.s.free || Owns(l, root, n) by {
      DroppingKeepsOthers(x.s, l, root);
    }
    DroppedIsGood(x.s, l, root, s', l');
  }

  lemma DropInv(x: System, l: Layout, root: nat, x': System, l': Layout)
    requires Inv(x, l) && root in x.spaces && x' == Apply(x, Drop(root)) && l' == Without(l, root)
    ensures Inv(x', l')
  {
    DropIsGood(x, l, root, x'.s, l');
    forall r
      ensures Pml4(r) in l'.tabs <==> Live(x', r)
    {
      DropRoots(x, l, root, r);
    }
  }

  /** Every step keeps the invariant. Pages only move between the free set and the tables, but for those lost
      with a space that had a table of its own in the upper half. */
  lemma StepInv(x: System, l: Layout, op: Op) returns (l': Layout)
    requires Inv(x, l) && Legal(x, op)
    ensures Inv(Apply(x, op), l')
    ensures forall n :: Counted(x, l, n) <==> Counted(Apply(x, op), l', n) || Lost(l, op, n)
  {
    match op
    case NewSpace =>
      if x.s.free == {} {
        l' := l;
      } else {
        l' := NewStep(x, l);
      }
    case Map(_, _, _) =>
      l' := MapStep(x, l, op);
    case Unmap(root, v) =>
      UnmapRemoves(x.s, l, root, v);
      l' := l;
    case Drop(root) =>
      l' := Without(l, root);
      DropInv(x, l, root, Apply(x, op), l');
      DropAccounts(x, l, root);
  }

  // ----- runs -----

  ghost predicate LegalRun(x: System, ops: seq<Op>)
    decreases |ops|
  {
    ops == [] || (Legal(x, ops[0]) && LegalRun(Apply(x, ops[0]), ops[1..]))
  }

  ghost function Run(x: System, ops: seq<Op>): System
    decreases |ops|
  {
    if ops == [] then x else Run(Apply(x, ops[0]), ops[1..])
  }

  /** At every point of the run some layout makes a tree of the tables. */
  ghost predicate GoodThroughout(x: System, ops: seq<Op>)
    decreases |ops|
  {
    (exists l: Layout :: Inv(x, l)) && (ops == [] || GoodThroughout(Apply(x, ops[0]), ops[1..]))
  }

  /** The tables are alias-free at every point of every legal run. */
  lemma {:induction false} RunIsGood(x: System, l: Layout, ops: seq<Op>)
    requires Inv(x, l) && LegalRun(x, ops)
    ensures GoodThroughout(x, ops)
    decreases |ops|
  {
    if ops != [] {
      var l' := StepInv(x, l, ops[0]);
      RunIsGood(Apply(x, ops[0]), l', ops[1..]);
    }
  }

  /** No user space has a table of its own in the upper half. */
  ghost predicate Tidy(x: System, l: Layout) {
    forall r :: r in x.spaces ==> AllLow(l, r)
  }

  /** A map that gives none to a space: in the kernel's root, in the lower half, or where an entry is shared. */
  ghost predicate TidyOp(x: System, op: Op) {
    op.Map? ==> op.root == x.kernel || op.v.i4 < 256 || Entry(x.s.mem, op.root, op.v.i4) != 0
  }

  ghost predicate TidyRun(x: System, ops: seq<Op>)
    decreases |ops|
  {
    ops == [] || (TidyOp(x, ops[0]) && TidyRun(Apply(x, ops[0]), ops[1..]))
  }

  /** A map into the lower half of a user space, or any other call. */
  ghost predicate UserOp(x: System, op: Op) {
    op.Map? ==> op.root != x.kernel && op.v.i4 < 256
  }

  ghost predicate SameKernel(l: Layout, l': Layout) {
    && l'.kernel == l.kernel
    && (forall p: Place :: p.root == l.kernel ==> (p in l.tabs <==> p in l'.tabs))
    && (forall p :: p in l.tabs && p.root == l.kernel ==> l'.tabs[p] == l.tabs[p])
  }

  lemma TidyMap(x: System, l: Layout, op: Op, l': Layout)
    requires Inv(x, l) && Tidy(x, l) && TidyOp(x, op) && op.Map? && Legal(x, op)
    requires var o := Owner(x.s.mem, l, op.root, op.v.i4);
             GrewTo(l, l', o, op.v) && Extends(x.s, l, Apply(x, op).s, l', o)
    ensures Tidy(Apply(x, op), l') && (UserOp(x, op) ==> SameKernel(l, l'))
  {
    assert EntryOk(x.s.mem, l, Pml4(op.root), op.v.i4);
  }

  lemma TidyNew(x: System, l: Layout, page: nat, l': Layout)
    requires Tidy(x, l) && l' == l.Add(Pml4(page), page) && AllLow(l', page)
    ensures forall r :: r in x.spaces + {page} ==> AllLow(l', r)
  {
    forall r | r in x.spaces
      ensures AllLow(l', r)
    {
      assert AllLow(l, r);
    }
  }

  /** A step of a tidy run moves pages between the free set and the tables and loses none. */
  lemma TidyStep(x: System, l: Layout, op: Op) returns (l': Layout)
    requires Inv(x, l) && Legal(x, op) && Tidy(x, l) && TidyOp(x, op)
    ensures Inv(Apply(x, op), l') && Tidy(Apply(x, op), l')
    ensures UserOp(x, op) ==> SameKernel(l, l')
    ensures forall n :: Counted(Apply(x, op), l', n) <==> Counted(x, l, n)
  {
    match op
    case NewSpace =>
      if x.s.free == {} {
        l' := l;
      } else {
        l' := NewStep(x, l);
        TidyNew(x, l, AddrOf(Lowest(x.s.free)), l');
      }
    case Map(_, _, _) =>
      l' := MapStep(x, l, op);
      TidyMap(x, l, op, l');
    case Unmap(root, v) =>
      UnmapRemoves(x.s, l, root, v);
      l' := l;
    case Drop(root) =>
      l' := Without(l, root);
      DropInv(x, l, root, Apply(x, op), l');
      TidyDrop(x, l, root);
  }

  lemma TidyDrop(x: System, l: Layout, root: nat)
    requires Inv(x, l) && root in x.spaces && Tidy(x, l)
    ensures Tidy(Apply(x, Drop(root)), Without(l, root)) && SameKernel(l, Without(l, root))
    ensures forall n :: Counted(Apply(x, Drop(root)), Without(l, root), n) <==> Counted(x, l, n)
  {
    DropAccounts(x, l, root);
    assert AllLow(l, root);
    forall r | r in x.spaces && r != root
      ensures AllLow(Without(l, root), r)
    {
      assert AllLow(l, r);
    }
  }

  /** Over every tidy run no page is lost and none appears: those that are free or hold a table at the end
      are those that were at the start. */
  lemma {:induction false} RunConserves(x: System, l: Layout, ops: seq<Op>) returns (l': Layout)
    requires Inv(x, l) && LegalRun(x, ops) && Tidy(x, l) && TidyRun(x, ops)
    ensures Inv(Run(x, ops), l') && Tidy(Run(x, ops), l')
    ensures forall n :: Counted(Run(x, ops), l', n) <==> Counted(x, l, n)
    decreases |ops|
  {
    l' := l;
    if ops != [] {
      var x1 := Apply(x, ops[0]);
      var l1 := TidyStep(x, l, ops[0]);
      l' := RunConserves(x1, l1, ops[1..]);
      forall n
        ensures Counted(Run(x, ops), l', n) <==> Counted(x, l, n)
      {
        assert Counted(x1, l1, n) <==> Counted(x, l, n);
      }
    }
  }

  // ----- isolation -----

  /** A call that may change how root r translates lower-half page w. */
  predicate Concerns(op: Op, r: nat, w: Vpn) {
    match op
    case NewSpace => false
    case Map(root, v, _) => root == r && v == w
    case Unmap(root, v) => root == r && v == w
    case Drop(root) => root == r
  }

  lemma StepIsolates(x: System, l: Layout, op: Op, r: nat, w: Vpn)
    requires Inv(x, l) && Legal(x, op) && Live(x, r) && w.i4 < 256 && !Concerns(op, r, w)
    ensures Live(Apply(x, op), r) && Walk(Apply(x, op).s.mem, r, w) == Walk(x.s.mem, r, w)
  {
    match op
    case NewSpace =>
      if Clearable(x.s.free) != {} {
        var l' := NewRootIsolates(x.s, l);
      }
    case Map(root, v, e) =>
      var l' := MapInstalls(x.s, l, root, v, e);
      if v == w {
        LowerIsPrivate(x.s.mem, l, r, w.i4, root);
      }
    case Unmap(root, v) =>
      UnmapRemoves(x.s, l, root, v);
      if v == w {
        LowerIsPrivate(x.s.mem, l, r, w.i4, root);
      }
    case Drop(_) =>
  }

  /** What other spaces do, be it created, mapped, unmapped or freed in any order, never changes a lower-half
      translation. */
  lemma {:induction false} RunIsolates(x: System, l: Layout, ops: seq<Op>, r: nat, w: Vpn)
    requires Inv(x, l) && LegalRun(x, ops) && Live(x, r) && w.i4 < 256
    requires forall op :: op in ops ==> !Concerns(op, r, w)
    ensures Live(Run(x, ops), r) && Walk(Run(x, ops).s.mem, r, w) == Walk(x.s.mem, r, w)
    decreases |ops|
  {
    if ops != [] {
      var l1 := StepInv(x, l, ops[0]);
      StepIsolates(x, l, ops[0], r, w);
      RunIsolates(Apply(x, ops[0]), l1, ops[1..], r, w);
    }
  }

  // ----- what a run remembers -----

  /** What is known of page w under root r after one more call: the last entry mapped there, nothing after an unmap,
      and nothing in a new space. */
  ghost function Noted(x: System, op: Op, r: nat, w: Vpn, was: nat): nat {
    match op
    case NewSpace => if x.s.free != {} && r == AddrOf(Lowest(x.s.free)) then 0 else was
    case Map(root, v, e) => if root == r && v == w then e else was
    case Unmap(root, v) => if root == r && v == w then 0 else was
    case Drop(_) => was
  }

  ghost function NotedRun(x: System, ops: seq<Op>, r: nat, w: Vpn, was: nat): nat
    decreases |ops|
  {
    if ops == [] then was else NotedRun(Apply(x, ops[0]), ops[1..], r, w, Noted(x, ops[0], r, w, was))
  }

  lemma NewSpaceNoted(x: System, l: Layout, r: nat, w: Vpn)
    requires Inv(x, l) && Legal(x, NewSpace) && x.s.free != {} && w.i4 < 256
    ensures !Live(x, AddrOf(Lowest(x.s.free)))
    ensures r == AddrOf(Lowest(x.s.free)) ==> Walk(Apply(x, NewSpace).s.mem, r, w) == 0
  {
    var l' := NewRootIsolates(x.s, l);
  }

  lemma StepNoted(x: System, l: Layout, op: Op, r: nat, w: Vpn, was: nat)
    requires Inv(x, l) && Legal(x, op) && w.i4 < 256 && (Live(x, r) ==> was == Walk(x.s.mem, r, w))
    ensures Live(Apply(x, op), r) ==> Noted(x, op, r, w, was) == Walk(Apply(x, op).s.mem, r, w)
  {
    if op.NewSpace? && x.s.free != {} {
      NewSpaceNoted(x, l, r, w);
    }
    if Live(x, r) {
      if !Concerns(op, r, w) {
        StepIsolates(x, l, op, r, w);
      } else if op.Map? {
        var l' := MapInstalls(x.s, l, r, w, op.e);
      } else if op.Unmap? {
        UnmapRemoves(x.s, l, r, w);
      }
    }
  }

  /** After any legal run, whatever other spaces do and whichever roots come, go and come again, a lower-half page of a
      space that exists translates to what was last mapped there, and to nothing if that was unmapped or the space is
      new. */
  lemma {:induction false} RunRemembers(x: System, l: Layout, ops: seq<Op>, r: nat, w: Vpn, was: nat)
    requires Inv(x, l) && LegalRun(x, ops) && w.i4 < 256 && (Live(x, r) ==> was == Walk(x.s.mem, r, w))
    ensures Live(Run(x, ops), r) ==> Walk(Run(x, ops).s.mem, r, w) == NotedRun(x, ops, r, w, was)
    decreases |ops|
  {
    if ops != [] {
      var l1 := StepInv(x, l, ops[0]);
      StepNoted(x, l, ops[0], r, w, was);
      RunRemembers(Apply(x, ops[0]), l1, ops[1..], r, w, Noted(x, ops[0], r, w, was));
    }
  }

  // ----- every page comes back -----

  ghost predicate UserRun(x: System, ops: seq<Op>)
    decreases |ops|
  {
    ops == [] || (UserOp(x, ops[0]) && UserRun(Apply(x, ops[0]), ops[1..]))
  }

  lemma {:induction false} UserRunKeepsKernel(x: System, l: Layout, ops: seq<Op>) returns (l': Layout)
    requires Inv(x, l) && LegalRun(x, ops) && Tidy(x, l) && UserRun(x, ops)
    ensures Inv(Run(x, ops), l') && SameKernel(l, l')
    ensures forall n :: Counted(Run(x, ops), l', n) <==> Counted(x, l, n)
    decreases |ops|
  {
    l' := l;
    if ops != [] {
      var x1 := Apply(x, ops[0]);
      var l1 := TidyStep(x, l, ops[0]);
      l' := UserRunKeepsKernel(x1, l1, ops[1..]);
      forall n
        ensures Counted(Run(x, ops), l', n) <==> Counted(x, l, n)
      {
        assert Counted(x1, l1, n) <==> Counted(x, l, n);
      }
    }
  }

  /** With no user space every table is the kernel's. */
  lemma OnlyKernel(x: System, l: Layout, p: Place)
    requires Inv(x, l) && x.spaces == {} && p in l.tabs
    ensures p.root == l.kernel
  {
    assert Pml4(p.root) in l.tabs;
  }

  /** Any run that begins and ends without user spaces, and maps only into their lower halves, ends with the
      free set it began with. */
  lemma EveryPageComesBack(x: System, l: Layout, ops: seq<Op>)
    requires Inv(x, l) && LegalRun(x, ops) && UserRun(x, ops) && x.spaces == {} == Run(x, ops).spaces
    ensures Run(x, ops).s.free == x.s.free
  {
    var x' := Run(x, ops);
    var l' := UserRunKeepsKernel(x, l, ops);
    forall n
      ensures n in x'.s.free <==> n in x.s.free
    {
      assert Counted(x', l', n) <==> Counted(x, l, n);
      SamePages(x, l, x', l', n);
    }
  }

  lemma SamePages(x: System, l: Layout, x': System, l': Layout, n: nat)
    requires Inv(x, l) && Inv(x', l') && SameKernel(l, l') && x.spaces == {} == x'.spaces && x.kernel == x'.kernel
    ensures AddrOf(n) in l.at <==> AddrOf(n) in l'.at
    ensures AddrOf(n) in l.at ==> n !in x.s.free && n !in x'.s.free
  {
    if AddrOf(n) in l.at {
      OnlyKernel(x, l, l.at[AddrOf(n)]);
      OwnedPage(x.s, l, n);
      OwnedPage(x'.s, l', n);
    } else if AddrOf(n) in l'.at {
      OnlyKernel(x', l', l'.at[AddrOf(n)]);
    }
  }
}
