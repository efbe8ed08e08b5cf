/** The four-level page-table tree of kernel/paging.c as a value: physical pages holding
    512 entries each, the walk the code performs over them, and the separation invariant
    that keeps the tree free of aliases. The format is 4-level paging as in section 4.5 of
    the Intel SDM, Volume 3A. */
module PageTree {

  type Index = i: nat | i < 512 witness 0

  /** One physical page read as a table of 64-bit entries. */
  type Page = s: seq<nat> | |s| == 512 witness seq(512, _ => 0)

  /** Physical memory, page by page, keyed by page address. */
  type Memory = map<nat, Page>

  function Zeros(): (s: Page)
    ensures forall i: Index :: s[i] == 0
  {
    seq(512, _ => 0)
  }

  /** memset only writes below this address. */
  const CLEAR_LIMIT: nat := 0x2000_0000

  /** A page from the allocator after memset: zeroed if it ends below the limit, untouched otherwise. */
  function Cleared(mem: Memory, page: nat): Page {
    if page + 4096 <= CLEAR_LIMIT || page !in mem then Zeros() else mem[page]
  }

  /** memset reaches the first 512 MiB and nothing beyond. */
  lemma ClearedIs(mem: Memory, page: nat)
    requires page in mem && page % 4096 == 0
    ensures Cleared(mem, page) == if page < 512 * 1024 * 1024 then Zeros() else mem[page]
  {
  }

  // ----- entries -----

  /** `e & PAGE_PRESENT`. */
  predicate Present(e: nat) {
    e % 2 == 1
  }

  /** `e & ~0xFFF`. */
  function Base(e: nat): nat {
    e - e % 4096
  }

  /** `table | PAGE_PRESENT | PAGE_RW` for a page-aligned table. */
  function Link(table: nat): nat {
    table + 3
  }

  /** `(phys & ~0xFFF) | (flags & 0xFFF) | PAGE_PRESENT`. */
  function Pte(phys: nat, flags: nat): nat {
    Base(phys) + (if Present(flags % 4096) then flags % 4096 else flags % 4096 + 1)
  }

  lemma LinkRoundTrip(table: nat)
    requires table % 4096 == 0
    ensures Present(Link(table)) && Base(Link(table)) == table
  {
    var frame := table / 4096;
    assert Link(table) == 4096 * frame + 3 == 2 * (2048 * frame + 1) + 1;
  }

  // ----- virtual page numbers -----

  /** The four table indices of a virtual address, highest level first. */
  datatype Vpn = Vpn(i4: Index, i3: Index, i2: Index, i1: Index)

  function VpnOf(addr: nat): Vpn {
    Vpn(addr / 0x80_0000_0000 % 512, addr / 0x4000_0000 % 512, addr / 0x20_0000 % 512, addr / 0x1000 % 512)
  }

  /** The source's index helpers on 64-bit words, and the other parts of a word. */
  function Field(x: bv64, shift: bv7): bv9
    requires shift < 64
  {
    ((x >> shift) & 0x1FF) as bv9
  }

  function Bit(x: bv64): bv1 {
    (x & 1) as bv1
  }

  function Flags(x: bv64): bv11 {
    ((x >> 1) & 0x7FF) as bv11
  }

  function Top(x: bv64): bv16 {
    (x >> 48) as bv16
  }

  lemma FieldsAreTheWord(x: bv64)
    ensures x == Bit(x) as bv64 | (Flags(x) as bv64 << 1) | (Field(x, 12) as bv64 << 12) | (Field(x, 21) as bv64 << 21)
                 | (Field(x, 30) as bv64 << 30) | (Field(x, 39) as bv64 << 39) | (Top(x) as bv64 << 48)
  {
  }

  /** Bit strings side by side, as numbers. */
  lemma Joined(b: bv1, f: bv11, i1: bv9, i2: bv9, i3: bv9, i4: bv9, t: bv16)
    ensures (b as bv64 | (f as bv64 << 1) | (i1 as bv64 << 12) | (i2 as bv64 << 21)
             | (i3 as bv64 << 30) | (i4 as bv64 << 39) | (t as bv64 << 48)) as nat
         == b as nat + 2 * (f as nat)
            + 4096 * (i1 as nat + 512 * (i2 as nat + 512 * (i3 as nat + 512 * (i4 as nat + 512 * (t as nat)))))
  {
  }

  lemma WordIs(x: bv64)
    ensures x as nat
         == Bit(x) as nat + 2 * (Flags(x) as nat)
            + 4096 * (Field(x, 12) as nat + 512 * (Field(x, 21) as nat + 512 * (Field(x, 30) as nat
                      + 512 * (Field(x, 39) as nat + 512 * (Top(x) as nat)))))
  {
    FieldsAreTheWord(x);
    Joined(Bit(x), Flags(x), Field(x, 12), Field(x, 21), Field(x, 30), Field(x, 39), Top(x));
  }

  function Number(b: nat, f: nat, i1: nat, i2: nat, i3: nat, i4: nat, t: nat): nat {
    b + 2 * f + 4096 * (i1 + 512 * (i2 + 512 * (i3 + 512 * (i4 + 512 * t))))
  }

  lemma NumberParts(b: nat, f: nat, i1: Index, i2: Index, i3: Index, i4: Index, t: nat)
    requires b < 2 && f < 2048
    ensures var a := Number(b, f, i1, i2, i3, i4, t);
            && VpnOf(a) == Vpn(i4, i3, i2, i1) && Base(a) == Number(0, 0, i1, i2, i3, i4, t)
            && a % 2 == b
  {
    var n3 := i4 + 512 * t;
    var n2 := i3 + 512 * n3;
    var n1 := i2 + 512 * n2;
    var n := i1 + 512 * n1;
    var a := b + 2 * f + 4096 * n;
    LowDigit(a, n, b + 2 * f, 4096);
    LowDigit(a, f + 2048 * n, b, 2);
    ShiftMore(a);
    LowDigit(n, n1, i1, 512);
    LowDigit(n1, n2, i2, 512);
    LowDigit(n2, n3, i3, 512);
    LowDigit(n3, t, i4, 512);
  }

  lemma LowDigit(a: nat, q: nat, r: nat, d: nat)
    requires a == d * q + r && r < d && (d == 2 || d == 512 || d == 4096)
    ensures a / d == q && a % d == r
  {
  }

  /** The number of a word, by its parts. */
  function Value(x: bv64): nat {
    Number(Bit(x) as nat, Flags(x) as nat, Field(x, 12) as nat, Field(x, 21) as nat, Field(x, 30) as nat,
           Field(x, 39) as nat, Top(x) as nat)
  }

  lemma ValueIs(x: bv64)
    ensures Value(x) == x as nat
  {
    WordIs(x);
  }

  lemma PartBounds(b: bv1, f: bv11, i1: bv9, i2: bv9, i3: bv9, i4: bv9)
    ensures b as nat < 2 && f as nat < 2048
    ensures i1 as nat < 512 && i2 as nat < 512 && i3 as nat < 512 && i4 as nat < 512
  {
  }

  /** The parts of a number put together from parts of a word. */
  lemma PartsOf(x: bv64)
    ensures VpnOf(Value(x)) == Vpn(IndexAt(x, 39), IndexAt(x, 30), IndexAt(x, 21), IndexAt(x, 12))
    ensures Base(Value(x))
         == Number(0, 0, IndexAt(x, 12), IndexAt(x, 21), IndexAt(x, 30), IndexAt(x, 39), Top(x) as nat)
  {
    PartBounds(Bit(x), Flags(x), Field(x, 12), Field(x, 21), Field(x, 30), Field(x, 39));
    NumberParts(Bit(x) as nat, Flags(x) as nat, Field(x, 12) as nat, Field(x, 21) as nat, Field(x, 30) as nat,
                Field(x, 39) as nat, Top(x) as nat);
  }

  function IndexAt(x: bv64, shift: bv7): Index
    requires shift < 64
  {
    PartBounds(0, 0, Field(x, shift), 0, 0, 0);
    Field(x, shift) as nat
  }

  /** The source's shifts on 64-bit words are the indices of the word's number. */
  lemma IndicesAreShifts(x: bv64)
    ensures VpnOf(x as nat) == Vpn(IndexAt(x, 39), IndexAt(x, 30), IndexAt(x, 21), IndexAt(x, 12))
  {
    ValueIs(x);
    PartsOf(x);
  }

  /** Masking the flags away leaves the base of that number. */
  lemma MaskIsBase(x: bv64)
    ensures (x & !0xFFF) as nat == Base(x as nat)
  {
    ValueIs(x);
    MaskedValue(x);
  }

  /** The present flag is its lowest bit, which Present tests. */
  lemma BitIsPresent(x: bv64)
    ensures x as nat % 2 == Bit(x) as nat
  {
    ValueIs(x);
    LowBit(x);
  }

  lemma LowBit(x: bv64)
    ensures Value(x) % 2 == Bit(x) as nat
  {
    PartBounds(Bit(x), Flags(x), Field(x, 12), Field(x, 21), Field(x, 30), Field(x, 39));
    NumberParts(Bit(x) as nat, Flags(x) as nat, Field(x, 12) as nat, Field(x, 21) as nat, Field(x, 30) as nat,
                Field(x, 39) as nat, Top(x) as nat);
  }

  lemma MaskedValue(x: bv64)
    ensures (x & !0xFFF) as nat == Base(Value(x))
  {
    ValueIs(x & !0xFFF);
    MaskedParts(x);
    BaseOf(x);
  }

  lemma MaskedParts(x: bv64)
    ensures Value(x & !0xFFF)
         == Number(0, 0, IndexAt(x, 12), IndexAt(x, 21), IndexAt(x, 30), IndexAt(x, 39), Top(x) as nat)
  {
    MaskClears(x);
    ValueFrom(x, x & !0xFFF);
  }

  lemma BaseOf(x: bv64)
    ensures Base(Value(x))
         == Number(0, 0, IndexAt(x, 12), IndexAt(x, 21), IndexAt(x, 30), IndexAt(x, 39), Top(x) as nat)
  {
    PartsOf(x);
  }

  /** The number of a word that agrees with x above the flags. */
  lemma ValueFrom(x: bv64, y: bv64)
    requires y >> 12 == x >> 12
    ensures Value(y) == Number(Bit(y) as nat, Flags(y) as nat, IndexAt(x, 12), IndexAt(x, 21), IndexAt(x, 30),
                               IndexAt(x, 39), Top(x) as nat)
  {
    SameHigh(x, y);
  }

  lemma MaskClears(x: bv64)
    ensures (x & !0xFFF) >> 12 == x >> 12 && Bit(x & !0xFFF) == 0 && Flags(x & !0xFFF) == 0
  {
  }

  /** Words that agree above the flags have the same indices. */
  lemma SameHigh(x: bv64, y: bv64)
    ensures y >> 12 == x >> 12 ==>
              && Field(y, 12) == Field(x, 12) && Field(y, 21) == Field(x, 21) && Field(y, 30) == Field(x, 30)
              && Field(y, 39) == Field(x, 39) && Top(y) == Top(x)
  {
  }

  /** The link to an aligned table is the link to that number. */
  lemma LinkIsOr(x: bv64)
    requires x & 0xFFF == 0
    ensures (x | 1 | 2) as nat == Link(x as nat)
  {
    ValueIs(x);
    ValueIs(x | 1 | 2);
    LinkedValue(x);
  }

  lemma LinkedValue(x: bv64)
    requires x & 0xFFF == 0
    ensures Value(x | 1 | 2) == Link(Value(x))
  {
    LinkSets(x);
    ValueFrom(x, x | 1 | 2);
  }

  lemma LinkSets(x: bv64)
    requires x & 0xFFF == 0
    ensures (x | 1 | 2) >> 12 == x >> 12 && Bit(x) == 0 && Flags(x) == 0 && Bit(x | 1 | 2) == 1 && Flags(x | 1 | 2) == 1
  {
  }

  /** And so is the leaf entry it builds. */
  lemma PteIsOr(x: bv64, f: bv64)
    ensures ((x & !0xFFF) | (f & 0xFFF) | 1) as nat == Pte(x as nat, f as nat)
  {
    var y := (x & !0xFFF) | (f & 0xFFF) | 1;
    ValueIs(x);
    ValueIs(f);
    ValueIs(y);
    PteFields(x, f);
    ValueFrom(x, y);
    PteValue(x, f);
  }

  lemma PteFields(x: bv64, f: bv64)
    ensures var y := (x & !0xFFF) | (f & 0xFFF) | 1; y >> 12 == x >> 12 && Bit(y) == 1 && Flags(y) == Flags(f)
  {
  }

  lemma PteValue(x: bv64, f: bv64)
    ensures Pte(Value(x), Value(f))
         == Number(1, Flags(f) as nat, IndexAt(x, 12), IndexAt(x, 21), IndexAt(x, 30), IndexAt(x, 39), Top(x) as nat)
  {
    PartBounds(Bit(x), Flags(x), Field(x, 12), Field(x, 21), Field(x, 30), Field(x, 39));
    PartBounds(Bit(f), Flags(f), Field(f, 12), Field(f, 21), Field(f, 30), Field(f, 39));
    PteNumber(Bit(x) as nat, Flags(x) as nat, IndexAt(x, 12), IndexAt(x, 21), IndexAt(x, 30), IndexAt(x, 39),
              Top(x) as nat,
              Bit(f) as nat, Flags(f) as nat, IndexAt(f, 12), IndexAt(f, 21), IndexAt(f, 30), IndexAt(f, 39),
              Top(f) as nat);
  }

  lemma PteNumber(b: nat, f: nat, i1: Index, i2: Index, i3: Index, i4: Index, t: nat,
                  b': nat, f': nat, j1: Index, j2: Index, j3: Index, j4: Index, t': nat)
    requires b < 2 && f < 2048 && b' < 2 && f' < 2048
    ensures Pte(Number(b, f, i1, i2, i3, i4, t), Number(b', f', j1, j2, j3, j4, t')) == Number(1, f', i1, i2, i3, i4, t)
  {
    NumberParts(b, f, i1, i2, i3, i4, t);
    var n' := j1 + 512 * (j2 + 512 * (j3 + 512 * (j4 + 512 * t')));
    LowDigit(Number(b', f', j1, j2, j3, j4, t'), n', b' + 2 * f', 4096);
    LowDigit(b' + 2 * f', f', b', 2);
  }

  /** Bits 12 to 47 and the four indices determine each other. */
  lemma VpnDecomposition(a: nat, b: nat)
    ensures VpnOf(a) == VpnOf(b) <==> a / 4096 % 0x10_0000_0000 == b / 4096 % 0x10_0000_0000
  {
    Digits(a / 4096);
    Digits(b / 4096);
    ShiftMore(a);
    ShiftMore(b);
  }

  lemma ShiftMore(a: nat)
    ensures a / 0x80_0000_0000 == a / 4096 / 512 / 512 / 512
    ensures a / 0x4000_0000 == a / 4096 / 512 / 512
    ensures a / 0x20_0000 == a / 4096 / 512
  {
  }

  /** The 36-bit number written in base 512. */
  lemma Digits(n: nat)
    ensures n % 0x10_0000_0000
         == ((n / 512 / 512 / 512 % 512 * 512 + n / 512 / 512 % 512) * 512 + n / 512 % 512) * 512 + n % 512
  {
    var q1 := n / 512;
    var q2 := q1 / 512;
    var q3 := q2 / 512;
    Compose(n, q1, q2, q3, q3 / 512, n % 512, q1 % 512, q2 % 512, q3 % 512);
  }

  lemma Compose(n: nat, q1: nat, q2: nat, q3: nat, q4: nat, d1: Index, d2: Index, d3: Index, d4: Index)
    requires n == 512 * q1 + d1 && q1 == 512 * q2 + d2 && q2 == 512 * q3 + d3 && q3 == 512 * q4 + d4
    ensures n % 0x10_0000_0000 == ((d4 * 512 + d3) * 512 + d2) * 512 + d1
  {
    Remainder(n, q4, ((d4 * 512 + d3) * 512 + d2) * 512 + d1);
  }

  lemma Remainder(n: nat, q: nat, r: nat)
    requires n == 0x10_0000_0000 * q + r && r < 0x10_0000_0000
    ensures n % 0x10_0000_0000 == r
  {
  }

  // ----- the walk -----

  function Entry(mem: Memory, table: nat, i: Index): nat {
    if table in mem then mem[table][i] else 0
  }

  function Written(mem: Memory, table: nat, i: Index, e: nat): Memory {
    if table in mem then mem[table := mem[table][i := e]] else mem
  }

  /** The leaf entry that the code's walk reaches, or 0 where it meets a null table. */
  function Walk(mem: Memory, root: nat, v: Vpn): nat {
    var pdpt := Base(Entry(mem, root, v.i4));
    if pdpt == 0 then 0 else
    var pd := Base(Entry(mem, pdpt, v.i3));
    if pd == 0 then 0 else
    var pt := Base(Entry(mem, pd, v.i2));
    if pt == 0 then 0 else
    Entry(mem, pt, v.i1)
  }

  /** The walk of the hardware: it tests the present bit at every level. */
  function PresentWalk(mem: Memory, root: nat, v: Vpn): nat {
    var e4 := Entry(mem, root, v.i4);
    if !Present(e4) then 0 else
    var e3 := Entry(mem, Base(e4), v.i3);
    if !Present(e3) then 0 else
    var e2 := Entry(mem, Base(e3), v.i2);
    if !Present(e2) then 0 else
    Entry(mem, Base(e2), v.i1)
  }

  // ----- the tree -----

  /** A table's place: its root and the indices that lead to it. */
  datatype Place =
    | Pml4(root: nat)
    | Pdpt(root: nat, i4: Index)
    | Pd(root: nat, i4: Index, i3: Index)
    | Pt(root: nat, i4: Index, i3: Index, i2: Index)

  function Child(p: Place, i: Index): Place
    requires !p.Pt?
  {
    match p
    case Pml4(r) => Pdpt(r, i)
    case Pdpt(r, a) => Pd(r, a, i)
    case Pd(r, a, b) => Pt(r, a, b, i)
  }

  function Parent(p: Place): Place
    requires !p.Pml4?
  {
    match p
    case Pdpt(r, _) => Pml4(r)
    case Pd(r, a, _) => Pdpt(r, a)
    case Pt(r, a, b, _) => Pd(r, a, b)
  }

  /** Where each table of each address space is stored, and, the other way round, what each
      page in use holds; `kernel` is the root that paging_init made. */
  datatype Layout = Layout(kernel: nat, tabs: map<Place, nat>, at: map<nat, Place>)
  {
    function Add(p: Place, page: nat): Layout {
      Layout(kernel, tabs[p := page], at[page := p])
    }
  }

  /** Every table has a page of its own, aligned and not the null page. */
  ghost predicate Separate(mem: Memory, l: Layout) {
    && (forall p :: p in l.tabs ==>
          l.tabs[p] in l.at && l.at[l.tabs[p]] == p && l.tabs[p] in mem && l.tabs[p] != 0 && l.tabs[p] % 4096 == 0)
    && (forall a :: a in l.at ==> l.at[a] in l.tabs && l.tabs[l.at[a]] == a)
  }

  /** Every table hangs below one that is there too. */
  ghost predicate Rooted(l: Layout) {
    && (forall p :: p in l.tabs && !p.Pml4? ==> Parent(p) in l.tabs)
    && (forall p :: p in l.tabs && p.Pml4? ==> l.tabs[p] == p.root)
    && Pml4(l.kernel) in l.tabs
  }

  /** An entry of another space's upper half that was copied from the kernel's root. */
  ghost predicate Shared(l: Layout, p: Place, i: Index, e: nat) {
    && p.Pml4? && p.root != l.kernel && i >= 256
    && Pdpt(l.kernel, i) in l.tabs && e == Link(l.tabs[Pdpt(l.kernel, i)])
  }

  /** Entry i of the table at p: a link to the child table, or a shared link, or zero. */
  ghost predicate EntryOk(mem: Memory, l: Layout, p: Place, i: Index)
    requires p in l.tabs && !p.Pt?
  {
    var e := Entry(mem, l.tabs[p], i);
    if Child(p, i) in l.tabs then e == Link(l.tabs[Child(p, i)])
    else e == 0 || Shared(l, p, i, e)
  }

  ghost predicate Linked(mem: Memory, l: Layout) {
    forall p, i: Index :: p in l.tabs && !p.Pt? ==> EntryOk(mem, l, p, i)
  }

  ghost predicate Tree(mem: Memory, l: Layout) {
    Separate(mem, l) && Rooted(l) && Linked(mem, l)
  }

  /** Whose tables index i4 of a root leads to: an entry that leads to no table of its own is shared. */
  ghost function Owner(mem: Memory, l: Layout, root: nat, i: Index): nat {
    if Pdpt(root, i) !in l.tabs && Entry(mem, root, i) != 0 then l.kernel else root
  }

  /** What the walk should find: the leaf table of the owner, if there is one. */
  ghost function Leaf(mem: Memory, l: Layout, root: nat, v: Vpn): nat {
    var p := Pt(Owner(mem, l, root, v.i4), v.i4, v.i3, v.i2);
    if p in l.tabs then Entry(mem, l.tabs[p], v.i1) else 0
  }

  lemma EntryLeadsToChild(mem: Memory, l: Layout, p: Place, i: Index)
    requires Tree(mem, l) && p in l.tabs && !p.Pt?
    ensures var e := Entry(mem, l.tabs[p], i);
            && (Child(p, i) in l.tabs ==> Present(e) && Base(e) == l.tabs[Child(p, i)])
            && (Child(p, i) !in l.tabs && e != 0 ==>
                  Shared(l, p, i, e) && Present(e) && Base(e) == l.tabs[Pdpt(l.kernel, i)])
  {
    assert EntryOk(mem, l, p, i);
    if Child(p, i) in l.tabs {
      LinkRoundTrip(l.tabs[Child(p, i)]);
    } else if Pdpt(l.kernel, i) in l.tabs {
      LinkRoundTrip(l.tabs[Pdpt(l.kernel, i)]);
    }
  }

  /** Under the invariant the code's walk reads exactly the owner's leaf table, and the null tests
      it makes agree with the present-bit tests of the hardware. */
  lemma WalkReadsLeaf(mem: Memory, l: Layout, root: nat, v: Vpn)
    requires Tree(mem, l) && Pml4(root) in l.tabs
    ensures Walk(mem, root, v) == Leaf(mem, l, root, v)
    ensures PresentWalk(mem, root, v) == Walk(mem, root, v)
  {
    EntryLeadsToChild(mem, l, Pml4(root), v.i4);
    var o := Owner(mem, l, root, v.i4);
    if Pdpt(o, v.i4) in l.tabs {
      EntryLeadsToChild(mem, l, Pdpt(o, v.i4), v.i3);
      if Pd(o, v.i4, v.i3) in l.tabs {
        EntryLeadsToChild(mem, l, Pd(o, v.i4, v.i3), v.i2);
      } else {
        assert Parent(Pt(o, v.i4, v.i3, v.i2)) == Pd(o, v.i4, v.i3);
      }
    } else {
      assert Parent(Pd(o, v.i4, v.i3)) == Pdpt(o, v.i4);
      assert Parent(Pt(o, v.i4, v.i3, v.i2)) == Pd(o, v.i4, v.i3);
    }
  }

  // ----- growing the tree -----

  /** A table gets a fresh child in slot i, as the three stanzas of map_page do. */
  function Grown(mem: Memory, table: nat, i: Index, page: nat): Memory {
    Written(mem[page := Cleared(mem, page)], table, i, Link(page))
  }

  /** The slot is empty and the page holds no table. */
  ghost predicate CanLink(mem: Memory, l: Layout, p: Place, i: Index, page: nat) {
    && Tree(mem, l) && p in l.tabs && !p.Pt?
    && Child(p, i) !in l.tabs && Entry(mem, l.tabs[p], i) == 0
    && page != 0 && page % 4096 == 0 && page !in l.at
  }

  /** After memset the page reads as zeros: it was cleared, or it was blank before. */
  ghost predicate Blank(mem: Memory, page: nat) {
    forall j: Index :: Cleared(mem, page)[j] == 0
  }

  ghost predicate CanGrow(mem: Memory, l: Layout, p: Place, i: Index, page: nat) {
    CanLink(mem, l, p, i, page) && Blank(mem, page)
  }

  lemma GrownEntryOk(mem: Memory, l: Layout, p: Place, i: Index, page: nat, q: Place, j: Index)
    requires CanLink(mem, l, p, i, page) && (q != Child(p, i) || Blank(mem, page))
    requires !q.Pt? && (q in l.tabs || q == Child(p, i))
    ensures EntryOk(Grown(mem, l.tabs[p], i, page), l.Add(Child(p, i), page), q, j)
  {
    var c := Child(p, i);
    if q == c {
      assert Parent(Child(c, j)) == c;
      assert Child(c, j) !in l.tabs;
    } else {
      assert EntryOk(mem, l, q, j);
      assert Child(q, j) == c ==> Parent(c) == q && Parent(c) == p;
    }
  }

  lemma GrownIsSeparate(mem: Memory, l: Layout, p: Place, i: Index, page: nat)
    requires CanLink(mem, l, p, i, page)
    ensures Separate(Grown(mem, l.tabs[p], i, page), l.Add(Child(p, i), page))
  {
  }

  /** Growing keeps the invariant; for a leaf table whatever the page holds ... */
  lemma GrownIsTree(mem: Memory, l: Layout, p: Place, i: Index, page: nat)
    requires CanLink(mem, l, p, i, page) && (p.Pd? || Blank(mem, page))
    ensures Tree(Grown(mem, l.tabs[p], i, page), l.Add(Child(p, i), page))
  {
    var c := Child(p, i);
    var mem', l' := Grown(mem, l.tabs[p], i, page), l.Add(c, page);
    assert Parent(c) == p;
    GrownIsSeparate(mem, l, p, i, page);
    forall q, j: Index | q in l'.tabs && !q.Pt?
      ensures EntryOk(mem', l', q, j)
    {
      GrownEntryOk(mem, l, p, i, page, q, j);
    }
  }

  lemma GrownLeaf(mem: Memory, l: Layout, p: Place, i: Index, page: nat, root: nat, v: Vpn)
    requires CanLink(mem, l, p, i, page) && Pml4(root) in l.tabs
    ensures Leaf(Grown(mem, l.tabs[p], i, page), l.Add(Child(p, i), page), root, v)
         == if Pt(Owner(mem, l, root, v.i4), v.i4, v.i3, v.i2) == Child(p, i) then Cleared(mem, page)[v.i1]
            else Leaf(mem, l, root, v)
  {
    var mem', l' := Grown(mem, l.tabs[p], i, page), l.Add(Child(p, i), page);
    var o := Owner(mem, l, root, v.i4);
    assert Owner(mem', l', root, v.i4) == o;
  }

  /** ... and changes no translation in any address space. */
  lemma GrownKeepsWalks(mem: Memory, l: Layout, p: Place, i: Index, page: nat, root: nat, v: Vpn)
    requires CanGrow(mem, l, p, i, page) && Pml4(root) in l.tabs
    ensures Walk(Grown(mem, l.tabs[p], i, page), root, v) == Walk(mem, root, v)
  {
    GrownIsTree(mem, l, p, i, page);
    GrownLeaf(mem, l, p, i, page, root, v);
    WalkReadsLeaf(mem, l, root, v);
    WalkReadsLeaf(Grown(mem, l.tabs[p], i, page), l.Add(Child(p, i), page), root, v);
  }

  // ----- writing a leaf entry -----

  lemma WrittenIsTree(mem: Memory, l: Layout, p: Place, i: Index, e: nat)
    requires Tree(mem, l) && p in l.tabs && p.Pt?
    ensures Tree(Written(mem, l.tabs[p], i, e), l)
  {
    var mem' := Written(mem, l.tabs[p], i, e);
    forall q, j: Index | q in l.tabs && !q.Pt?
      ensures EntryOk(mem', l, q, j)
    {
      assert EntryOk(mem, l, q, j);
    }
  }

  /** Writing one leaf entry changes one page's translation, in the spaces that share the table. */
  lemma WrittenWalks(mem: Memory, l: Layout, p: Place, i: Index, e: nat, root: nat, v: Vpn)
    requires Tree(mem, l) && p in l.tabs && p.Pt? && Pml4(root) in l.tabs
    ensures Walk(Written(mem, l.tabs[p], i, e), root, v)
         == if v == Vpn(p.i4, p.i3, p.i2, i) && Owner(mem, l, root, p.i4) == p.root then e
            else Walk(mem, root, v)
  {
    var mem' := Written(mem, l.tabs[p], i, e);
    WrittenIsTree(mem, l, p, i, e);
    WalkReadsLeaf(mem, l, root, v);
    WalkReadsLeaf(mem', l, root, v);
    assert Owner(mem', l, root, v.i4) == Owner(mem, l, root, v.i4);
  }

  // ----- a page that memset may not reach -----

  /** A new leaf table makes translations of what stands in its page, in all spaces that see the directory, and
      changes no other. */
  lemma DirtyWalk(mem: Memory, l: Layout, p: Place, i: Index, page: nat, root: nat, v: Vpn)
    requires CanLink(mem, l, p, i, page) && p.Pd? && Pml4(root) in l.tabs
    ensures Tree(Grown(mem, l.tabs[p], i, page), l.Add(Child(p, i), page))
    ensures Walk(Grown(mem, l.tabs[p], i, page), root, v)
         == if Pt(Owner(mem, l, root, v.i4), v.i4, v.i3, v.i2) == Child(p, i) then Cleared(mem, page)[v.i1]
            else Walk(mem, root, v)
  {
    GrownIsTree(mem, l, p, i, page);
    GrownLeaf(mem, l, p, i, page, root, v);
    WalkReadsLeaf(mem, l, root, v);
    WalkReadsLeaf(Grown(mem, l.tabs[p], i, page), l.Add(Child(p, i), page), root, v);
  }

  /** A table other than a leaf table leaves a tree only if its page is blank. */
  lemma DirtyTable(mem: Memory, l: Layout, p: Place, i: Index, page: nat)
    requires CanLink(mem, l, p, i, page) && !p.Pd? && Tree(Grown(mem, l.tabs[p], i, page), l.Add(Child(p, i), page))
    ensures Blank(mem, page)
  {
    var c := Child(p, i);
    forall j: Index
      ensures Cleared(mem, page)[j] == 0
    {
      assert Parent(Child(c, j)) == c;
      assert EntryOk(Grown(mem, l.tabs[p], i, page), l.Add(c, page), c, j);
    }
  }

  /** At every level, a stanza of map_page keeps the tree and all translations of all spaces exactly when the page
      it takes reads as zeros after memset. */
  lemma GrownCleanIff(mem: Memory, l: Layout, p: Place, i: Index, page: nat)
    requires CanLink(mem, l, p, i, page)
    ensures (&& Tree(Grown(mem, l.tabs[p], i, page), l.Add(Child(p, i), page))
             && forall r, v :: Pml4(r) in l.tabs ==> Walk(Grown(mem, l.tabs[p], i, page), r, v) == Walk(mem, r, v))
            <==> Blank(mem, page)
  {
    var mem' := Grown(mem, l.tabs[p], i, page);
    if Blank(mem, page) {
      GrownIsTree(mem, l, p, i, page);
      forall r, v | Pml4(r) in l.tabs
        ensures Walk(mem', r, v) == Walk(mem, r, v)
      {
        GrownKeepsWalks(mem, l, p, i, page, r, v);
      }
    } else if p.Pd? {
      var j: Index :| Cleared(mem, page)[j] != 0;
      var v := Vpn(p.i4, p.i3, i, j);
      OwnLeaf(mem, l, p);
      DirtyWalk(mem, l, p, i, page, p.root, v);
      WalkReadsLeaf(mem, l, p.root, v);
      assert Walk(mem', p.root, v) != Walk(mem, p.root, v);
    } else if Tree(mem', l.Add(Child(p, i), page)) {
      DirtyTable(mem, l, p, i, page);
    }
  }

  /** A space owns what lies below its own directories. */
  lemma OwnLeaf(mem: Memory, l: Layout, p: Place)
    requires Tree(mem, l) && p in l.tabs && p.Pd?
    ensures Pml4(p.root) in l.tabs && Owner(mem, l, p.root, p.i4) == p.root
  {
    assert Parent(p) == Pdpt(p.root, p.i4) && Parent(Parent(p)) == Pml4(p.root);
  }

  // ----- running out of memory -----

  /** After alloc_page has failed: where the tables of a tree had an empty entry there may be a present
      one with a null base. */
  ghost predicate Hollowed(mem: Memory, mem': Memory, l: Layout) {
    forall p, i: Index :: p in l.tabs ==> HollowEntry(mem, mem', l, p, i)
  }

  ghost predicate HollowEntry(mem: Memory, mem': Memory, l: Layout, p: Place, i: Index)
    requires p in l.tabs
  {
    || Entry(mem', l.tabs[p], i) == Entry(mem, l.tabs[p], i)
    || (!p.Pt? && Entry(mem, l.tabs[p], i) == 0 && Entry(mem', l.tabs[p], i) == Link(0))
  }

  lemma HollowBase(mem: Memory, mem': Memory, l: Layout, p: Place, i: Index)
    requires Hollowed(mem, mem', l) && p in l.tabs
    ensures Base(Entry(mem', l.tabs[p], i)) == Base(Entry(mem, l.tabs[p], i))
    ensures p.Pt? ==> Entry(mem', l.tabs[p], i) == Entry(mem, l.tabs[p], i)
  {
    assert HollowEntry(mem, mem', l, p, i);
  }

  /** A null link hides nothing from get_phys_addr: it finds all translations as they were. */
  lemma HollowKeepsWalks(mem: Memory, mem': Memory, l: Layout, root: nat, v: Vpn)
    requires Tree(mem, l) && Pml4(root) in l.tabs && Hollowed(mem, mem', l)
    ensures Walk(mem', root, v) == Walk(mem, root, v)
  {
    HollowBase(mem, mem', l, Pml4(root), v.i4);
    EntryLeadsToChild(mem, l, Pml4(root), v.i4);
    var o := Owner(mem, l, root, v.i4);
    if Pdpt(o, v.i4) in l.tabs {
      HollowBase(mem, mem', l, Pdpt(o, v.i4), v.i3);
      EntryLeadsToChild(mem, l, Pdpt(o, v.i4), v.i3);
      if Pd(o, v.i4, v.i3) in l.tabs {
        HollowBase(mem, mem', l, Pd(o, v.i4, v.i3), v.i2);
        EntryLeadsToChild(mem, l, Pd(o, v.i4, v.i3), v.i2);
        var leaf := Pt(o, v.i4, v.i3, v.i2);
        if leaf in l.tabs {
          HollowBase(mem, mem', l, leaf, v.i1);
        }
      }
    }
  }

  /** Following the route from a table meets a present entry with a null base. */
  predicate MeetsNull(mem: Memory, table: nat, route: seq<Index>)
    decreases |route|
  {
    route != []
    && (Entry(mem, table, route[0]) == Link(0)
        || (Base(Entry(mem, table, route[0])) != 0 && MeetsNull(mem, Base(Entry(mem, table, route[0])), route[1..])))
  }

  function Depth(p: Place): nat {
    match p
    case Pml4(_) => 0
    case Pdpt(_, _) => 1
    case Pd(_, _, _) => 2
    case Pt(_, _, _, _) => 3
  }

  /** In a tree no route from a table does. */
  lemma {:induction false} TreeMeetsNoNull(mem: Memory, l: Layout, p: Place, route: seq<Index>)
    requires Tree(mem, l) && p in l.tabs && Depth(p) + |route| <= 3
    ensures !MeetsNull(mem, l.tabs[p], route)
    decreases |route|
  {
    if route != [] {
      EntryLeadsToChild(mem, l, p, route[0]);
      LinkRoundTrip(0);
      if Child(p, route[0]) in l.tabs {
        TreeMeetsNoNull(mem, l, Child(p, route[0]), route[1..]);
      } else if Entry(mem, l.tabs[p], route[0]) != 0 {
        TreeMeetsNoNull(mem, l, Pdpt(l.kernel, route[0]), route[1..]);
      }
    }
  }
}
