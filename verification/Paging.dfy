/** Four-level paging (kernel/src/map.cpp, kernel/src/x86/boot.S). The kernel edits its page tables
    through themselves: the last entry of the top table points to the top table, so that every table
    appears as a page at a fixed virtual address. This module gives the walk that the processor makes
    (section 4.5 of the Intel SDM, volume 3A) and proves that each address the code computes reaches
    the entry it means. */
module Paging {
  import opened Words
  import opened Numbers
  import opened FreePages

  const ENTRIES: nat := 512
  const SELF: nat := 511                     // the self-map entry
  const HALF: nat := 0x8000_0000_0000        // 2^47: the end of the lower half

  const PHYS: nat := 0x10_0000_0000_0000     // 2^52: the end of physical addresses

  const WINDOW4: nat := 0xFFFF_FFFF_FFFF_F000   // the top table's entries
  const WINDOW3: nat := 0xFFFF_FFFF_FFE0_0000   // all third-level entries
  const WINDOW2: nat := 0xFFFF_FFFF_C000_0000   // all second-level entries
  const WINDOW1: nat := 0xFFFF_FF80_0000_0000   // all page entries

  /** A frame number; the entry has 40 bits for it. */
  type Frame = f: nat | f < 0x100_0000_0000

  /** A page table entry, bit for bit. In a second- or third-level entry `pat` is the page-size bit. */
  datatype Pte = Pte(p: bool, rw: bool, us: bool, pwt: bool, pcd: bool, a: bool, d: bool, pat: bool, g: bool,
                     avl1: nat, addr: Frame, avl2: nat, nx: bool)

  const ZERO: Pte := Pte(false, false, false, false, false, false, false, false, false, 0, 0, 0, false)

  type Table = t: seq<Pte> | |t| == ENTRIES witness seq(ENTRIES, _ => ZERO)

  function Cleared(): Table { seq(ENTRIES, _ => ZERO) }

  /** The physical memory that holds, or may come to hold, tables. */
  type Ram = map<Frame, Table>

  // ---------------------------------------------------------------- addresses

  /** One step of `>> 9`. */
  function Up(n: nat): nat { n / ENTRIES }

  function Digit(n: nat): (r: nat)
    ensures r < ENTRIES
  {
    n % ENTRIES
  }

  /** The indices that a virtual address selects at the four levels: 9 bits each, above 12 bits of offset. */
  function I1(va: nat): (r: nat)
    ensures r < ENTRIES
  {
    Digit(va / PAGE)
  }

  function I2(va: nat): (r: nat)
    ensures r < ENTRIES
  {
    Digit(Up(va / PAGE))
  }

  function I3(va: nat): (r: nat)
    ensures r < ENTRIES
  {
    Digit(Up(Up(va / PAGE)))
  }

  function I4(va: nat): (r: nat)
    ensures r < ENTRIES
  {
    Digit(Up(Up(Up(va / PAGE))))
  }

  /** The address whose page number has the digits `hi`, `i4`, `i3`, `i2`, `i1`. */
  function Va(hi: nat, i4: nat, i3: nat, i2: nat, i1: nat, offset: nat): nat {
    ((((hi * ENTRIES + i4) * ENTRIES + i3) * ENTRIES + i2) * ENTRIES + i1) * PAGE + offset
  }

  lemma PageNumber(n: nat, offset: nat)
    requires offset < PAGE
    ensures (n * PAGE + offset) / PAGE == n && (n * PAGE + offset) % PAGE == offset
  {
  }

  lemma LastDigit(n: nat, d: nat)
    requires d < ENTRIES
    ensures Up(n * ENTRIES + d) == n && Digit(n * ENTRIES + d) == d
  {
  }

  lemma VaIndices(hi: nat, i4: nat, i3: nat, i2: nat, i1: nat, offset: nat)
    requires i4 < ENTRIES && i3 < ENTRIES && i2 < ENTRIES && i1 < ENTRIES && offset < PAGE
    ensures var va := Va(hi, i4, i3, i2, i1, offset);
            I4(va) == i4 && I3(va) == i3 && I2(va) == i2 && I1(va) == i1 && va % PAGE == offset
  {
    hide Up, Digit;
    var n3 := hi * ENTRIES + i4;
    var n2 := n3 * ENTRIES + i3;
    var n1 := n2 * ENTRIES + i2;
    PageNumber(n1 * ENTRIES + i1, offset);
    LastDigit(n1, i1);
    LastDigit(n2, i2);
    LastDigit(n3, i3);
    LastDigit(hi, i4);
  }

  /** What the code computes for each level: `(va >> 12 + 9 * k) & mask`. */
  function T4(va: nat): nat { Up(Up(Up(va / PAGE))) % 0x200 }
  function T3(va: nat): nat { Up(Up(va / PAGE)) % 0x4_0000 }
  function T2(va: nat): nat { Up(va / PAGE) % 0x800_0000 }
  function T1(va: nat): nat { va / PAGE % 0x10_0000_0000 }

  /** In the lower half they are the indices put together. */
  lemma Combined(va: nat)
    requires va < HALF
    ensures T4(va) == I4(va) && I4(va) < 256
    ensures T3(va) == I4(va) * ENTRIES + I3(va)
    ensures T2(va) == (I4(va) * ENTRIES + I3(va)) * ENTRIES + I2(va)
    ensures T1(va) == ((I4(va) * ENTRIES + I3(va)) * ENTRIES + I2(va)) * ENTRIES + I1(va)
  {
  }

  /** The entry addresses the code forms, taken apart. */
  lemma EntryAddress4(i4: nat)
    requires i4 < ENTRIES
    ensures WINDOW4 + 8 * i4 == Va(0xFFFF, SELF, SELF, SELF, SELF, 8 * i4)
  {
  }

  lemma EntryAddress3(i4: nat, i3: nat)
    requires i4 < ENTRIES && i3 < ENTRIES
    ensures WINDOW3 + 8 * (i4 * ENTRIES + i3) == Va(0xFFFF, SELF, SELF, SELF, i4, 8 * i3)
    ensures WINDOW3 + PAGE * i4 == Va(0xFFFF, SELF, SELF, SELF, i4, 0)
  {
  }

  lemma EntryAddress2(i4: nat, i3: nat, i2: nat)
    requires i4 < ENTRIES && i3 < ENTRIES && i2 < ENTRIES
    ensures WINDOW2 + 8 * ((i4 * ENTRIES + i3) * ENTRIES + i2) == Va(0xFFFF, SELF, SELF, i4, i3, 8 * i2)
    ensures WINDOW2 + PAGE * (i4 * ENTRIES + i3) == Va(0xFFFF, SELF, SELF, i4, i3, 0)
  {
  }

  lemma EntryAddress1(i4: nat, i3: nat, i2: nat, i1: nat)
    requires i4 < ENTRIES && i3 < ENTRIES && i2 < ENTRIES && i1 < ENTRIES
    ensures WINDOW1 + 8 * (((i4 * ENTRIES + i3) * ENTRIES + i2) * ENTRIES + i1) == Va(0xFFFF, SELF, i4, i3, i2, 8 * i1)
    ensures WINDOW1 + PAGE * ((i4 * ENTRIES + i3) * ENTRIES + i2) == Va(0xFFFF, SELF, i4, i3, i2, 0)
  {
  }

  // ---------------------------------------------------------------- the processor's walk

  datatype Leaf = NotMapped | Small(e: Pte) | Large(e: Pte, level: nat)

  /** Entry `i` of the table in frame `f`; memory outside `ram` holds no tables. */
  function EntryOf(ram: Ram, f: Frame, i: nat): Pte
    requires i < ENTRIES
  {
    if f in ram then ram[f][i] else ZERO
  }

  function Walk(ram: Ram, root: Frame, va: nat): Leaf {
    var e4 := EntryOf(ram, root, I4(va));
    if !e4.p then NotMapped else
    var e3 := EntryOf(ram, e4.addr, I3(va));
    if !e3.p then NotMapped else if e3.pat then Large(e3, 3) else
    var e2 := EntryOf(ram, e3.addr, I2(va));
    if !e2.p then NotMapped else if e2.pat then Large(e2, 2) else
    var e1 := EntryOf(ram, e2.addr, I1(va));
    if !e1.p then NotMapped else Small(e1)
  }

  /** What may be done with a page. */
  datatype Rights = Rights(write: bool, user: bool, execute: bool)

  /** The rights that the entries on the way leave to a small page (section 4.6 of the Intel SDM, volume 3A): every
      one of the four must allow writing and user access, and none may forbid execution. */
  function Allows(ram: Ram, root: Frame, va: nat): Rights {
    var e4 := EntryOf(ram, root, I4(va));
    var e3 := EntryOf(ram, e4.addr, I3(va));
    var e2 := EntryOf(ram, e3.addr, I2(va));
    var e1 := EntryOf(ram, e2.addr, I1(va));
    Rights(e4.rw && e3.rw && e2.rw && e1.rw, e4.us && e3.us && e2.us && e1.us, !e4.nx && !e3.nx && !e2.nx && !e1.nx)
  }

  /** The physical address that a mapped virtual address stands for. */
  function Physical(leaf: Leaf, va: nat): nat
    requires leaf != NotMapped
  {
    match leaf
    case Small(e) => e.addr * PAGE + va % PAGE
    case Large(e, level) =>
      if level == 2 then e.addr / 0x200 * 0x20_0000 + va % 0x20_0000
      else e.addr / 0x4_0000 * 0x4000_0000 + va % 0x4000_0000
  }

  /** The table entry that lies at a virtual address mapped by a small page. */
  predicate Reaches(ram: Ram, root: Frame, va: nat, f: Frame, i: nat) {
    Walk(ram, root, va).Small? && Walk(ram, root, va).e.addr == f && va % PAGE == 8 * i
  }

  // ---------------------------------------------------------------- the tables as a tree

  /** A table is named by the indices that lead to it. */
  datatype Path = Top | Third(i4: nat) | Second(i4: nat, i3: nat) | First(i4: nat, i3: nat, i2: nat)

  function Child(q: Path, i: nat): Path
    requires !q.First?
  {
    match q
    case Top => Third(i)
    case Third(i4) => Second(i4, i)
    case Second(i4, i3) => First(i4, i3, i)
  }

  function Parent(q: Path): (r: Path)
    requires q != Top
    ensures !r.First? && Child(r, Last(q)) == q
  {
    match q
    case Third(i4) => Top
    case Second(i4, i3) => Third(i4)
    case First(i4, i3, i2) => Second(i4, i3)
  }

  function Last(q: Path): nat
    requires q != Top
  {
    match q
    case Third(i4) => i4
    case Second(i4, i3) => i3
    case First(i4, i3, i2) => i2
  }

  /** Which frame holds which table. */
  type Tables = map<Path, Frame>

  /** The virtual address at which the code finds entry `i` of a table. */
  function EntryVa(q: Path, i: nat): nat {
    match q
    case Top => WINDOW4 + 8 * i
    case Third(i4) => WINDOW3 + 8 * (i4 * ENTRIES + i)
    case Second(i4, i3) => WINDOW2 + 8 * ((i4 * ENTRIES + i3) * ENTRIES + i)
    case First(i4, i3, i2) => WINDOW1 + 8 * (((i4 * ENTRIES + i3) * ENTRIES + i2) * ENTRIES + i)
  }

  /** The entry leads to the table in frame `f` and restricts nothing. */
  predicate LinksTo(e: Pte, f: Frame) { e.p && !e.pat && e.addr == f && e.rw && e.us && !e.nx }

  /** The entry of table `q` at `i` points to the table below, which is `ts[Child(q, i)]`. */
  ghost predicate Points(ram: Ram, ts: Tables, q: Path, i: nat) {
    && !q.First? && i < ENTRIES && (q == Top ==> i != SELF)
    && q in ts && Child(q, i) in ts && ts[q] in ram
    && LinksTo(ram[ts[q]][i], ts[Child(q, i)])
  }

  /** Every table is reached from the top one, each in a frame of its own, and the top table's last
      entry points back to it. */
  ghost predicate Spine(ram: Ram, root: Frame, ts: Tables) {
    && Top in ts && ts[Top] == root && root in ram
    && LinksTo(ram[root][SELF], root)
    && (forall q, r :: q in ts && r in ts && ts[q] == ts[r] ==> q == r)
    && (forall q :: q in ts ==> ts[q] in ram)
    && (forall q :: q in ts && q != Top ==> Parent(q) in ts && Points(ram, ts, Parent(q), Last(q)))
  }

  /** The first 16 MiB are mapped by large pages (boot.S); nothing else is. */
  predicate BootLarge(q: Path, i: nat) { q == Second(0, 0) && i < 8 }

  /** What a table entry that points to no table may be. */
  ghost predicate Exact(ram: Ram, ts: Tables, q: Path, i: nat) {
    && q in ts && ts[q] in ram && !q.First? && i < ENTRIES
    && var e := ram[ts[q]][i];
       Child(q, i) !in ts ==> (e.p ==> BootLarge(q, i) && e.pat) && (!e.p ==> !e.pat && !e.nx)
  }

  ghost predicate Inv(ram: Ram, root: Frame, ts: Tables) {
    && Spine(ram, root, ts)
    && forall q, i: nat :: q in ts && !q.First? && i < ENTRIES && !(q == Top && i == SELF) ==> Exact(ram, ts, q, i)
  }

  // ---------------------------------------------------------------- the windows reach what they should

  lemma LinkOf(ram: Ram, root: Frame, ts: Tables, q: Path)
    requires Spine(ram, root, ts) && q in ts && q != Top
    ensures Last(q) < ENTRIES && Parent(q) in ts && LinksTo(EntryOf(ram, ts[Parent(q)], Last(q)), ts[q])
  {
  }

  lemma SelfLink(ram: Ram, root: Frame, ts: Tables)
    requires Spine(ram, root, ts)
    ensures Top in ts && ts[Top] == root && LinksTo(EntryOf(ram, root, SELF), root)
  {
  }

  /** Four links in a row are a walk. */
  lemma WalkLinks(ram: Ram, root: Frame, va: nat, f3: Frame, f2: Frame, f1: Frame, f: Frame)
    requires LinksTo(EntryOf(ram, root, I4(va)), f3) && LinksTo(EntryOf(ram, f3, I3(va)), f2)
    requires LinksTo(EntryOf(ram, f2, I2(va)), f1) && LinksTo(EntryOf(ram, f1, I1(va)), f)
    ensures Walk(ram, root, va).Small? && Walk(ram, root, va).e.addr == f
  {
  }

  lemma Reach4(ram: Ram, root: Frame, ts: Tables, i: nat)
    requires Spine(ram, root, ts) && i < ENTRIES
    ensures Reaches(ram, root, EntryVa(Top, i), root, i)
  {
    hide I1, I2, I3, I4, Va, Spine, Walk, EntryOf, LinksTo;
    SelfLink(ram, root, ts);
    EntryAddress4(i);
    VaIndices(0xFFFF, SELF, SELF, SELF, SELF, 8 * i);
    WalkLinks(ram, root, EntryVa(Top, i), root, root, root, root);
  }

  lemma Reach3(ram: Ram, root: Frame, ts: Tables, i4: nat, i: nat)
    requires Spine(ram, root, ts) && Third(i4) in ts && i < ENTRIES
    ensures Reaches(ram, root, EntryVa(Third(i4), i), ts[Third(i4)], i)
  {
    hide I1, I2, I3, I4, Va, Spine, Walk, EntryOf, LinksTo;
    SelfLink(ram, root, ts);
    LinkOf(ram, root, ts, Third(i4));
    EntryAddress3(i4, i);
    VaIndices(0xFFFF, SELF, SELF, SELF, i4, 8 * i);
    WalkLinks(ram, root, EntryVa(Third(i4), i), root, root, root, ts[Third(i4)]);
  }

  lemma Reach2(ram: Ram, root: Frame, ts: Tables, i4: nat, i3: nat, i: nat)
    requires Spine(ram, root, ts) && Second(i4, i3) in ts && i < ENTRIES
    ensures Reaches(ram, root, EntryVa(Second(i4, i3), i), ts[Second(i4, i3)], i)
  {
    hide I1, I2, I3, I4, Va, Spine, Walk, EntryOf, LinksTo;
    SelfLink(ram, root, ts);
    LinkOf(ram, root, ts, Second(i4, i3));
    LinkOf(ram, root, ts, Third(i4));
    EntryAddress2(i4, i3, i);
    VaIndices(0xFFFF, SELF, SELF, i4, i3, 8 * i);
    WalkLinks(ram, root, EntryVa(Second(i4, i3), i), root, root, ts[Third(i4)], ts[Second(i4, i3)]);
  }

  lemma Reach1(ram: Ram, root: Frame, ts: Tables, i4: nat, i3: nat, i2: nat, i: nat)
    requires Spine(ram, root, ts) && First(i4, i3, i2) in ts && i < ENTRIES
    ensures Reaches(ram, root, EntryVa(First(i4, i3, i2), i), ts[First(i4, i3, i2)], i)
  {
    hide I1, I2, I3, I4, Va, Spine, Walk, EntryOf, LinksTo;
    SelfLink(ram, root, ts);
    LinkOf(ram, root, ts, First(i4, i3, i2));
    LinkOf(ram, root, ts, Second(i4, i3));
    LinkOf(ram, root, ts, Third(i4));
    EntryAddress1(i4, i3, i2, i);
    VaIndices(0xFFFF, SELF, i4, i3, i2, 8 * i);
    WalkLinks(ram, root, EntryVa(First(i4, i3, i2), i), root, ts[Third(i4)], ts[Second(i4, i3)], ts[First(i4, i3, i2)]);
  }

  /** Every window address resolves, through the self-map entry, to exactly the entry it is meant for. */
  lemma WindowReaches(ram: Ram, root: Frame, ts: Tables, q: Path, i: nat)
    requires Spine(ram, root, ts) && q in ts && i < ENTRIES
    ensures Reaches(ram, root, EntryVa(q, i), ts[q], i)
  {
    hide Spine, Reaches, EntryVa;
    match q {
      case Top => TopIsRoot(ram, root, ts); Reach4(ram, root, ts, i);
      case Third(i4) => Reach3(ram, root, ts, i4, i);
      case Second(i4, i3) => Reach2(ram, root, ts, i4, i3, i);
      case First(i4, i3, i2) => Reach1(ram, root, ts, i4, i3, i2, i);
    }
  }

  lemma TopIsRoot(ram: Ram, root: Frame, ts: Tables)
    requires Spine(ram, root, ts)
    ensures ts[Top] == root
  {
  }

  // ---------------------------------------------------------------- the walk, by way of the tree

  function SmallOr(e: Pte): Leaf { if e.p then Small(e) else NotMapped }

  function LargeOr(e: Pte): Leaf { if e.p then Large(e, 2) else NotMapped }

  /** What the tree of tables says about an address. */
  function Tree(ram: Ram, ts: Tables, va: nat): Leaf {
    var q1, q2 := First(I4(va), I3(va), I2(va)), Second(I4(va), I3(va));
    if q1 in ts then SmallOr(EntryOf(ram, ts[q1], I1(va)))
    else if q2 in ts then LargeOr(EntryOf(ram, ts[q2], I2(va)))
    else NotMapped
  }

  /** In the lower half the processor's walk agrees with the tree. */
  lemma TreeWalk(ram: Ram, root: Frame, ts: Tables, va: nat)
    requires Inv(ram, root, ts) && va < HALF
    ensures Walk(ram, root, va) == Tree(ram, ts, va)
  {
    Combined(va);
    hide I1, I2, I3, I4, T1, T2, T3, T4;
    var q1, q2, q3 := First(I4(va), I3(va), I2(va)), Second(I4(va), I3(va)), Third(I4(va));
    assert Exact(ram, ts, Top, I4(va));
    if q3 in ts {
      assert Points(ram, ts, Top, I4(va)) && Exact(ram, ts, q3, I3(va));
      if q2 in ts {
        assert Points(ram, ts, q3, I3(va)) && Exact(ram, ts, q2, I2(va));
        if q1 in ts {
          assert Points(ram, ts, q2, I2(va));
        }
      }
    }
  }

  /** In the lower half the tables restrict nothing: what may be done with a page is up to its own entry. */
  lemma RightsOfLeaf(ram: Ram, root: Frame, ts: Tables, va: nat)
    requires Inv(ram, root, ts) && va < HALF && Walk(ram, root, va).Small?
    ensures var e := Walk(ram, root, va).e; Allows(ram, root, va) == Rights(e.rw, e.us, !e.nx)
  {
    Combined(va);
    hide I1, I2, I3, I4, T1, T2, T3, T4;
    var q1, q2, q3 := First(I4(va), I3(va), I2(va)), Second(I4(va), I3(va)), Third(I4(va));
    assert Exact(ram, ts, Top, I4(va));
    if q3 in ts {
      assert Points(ram, ts, Top, I4(va)) && Exact(ram, ts, q3, I3(va));
      if q2 in ts {
        assert Points(ram, ts, q3, I3(va)) && Exact(ram, ts, q2, I2(va));
        if q1 in ts {
          assert Points(ram, ts, q2, I2(va));
        }
      }
    }
  }

  // ---------------------------------------------------------------- what the stores do

  function Store(ram: Ram, f: Frame, i: nat, e: Pte): Ram
    requires f in ram && i < ENTRIES
  {
    ram[f := ram[f][i := e]]
  }

  /** An entry for which a table may be made: not present, and outside the self-map and the large pages. */
  ghost predicate Vacant(ram: Ram, ts: Tables, q: Path, i: nat) {
    && !q.First? && i < ENTRIES && !(q == Top && i == SELF)
    && q in ts && ts[q] in ram && !ram[ts[q]][i].p && !ram[ts[q]][i].pat && !ram[ts[q]][i].nx
    && Child(q, i) !in ts
  }

  /** The entry for a new table in frame `c`; the fields the code does not write keep their value. */
  function TableEntry(e: Pte, c: Frame): Pte {
    e.(addr := c, p := true, rw := true, us := true, pwt := true, pcd := true)
  }

  /** What the code writes for a new table: present, unrestricted, and with accesses to the table uncached. */
  predicate IsTableEntry(e: Pte, c: Frame) { e.p && e.addr == c && e.rw && e.us && e.pwt && e.pcd && !e.pat && !e.nx }

  /** Linking a table in: the windows work for the new table at once. */
  lemma LinkKeepsSpine(ram: Ram, root: Frame, ts: Tables, q: Path, i: nat, c: Frame)
    requires Spine(ram, root, ts) && Vacant(ram, ts, q, i) && c in ram && c !in ts.Values
    ensures Spine(Store(ram, ts[q], i, TableEntry(ram[ts[q]][i], c)), root, ts[Child(q, i) := c])
  {
    hide Points;
    var ram', ts' := Store(ram, ts[q], i, TableEntry(ram[ts[q]][i], c)), ts[Child(q, i) := c];
    forall r | r in ts ensures ts[r] in ts.Values {
    }
    forall r | r in ts' && r != Top ensures Parent(r) in ts' && Points(ram', ts', Parent(r), Last(r)) {
      LinkKeepsPoint(ram, ts, q, i, c, r);
    }
  }

  lemma LinkKeepsPoint(ram: Ram, ts: Tables, q: Path, i: nat, c: Frame, r: Path)
    requires Vacant(ram, ts, q, i) && c in ram && c !in ts.Values && r != Top && (r in ts || r == Child(q, i))
    requires r in ts ==> Parent(r) in ts && Points(ram, ts, Parent(r), Last(r))
    requires forall r, s :: r in ts && s in ts && ts[r] == ts[s] ==> r == s
    ensures Points(Store(ram, ts[q], i, TableEntry(ram[ts[q]][i], c)), ts[Child(q, i) := c], Parent(r), Last(r))
  {
  }

  /** Clearing the new table makes the tables well formed again. */
  lemma ClearKeepsInv(ram: Ram, root: Frame, ts: Tables, q: Path, i: nat, c: Frame)
    requires Inv(ram, root, ts) && Vacant(ram, ts, q, i) && c in ram && c !in ts.Values
    ensures Inv(Store(ram, ts[q], i, TableEntry(ram[ts[q]][i], c))[c := Cleared()], root, ts[Child(q, i) := c])
  {
    hide Exact, TableEntry, Points;
    var ram1, ts' := Store(ram, ts[q], i, TableEntry(ram[ts[q]][i], c)), ts[Child(q, i) := c];
    LinkKeepsSpine(ram, root, ts, q, i, c);
    ClearKeepsSpine(ram1, root, ts', Child(q, i), c);
    var ram' := ram1[c := Cleared()];
    forall r, j: nat | r in ts' && !r.First? && j < ENTRIES && !(r == Top && j == SELF) ensures Exact(ram', ts', r, j) {
      ClearKeepsExact(ram, root, ts, q, i, c, r, j);
    }
  }

  lemma ClearKeepsSpine(ram: Ram, root: Frame, ts: Tables, new': Path, c: Frame)
    requires Spine(ram, root, ts) && new' in ts && ts[new'] == c && new' != Top && c in ram
    requires forall r :: r in ts && r != Top ==> Parent(r) != new'
    ensures Spine(ram[c := Cleared()], root, ts)
  {
    forall r | r in ts && r != Top ensures Points(ram[c := Cleared()], ts, Parent(r), Last(r)) {
      assert Points(ram, ts, Parent(r), Last(r));
    }
  }

  lemma ClearKeepsExact(ram: Ram, root: Frame, ts: Tables, q: Path, i: nat, c: Frame, r: Path, j: nat)
    requires Inv(ram, root, ts) && Vacant(ram, ts, q, i) && c in ram && c !in ts.Values
    requires (r in ts || r == Child(q, i)) && !r.First? && j < ENTRIES && !(r == Top && j == SELF)
    ensures Exact(Store(ram, ts[q], i, TableEntry(ram[ts[q]][i], c))[c := Cleared()], ts[Child(q, i) := c], r, j)
  {
    hide Points;
    forall r | r in ts ensures ts[r] in ts.Values {
    }
    if r != Child(q, i) && !(r == q && j == i) {
      assert Exact(ram, ts, r, j);
    }
  }

  /** No translation changes when a table is added. */
  lemma TableChangesNothing(ram: Ram, root: Frame, ts: Tables, q: Path, i: nat, c: Frame, va: nat)
    requires Inv(ram, root, ts) && Vacant(ram, ts, q, i) && c in ram && c !in ts.Values && va < HALF
    ensures Walk(Store(ram, ts[q], i, TableEntry(ram[ts[q]][i], c))[c := Cleared()], root, va) == Walk(ram, root, va)
  {
    var ram', ts' := Store(ram, ts[q], i, TableEntry(ram[ts[q]][i], c))[c := Cleared()], ts[Child(q, i) := c];
    ClearKeepsInv(ram, root, ts, q, i, c);
    TreeWalk(ram, root, ts, va);
    TreeWalk(ram', root, ts', va);
    TreeKeeps(ram, root, ts, q, i, c, va);
  }

  lemma EntryKeeps(ram: Ram, root: Frame, ts: Tables, q: Path, i: nat, c: Frame, r: Path, j: nat)
    requires Spine(ram, root, ts) && Vacant(ram, ts, q, i) && c in ram && c !in ts.Values
    requires r in ts && j < ENTRIES && !(r == q && j == i)
    ensures EntryOf(Store(ram, ts[q], i, TableEntry(ram[ts[q]][i], c))[c := Cleared()], ts[r], j) ==
            EntryOf(ram, ts[r], j)
  {
  }

  lemma TreeKeeps(ram: Ram, root: Frame, ts: Tables, q: Path, i: nat, c: Frame, va: nat)
    requires Spine(ram, root, ts) && Vacant(ram, ts, q, i) && c in ram && c !in ts.Values
    ensures Tree(Store(ram, ts[q], i, TableEntry(ram[ts[q]][i], c))[c := Cleared()], ts[Child(q, i) := c], va) ==
            Tree(ram, ts, va)
  {
    hide I1, I2, I3, I4, Points;
    var q1, q2 := First(I4(va), I3(va), I2(va)), Second(I4(va), I3(va));
    assert q1 in ts ==> Parent(q1) == q2 && q2 in ts;
    if q1 in ts {
      EntryKeeps(ram, root, ts, q, i, c, q1, I1(va));
    } else if q2 in ts && !(q2 == q && I2(va) == i) {
      EntryKeeps(ram, root, ts, q, i, c, q2, I2(va));
    }
  }

  /** Writing a page entry keeps the tables well formed. */
  lemma LeafKeepsInv(ram: Ram, root: Frame, ts: Tables, q: Path, i: nat, e: Pte)
    requires Inv(ram, root, ts) && q in ts && q.First? && i < ENTRIES
    ensures Inv(Store(ram, ts[q], i, e), root, ts)
  {
    var ram' := Store(ram, ts[q], i, e);
    assert forall r :: r in ts && !r.First? ==> ram'[ts[r]] == ram[ts[r]];
    forall r | r in ts && r != Top ensures Points(ram', ts, Parent(r), Last(r)) {
      assert Points(ram, ts, Parent(r), Last(r));
    }
    forall r, j: nat | r in ts && !r.First? && j < ENTRIES && !(r == Top && j == SELF) ensures Exact(ram', ts, r, j) {
      assert Exact(ram, ts, r, j);
    }
  }

  // ---------------------------------------------------------------- the tables that boot.S builds

  /** An entry from the 64-bit word in memory. */
  function Decode(n: nat): Pte
    requires n < 0x1_0000_0000_0000_0000
  {
    Pte(n % 2 == 1, n / 2 % 2 == 1, n / 4 % 2 == 1, n / 8 % 2 == 1, n / 0x10 % 2 == 1, n / 0x20 % 2 == 1,
        n / 0x40 % 2 == 1, n / 0x80 % 2 == 1, n / 0x100 % 2 == 1, n / 0x200 % 8,
        n / PAGE % 0x100_0000_0000, n / 0x10_0000_0000_0000 % 0x800, n / 0x8000_0000_0000_0000 == 1)
  }

  /** The second-level table: entries 1 to 7 map 2 MiB each, onto themselves. */
  function BootPages(): Table {
    seq(ENTRIES, i requires 0 <= i < ENTRIES => if 1 <= i < 8 then Decode(0x20_0087 + 0x20_0000 * (i - 1)) else ZERO)
  }

  /** Three cleared frames with the stores of boot.S: the self-map entry, the two links, the large pages. */
  function BootRam(memory: Ram): Ram {
    memory[1 := Cleared()[SELF := Decode(0x1007)][0 := Decode(0x2007)]]
          [2 := Cleared()[0 := Decode(0x3007)]]
          [3 := BootPages()]
  }

  const BOOT_TABLES: Tables := map[Top := 1, Third(0) := 2, Second(0, 0) := 3]

  lemma BootEntries(memory: Ram)
    ensures var ram := BootRam(memory);
            && 1 in ram && 2 in ram && 3 in ram
            && LinksTo(ram[1][SELF], 1) && LinksTo(ram[1][0], 2) && LinksTo(ram[2][0], 3)
            && (forall i :: 0 < i < SELF ==> ram[1][i] == ZERO) && (forall i :: 0 < i < ENTRIES ==> ram[2][i] == ZERO)
            && ram[3] == BootPages()
  {
  }

  lemma BootPage(i: nat)
    requires i < ENTRIES
    ensures var e := BootPages()[i];
            if 1 <= i < 8 then e.p && e.pat && e.rw && !e.nx && e.addr == 0x200 * i else e == ZERO
  {
    hide Decode;
    if 1 <= i < 8 { LargeEntry(i); }
  }

  lemma LargeEntry(i: nat)
    requires 1 <= i < 8
    ensures var e := Decode(0x20_0087 + 0x20_0000 * (i - 1)); e.p && e.pat && e.rw && !e.nx && e.addr == 0x200 * i
  {
    var n := 0x20_0087 + 0x20_0000 * (i - 1);
    DivUnique(n, 2, 0x10_0000 * i + 0x43, 1);
    DivUnique(n / 2, 2, 0x8_0000 * i + 0x21, 1);
    DivUnique(n, 0x80, 0x4000 * i + 1, 7);
    DivUnique(n / 0x80, 2, 0x2000 * i, 1);
    DivUnique(n, PAGE, 0x200 * i, 0x87);
  }

  /** The boot tables are well formed. */
  lemma BootIsWellFormed(memory: Ram)
    ensures Inv(BootRam(memory), 1, BOOT_TABLES)
  {
    hide BootRam, BootPages, Decode;
    var ram := BootRam(memory);
    BootEntries(memory);
    assert Points(ram, BOOT_TABLES, Top, 0) && Points(ram, BOOT_TABLES, Third(0), 0);
    forall q, i: nat | q in BOOT_TABLES && !q.First? && i < ENTRIES && !(q == Top && i == SELF)
      ensures Exact(ram, BOOT_TABLES, q, i)
    {
      BootPage(i);
    }
  }

  /** After boot, the bytes from 2 MiB to 16 MiB are mapped onto themselves and nothing else below 2^47 is. */
  lemma BootMapping(memory: Ram, va: nat)
    requires va < HALF
    ensures var leaf := Walk(BootRam(memory), 1, va);
            if 0x20_0000 <= va < 0x100_0000 then leaf.Large? && leaf.e.rw && !leaf.e.nx && Physical(leaf, va) == va
            else leaf == NotMapped
  {
    hide BootRam, BootPages, Decode, Inv, Walk;
    BootIsWellFormed(memory);
    BootEntries(memory);
    TreeWalk(BootRam(memory), 1, BOOT_TABLES, va);
    BootIndex(va);
    BootPage(I2(va));
    hide I1, I2, I3, I4;
    if 0x20_0000 <= va < 0x100_0000 {
      assert va % 0x20_0000 == va - 0x20_0000 * I2(va);
    }
  }

  lemma BootIndex(va: nat)
    requires va < HALF
    ensures I4(va) == 0 && I3(va) == 0 && I2(va) < 8 <==> va < 0x100_0000
    ensures va < 0x100_0000 ==> I2(va) == va / 0x20_0000
  {
  }

  // ---------------------------------------------------------------- translations, page by page

  const PAGES: nat := 0x8_0000_0000          // pages in the lower half
  const FIRST_PAGE: nat := PAGE            // the first page behind the boot mapping

  /** What a page is mapped to. */
  function PageAt(ram: Ram, root: Frame, n: nat): Leaf { Walk(ram, root, n * PAGE) }

  /** The walk looks at the page number only. */
  lemma WalkByPage(ram: Ram, root: Frame, va: nat)
    ensures Walk(ram, root, va) == PageAt(ram, root, va / PAGE)
  {
    hide Up, Digit, EntryOf;
    PageNumber(va / PAGE, 0);
  }

  lemma SamePage(va: nat, w: nat)
    requires va < HALF && w < HALF
    requires I1(va) == I1(w) && I2(va) == I2(w) && I3(va) == I3(w) && I4(va) == I4(w)
    ensures va / PAGE == w / PAGE
  {
    hide I1, I2, I3, I4, T1, T2, T3, T4;
    Combined(va);
    Combined(w);
    LowerHalf(va);
    LowerHalf(w);
  }

  lemma LowerHalf(va: nat)
    requires va < HALF
    ensures T1(va) == va / PAGE
  {
  }

  /** Writing the entry of one page changes the translation of that page alone. */
  lemma LeafChangesOne(ram: Ram, root: Frame, ts: Tables, va: nat, e: Pte)
    requires Inv(ram, root, ts) && va < HALF && First(I4(va), I3(va), I2(va)) in ts
    ensures var ram' := Store(ram, ts[First(I4(va), I3(va), I2(va))], I1(va), e);
            && Inv(ram', root, ts)
            && PageAt(ram', root, va / PAGE) == SmallOr(e)
            && OtherPages(ram, ram', root, va / PAGE)
  {
    hide I1, I2, I3, I4, Exact, Points, Walk;
    var q := First(I4(va), I3(va), I2(va));
    var ram' := Store(ram, ts[q], I1(va), e);
    LeafKeepsInv(ram, root, ts, q, I1(va), e);
    WalkByPage(ram', root, va);
    TreeWalk(ram', root, ts, va);
    forall n: nat | n < PAGES && n != va / PAGE ensures PageAt(ram', root, n) == PageAt(ram, root, n) {
      LeafKeepsOthers(ram, root, ts, va, e, n);
    }
  }

  lemma LeafKeepsOthers(ram: Ram, root: Frame, ts: Tables, va: nat, e: Pte, n: nat)
    requires Inv(ram, root, ts) && va < HALF && First(I4(va), I3(va), I2(va)) in ts && n < PAGES && n != va / PAGE
    ensures var ram' := Store(ram, ts[First(I4(va), I3(va), I2(va))], I1(va), e);
            PageAt(ram', root, n) == PageAt(ram, root, n)
  {
    hide I1, I2, I3, I4, Inv, Walk, Tree, Store;
    InvSpine(ram, root, ts);
    SpineFrame(ram, root, ts, First(I4(va), I3(va), I2(va)));
    var q := First(I4(va), I3(va), I2(va));
    var ram' := Store(ram, ts[q], I1(va), e);
    var w := n * PAGE;
    PageNumber(n, 0);
    LeafKeepsInv(ram, root, ts, q, I1(va), e);
    TreeWalk(ram, root, ts, w);
    TreeWalk(ram', root, ts, w);
    if First(I4(w), I3(w), I2(w)) == q && I1(w) == I1(va) {
      SamePage(va, w);
    }
    TreeKeepsOthers(ram, root, ts, q, I1(va), e, w);
  }

  lemma SpineFrame(ram: Ram, root: Frame, ts: Tables, q: Path)
    requires Spine(ram, root, ts) && q in ts
    ensures ts[q] in ram
  {
  }

  /** The tree says the same about an address whose way does not end in the entry written. */
  lemma TreeKeepsOthers(ram: Ram, root: Frame, ts: Tables, q: Path, i: nat, e: Pte, w: nat)
    requires Spine(ram, root, ts) && q in ts && q.First? && ts[q] in ram && i < ENTRIES
    requires First(I4(w), I3(w), I2(w)) == q ==> I1(w) != i
    ensures Tree(Store(ram, ts[q], i, e), ts, w) == Tree(ram, ts, w)
  {
    hide I1, I2, I3, I4, Points;
  }

  ghost predicate OtherPages(ram: Ram, ram': Ram, root: Frame, n: nat) {
    forall m: nat :: m < PAGES && m != n ==> PageAt(ram', root, m) == PageAt(ram, root, m)
  }

  ghost predicate AllPages(ram: Ram, ram': Ram, root: Frame) {
    forall m: nat :: m < PAGES ==> PageAt(ram', root, m) == PageAt(ram, root, m)
  }

  // ---------------------------------------------------------------- mapping and unmapping a page

  datatype MappingUse =
    | DeviceRegisters | DeviceMemory | ReadWriteMemory | ReadOnlyMemory | CopyOnWriteMemory | ExecutableMemory

  /** What an entry must say to map frame `frame` for `use`: only read-only and copy-on-write pages are
      protected from writes, only device pages bypass the cache, only executable pages run code; the
      page is the supervisor's and is kept across address-space switches. */
  predicate Describes(e: Pte, frame: Frame, use: MappingUse) {
    && e.p && e.addr == frame && !e.us && e.g && !e.pat
    && (e.rw <==> use != ReadOnlyMemory && use != CopyOnWriteMemory)
    && (e.pcd <==> use == DeviceRegisters || use == DeviceMemory)
    && (e.pwt <==> e.pcd)
    && (e.nx <==> use != ExecutableMemory)
  }

  /** The rights that each use is to have, whatever the levels: no page is for user code. */
  function Granted(use: MappingUse): Rights {
    Rights(use != ReadOnlyMemory && use != CopyOnWriteMemory, false, use == ExecutableMemory)
  }

  /** Page `n` comes to translate to `frame`, with the rights of its use over all levels; no other page changes. */
  ghost predicate Maps(ram: Ram, ram': Ram, root: Frame, n: nat, frame: Frame, use: MappingUse) {
    && PageAt(ram', root, n).Small? && Describes(PageAt(ram', root, n).e, frame, use)
    && Allows(ram', root, n * PAGE) == Granted(use)
    && OtherPages(ram, ram', root, n)
  }

  /** A mapped page becomes not present and its physical address is returned; on a page that is not mapped
      nothing changes and 0 is returned. */
  ghost predicate Unmaps(ram: Ram, ram': Ram, root: Frame, n: nat, result: nat) {
    if PageAt(ram, root, n).Small? then
      && result == PageAt(ram, root, n).e.addr * PAGE
      && PageAt(ram', root, n) == NotMapped && OtherPages(ram, ram', root, n)
    else
      result == 0 && ram' == ram
  }

  /** Unmapping a page just mapped returns its page-aligned physical address and restores every translation. */
  lemma UnmapUndoesMap(ram0: Ram, ram1: Ram, ram2: Ram, root: Frame, va: nat, phys: nat, use: MappingUse, result: nat)
    requires va < HALF && phys < PHYS
    requires Maps(ram0, ram1, root, va / PAGE, phys / PAGE, use) && Unmaps(ram1, ram2, root, va / PAGE, result)
    ensures result == phys - phys % PAGE
    ensures Walk(ram2, root, va) == NotMapped
    ensures forall w: nat :: w < HALF && (w / PAGE != va / PAGE || Walk(ram0, root, va) == NotMapped) ==>
              Walk(ram2, root, w) == Walk(ram0, root, w)
  {
    hide Walk;
    WalkByPage(ram2, root, va);
    WalkByPage(ram0, root, va);
    forall w: nat | w < HALF && (w / PAGE != va / PAGE || Walk(ram0, root, va) == NotMapped)
      ensures Walk(ram2, root, w) == Walk(ram0, root, w)
    {
      WalkByPage(ram2, root, w);
      WalkByPage(ram0, root, w);
      hide PageAt;
      assert w / PAGE < PAGES;
    }
  }

  /** After mapping, every byte of the page translates to the byte with the same offset in the frame. */
  lemma MappedByte(ram: Ram, ram': Ram, root: Frame, va: nat, phys: nat, use: MappingUse, k: nat)
    requires va % PAGE == 0 && phys < PHYS && phys % PAGE == 0 && k < PAGE
    requires Maps(ram, ram', root, va / PAGE, phys / PAGE, use)
    ensures Walk(ram', root, va + k).Small? && Physical(Walk(ram', root, va + k), va + k) == phys + k
  {
    hide Walk;
    WalkByPage(ram', root, va + k);
    assert (va + k) / PAGE == va / PAGE;
  }

  /** The entry that maps a page; the fields the code does not write keep their value. */
  function LeafEntry(e: Pte, frame: Frame, use: MappingUse): Pte {
    var device := use == DeviceRegisters || use == DeviceMemory;
    e.(addr := frame, p := true, rw := use != ReadOnlyMemory && use != CopyOnWriteMemory, us := false,
       nx := use != ExecutableMemory, g := true, pcd := device, pwt := device, pat := false)
  }

  /** The three tables below the top one that translating `va` goes through. */
  function TablesOf(va: nat): set<Path> {
    {Third(I4(va)), Second(I4(va), I3(va)), First(I4(va), I3(va), I2(va))}
  }

  /** How many of the tables `qs` are yet to be made. */
  ghost function Missing(known: set<Path>, qs: set<Path>): nat { |qs - known| }

  ghost predicate CanHoldTable(ram: Ram, ts: Tables, page: nat) {
    page % PAGE == 0 && page < PHYS && page / PAGE in ram && page / PAGE !in ts.Values
  }

  class Mmu {
    const root: Frame
    var ram: Ram
    ghost var tables: Tables

    ghost predicate Valid()
      reads this
    {
      Inv(ram, root, tables)
    }

    /** The state in which boot.S leaves the tables, in frames 1 to 3. */
    constructor (memory: Ram)
      ensures Valid() && root == 1 && ram == BootRam(memory) && tables == BOOT_TABLES
    {
      BootIsWellFormed(memory);
      root, ram, tables := 1, BootRam(memory), BOOT_TABLES;
    }

    /** Every page the allocator may still hand out can hold a table, and holds none. */
    ghost predicate Supplied(pages: PageList)
      reads this, pages
    {
      forall page :: page in pages.registered - pages.issued ==> CanHoldTable(ram, tables, page)
    }

    /** The processor finds the table entry at a virtual address. */
    method Locate(va: nat) returns (f: Frame, i: nat)
      requires Walk(ram, root, va).Small? && Walk(ram, root, va).e.addr in ram && va % 8 == 0
      ensures f == Walk(ram, root, va).e.addr && i == va % PAGE / 8 && i < ENTRIES
    {
      f, i := Walk(ram, root, va).e.addr, va % PAGE / 8;
    }

    /** Finds entry `i` of table `q` through its window address. */
    method Entry(va: nat, ghost q: Path, ghost i: nat) returns (f: Frame, k: nat)
      requires Spine(ram, root, tables) && q in tables && i < ENTRIES && va == EntryVa(q, i)
      ensures f == tables[q] && k == i && f in ram
    {
      hide EntryVa, Walk, Points;
      WindowReaches(ram, root, tables, q, i);
      Eighth(va, i);
      f, k := Locate(va);
    }

    /** One of the three steps of `platform_map` that make sure a table exists: entry `t` of `window` is
        examined and, if it is not present, pointed to a fresh page, which is cleared through `clear`. */
    method MakeTable(window: nat, t: nat, clear: nat, pages: PageList, ghost q: Path, ghost i: nat)
      requires Valid() && pages.Valid() && Supplied(pages)
      requires q in tables && !q.First? && i < ENTRIES && !(q == Top && i == SELF) && !BootLarge(q, i)
      requires window + 8 * t == EntryVa(q, i) && clear + PAGE * t == EntryVa(Child(q, i), 0)
      requires Child(q, i) in tables || |pages.issued| < |pages.registered|
      modifies this`ram, this`tables, pages, pages.spine
      ensures Valid() && pages.Valid() && Supplied(pages)
      ensures tables.Keys == old(tables.Keys) + {Child(q, i)}
      ensures pages.registered == old(pages.registered) && old(pages.issued) <= pages.issued
      ensures |pages.issued| == |old(pages.issued)| + if Child(q, i) in old(tables) then 0 else 1
      ensures AllPages(old(ram), ram, root)
      ensures Child(q, i) !in old(tables) ==>
                && q in tables && tables[q] in ram
                && IsTableEntry(ram[tables[q]][i], tables[Child(q, i)])
      ensures forall j :: 0 <= j < |pages.spine| ==> pages.spine[j] in old(pages.spine)
    {
      hide EntryVa, Points, TableEntry, PageList.Valid, BootLarge, CanHoldTable, Inv, Spine, Exact, PageAt;
      InvSpine(ram, root, tables);
      PresentIffTable(ram, root, tables, q, i);
      var f, k := Entry(window + 8 * t, q, i);
      if !ram[f][k].p {
        var page := FreshPage(pages);
        ghost var ts := tables;
        Link(f, k, page, clear + PAGE * t, q, i);
        forall p | p in pages.registered - pages.issued ensures CanHoldTable(ram, tables, p) {
          StillCanHold(old(ram), ts, q, i, page, p);
        }
      }
    }

    /** `platform_map`. The page must lie behind the boot mapping, and the allocator must hold a page for
        every table that is yet to be made. */
    method PlatformMap(va: nat, phys: nat, use: MappingUse, pages: PageList)
      requires Valid() && pages.Valid() && Supplied(pages)
      requires 0x100_0000 <= va < HALF && phys < PHYS
      requires |pages.issued| + Missing(tables.Keys, TablesOf(va)) <= |pages.registered|
      modifies this`ram, this`tables, pages, pages.spine
      ensures Valid() && pages.Valid() && Supplied(pages)
      ensures Maps(old(ram), ram, root, va / PAGE, phys / PAGE, use)
      ensures tables.Keys == old(tables.Keys) + TablesOf(va)
      ensures pages.registered == old(pages.registered) && old(pages.issued) <= pages.issued
      ensures |pages.issued| == |old(pages.issued)| + Missing(old(tables.Keys), TablesOf(va))
      ensures forall j :: 0 <= j < |pages.spine| ==> pages.spine[j] in old(pages.spine)
    {
      hide Inv, Spine, Walk, PageAt, I1, I2, I3, I4, EntryVa, PageList.Valid, CanHoldTable, Missing, T1, Store,
           LeafEntry, SmallOr, Maps, AllPages, OtherPages;
      MakeTables(va, pages);
      ghost var ram1 := ram;
      InvSpine(ram, root, tables);
      Combined(va);
      ghost var q := First(I4(va), I3(va), I2(va));
      Windows(va);
      var f, k := Entry(WINDOW1 + 8 * T1(va), q, I1(va));
      ghost var e := LeafEntry(ram[f][k], phys / PAGE, use);
      SuppliedAfterLeaf(pages, f, k, e);
      SetLeaf(f, k, LeafEntry(ram[f][k], phys / PAGE, use), va);
      MapsAfterLeaf(old(ram), ram1, ram, root, tables, va / PAGE, ram1[f][k], phys / PAGE, use);
    }

    lemma SuppliedAfterLeaf(pages: PageList, f: Frame, k: nat, e: Pte)
      requires Supplied(pages) && f in ram && k < ENTRIES
      ensures forall p :: p in pages.registered - pages.issued ==> CanHoldTable(Store(ram, f, k, e), tables, p)
    {
      hide CanHoldTable, Store;
      forall p | p in pages.registered - pages.issued ensures CanHoldTable(Store(ram, f, k, e), tables, p) {
        LeafHolds(ram, tables, f, k, e, p);
      }
    }

    /** The store into the page entry. */
    method SetLeaf(f: Frame, k: nat, e: Pte, ghost va: nat)
      requires Valid() && va < HALF && k == I1(va)
      requires First(I4(va), I3(va), I2(va)) in tables && f == tables[First(I4(va), I3(va), I2(va))] && f in ram
      modifies this`ram
      ensures Valid() && ram == Store(old(ram), f, k, e)
      ensures PageAt(ram, root, va / PAGE) == SmallOr(e) && OtherPages(old(ram), ram, root, va / PAGE)
    {
      hide Inv, PageAt, I1, I2, I3, I4, OtherPages;
      LeafChangesOne(ram, root, tables, va, e);
      ram := Store(ram, f, k, e);
    }

    /** The first three steps of `platform_map`. */
    method MakeTables(va: nat, pages: PageList)
      requires Valid() && pages.Valid() && Supplied(pages)
      requires 0x100_0000 <= va < HALF
      requires |pages.issued| + Missing(tables.Keys, TablesOf(va)) <= |pages.registered|
      modifies this`ram, this`tables, pages, pages.spine
      ensures Valid() && pages.Valid() && Supplied(pages)
      ensures AllPages(old(ram), ram, root)
      ensures tables.Keys == old(tables.Keys) + TablesOf(va)
      ensures pages.registered == old(pages.registered) && old(pages.issued) <= pages.issued
      ensures |pages.issued| == |old(pages.issued)| + Missing(old(tables.Keys), TablesOf(va))
      ensures forall j :: 0 <= j < |pages.spine| ==> pages.spine[j] in old(pages.spine)
    {
      hide Inv, Walk, PageAt, I1, I2, I3, I4, PageList.Valid, Supplied, T2, T3, T4, Spine, EntryVa, BootLarge, AllPages;
      ghost var i4, i3, i2 := I4(va), I3(va), I2(va);
      Combined(va);
      BehindBoot(va);
      Windows(va);
      InvSpine(ram, root, tables);
      CountThree(Third(i4), Second(i4, i3), First(i4, i3, i2), tables.Keys);
      assert Top in tables && (Second(i4, i3) in tables ==> Third(i4) in tables) &&
             (First(i4, i3, i2) in tables ==> Second(i4, i3) in tables)
        by { TablesClosed(ram, root, tables, i4, i3, i2); }
      MakeTable(WINDOW4, T4(va), WINDOW3, pages, Top, i4);
      ghost var ram1 := ram;
      MakeTable(WINDOW3, T3(va), WINDOW2, pages, Third(i4), i3);
      ghost var ram2 := ram;
      MakeTable(WINDOW2, T2(va), WINDOW1, pages, Second(i4, i3), i2);
      AllPagesChain(old(ram), ram1, ram2, root);
      AllPagesChain(old(ram), ram2, ram, root);
      AddThree(Third(i4), Second(i4, i3), First(i4, i3, i2), old(tables.Keys));
    }

    /** `platform_unmap`, for a page behind the boot mapping. */
    method PlatformUnmap(va: nat) returns (result: nat)
      requires Valid() && 0x100_0000 <= va < HALF
      modifies this`ram
      ensures Valid() && ram.Keys == old(ram.Keys)
      ensures Unmaps(old(ram), ram, root, va / PAGE, result)
    {
      hide Inv, Spine, PageAt, I1, I2, I3, I4, EntryVa, T1, T2, T3, T4, Walk;
      ghost var i4, i3, i2 := I4(va), I3(va), I2(va);
      Combined(va);
      BehindBoot(va);
      Windows(va);
      InvSpine(ram, root, tables);
      TablesClosed(ram, root, tables, i4, i3, i2);
      WalkByPage(ram, root, va);
      TreeWalk(ram, root, tables, va);
      PresentIffTable(ram, root, tables, Top, i4);
      var f, k := Entry(WINDOW4 + 8 * T4(va), Top, i4);
      if !ram[f][k].p { return 0; }
      PresentIffTable(ram, root, tables, Third(i4), i3);
      f, k := Entry(WINDOW3 + 8 * T3(va), Third(i4), i3);
      if !ram[f][k].p { return 0; }
      PresentIffTable(ram, root, tables, Second(i4, i3), i2);
      f, k := Entry(WINDOW2 + 8 * T2(va), Second(i4, i3), i2);
      if !ram[f][k].p { return 0; }
      f, k := Entry(WINDOW1 + 8 * T1(va), First(i4, i3, i2), I1(va));
      if !ram[f][k].p { return 0; }
      result := ram[f][k].addr * PAGE;
      SetLeaf(f, k, ram[f][k].(p := false), va);
    }

    /** The stores that put the table into place. */
    method Link(f: Frame, k: nat, page: nat, clear: nat, ghost q: Path, ghost i: nat)
      requires Valid() && Vacant(ram, tables, q, i) && f == tables[q] && k == i
      requires CanHoldTable(ram, tables, page) && clear == EntryVa(Child(q, i), 0)
      modifies this`ram, this`tables
      ensures Valid() && AllPages(old(ram), ram, root)
      ensures tables == old(tables)[Child(q, i) := page / PAGE]
      ensures ram == WithTable(old(ram), old(tables), q, i, page / PAGE)
      ensures f in ram && IsTableEntry(ram[f][k], page / PAGE)
    {
      hide EntryVa, TableEntry, IsTableEntry, Inv, Spine, AllPages;
      TableAdded(ram, root, tables, q, i, page / PAGE);
      NewEntry(ram, tables, q, i, page / PAGE);
      ram := Store(ram, f, k, TableEntry(ram[f][k], page / PAGE));
      tables := tables[Child(q, i) := page / PAGE];
      var g, z := Entry(clear, Child(q, i), 0);
      ram := ram[g := Cleared()];
    }

    /** `freepage_get`, seen from the tables. */
    method FreshPage(pages: PageList) returns (page: nat)
      requires pages.Valid() && Supplied(pages) && |pages.issued| < |pages.registered|
      modifies pages, pages.spine
      ensures pages.Valid() && CanHoldTable(ram, tables, page)
      ensures forall p :: p in pages.registered - pages.issued ==> CanHoldTable(ram, tables, p) && p != page
      ensures pages.registered == old(pages.registered) && pages.issued == old(pages.issued) + {page}
      ensures page !in old(pages.issued)
      ensures forall j :: 0 <= j < |pages.spine| ==> pages.spine[j] in old(pages.spine)
    {
      hide PageList.Valid, CanHoldTable;
      pages.HasPages();
      page := pages.Get();
    }
  }

  /** The memory after the stores that make a table. */
  ghost function WithTable(ram: Ram, ts: Tables, q: Path, i: nat, c: Frame): Ram
    requires Vacant(ram, ts, q, i)
  {
    Store(ram, ts[q], i, TableEntry(ram[ts[q]][i], c))[c := Cleared()]
  }

  lemma NewEntry(ram: Ram, ts: Tables, q: Path, i: nat, c: Frame)
    requires Vacant(ram, ts, q, i) && c !in ts.Values
    ensures var ram' := WithTable(ram, ts, q, i, c); ts[q] in ram' && IsTableEntry(ram'[ts[q]][i], c)
  {
    assert ts[q] in ts.Values;
  }

  lemma StillCanHold(ram: Ram, ts: Tables, q: Path, i: nat, page: nat, p: nat)
    requires Vacant(ram, ts, q, i) && CanHoldTable(ram, ts, page) && CanHoldTable(ram, ts, p) && p != page
    ensures CanHoldTable(WithTable(ram, ts, q, i, page / PAGE), ts[Child(q, i) := page / PAGE], p)
  {
  }

  /** The two stores that make a table, together. */
  lemma TableAdded(ram: Ram, root: Frame, ts: Tables, q: Path, i: nat, c: Frame)
    requires Inv(ram, root, ts) && Vacant(ram, ts, q, i) && c in ram && c !in ts.Values
    ensures var ram1, ts' := Store(ram, ts[q], i, TableEntry(ram[ts[q]][i], c)), ts[Child(q, i) := c];
            Spine(ram1, root, ts') && Inv(ram1[c := Cleared()], root, ts') && AllPages(ram, ram1[c := Cleared()], root)
  {
    hide Inv, Spine, Walk;
    InvSpine(ram, root, ts);
    LinkKeepsSpine(ram, root, ts, q, i, c);
    ClearKeepsInv(ram, root, ts, q, i, c);
    forall n: nat | n < PAGES ensures PageAt(WithTable(ram, ts, q, i, c), root, n) == PageAt(ram, root, n) {
      TableChangesNothing(ram, root, ts, q, i, c, n * PAGE);
    }
  }

  lemma AddThree<T>(a: T, b: T, c: T, known: set<T>)
    ensures known + {a} + {b} + {c} == known + {a, b, c}
  {
  }

  lemma AllPagesChain(a: Ram, b: Ram, c: Ram, root: Frame)
    requires AllPages(a, b, root) && AllPages(b, c, root)
    ensures AllPages(a, c, root)
  {
  }

  /** New tables changed no page, and then one page got its entry. */
  lemma MapsAfterLeaf(ram: Ram, ram1: Ram, ram2: Ram, root: Frame, ts: Tables, n: nat, e: Pte, frame: Frame,
      use: MappingUse)
    requires AllPages(ram, ram1, root) && OtherPages(ram1, ram2, root, n) && n < PAGES && Inv(ram2, root, ts)
    requires PageAt(ram2, root, n) == SmallOr(LeafEntry(e, frame, use))
    ensures Maps(ram, ram2, root, n, frame, use)
  {
    hide Walk, Allows, Inv;
    RightsOfLeaf(ram2, root, ts, n * PAGE);
  }

  lemma LeafHolds(ram: Ram, ts: Tables, f: Frame, k: nat, e: Pte, p: nat)
    requires f in ram && k < ENTRIES && CanHoldTable(ram, ts, p)
    ensures CanHoldTable(Store(ram, f, k, e), ts, p)
  {
  }

  /** The addresses the code forms are those of the entries on the way to `va`. */
  lemma Windows(va: nat)
    requires va < HALF
    ensures WINDOW4 + 8 * T4(va) == EntryVa(Top, I4(va))
    ensures WINDOW3 + 8 * T3(va) == EntryVa(Third(I4(va)), I3(va))
    ensures WINDOW2 + 8 * T2(va) == EntryVa(Second(I4(va), I3(va)), I2(va))
    ensures WINDOW1 + 8 * T1(va) == EntryVa(First(I4(va), I3(va), I2(va)), I1(va))
    ensures WINDOW3 + PAGE * T4(va) == EntryVa(Third(I4(va)), 0)
    ensures WINDOW2 + PAGE * T3(va) == EntryVa(Second(I4(va), I3(va)), 0)
    ensures WINDOW1 + PAGE * T2(va) == EntryVa(First(I4(va), I3(va), I2(va)), 0)
  {
    hide I1, I2, I3, I4, T1, T2, T3, T4;
    Combined(va);
  }

  /** Behind 16 MiB no large page is met. */
  lemma BehindBoot(va: nat)
    requires 0x100_0000 <= va < HALF
    ensures !BootLarge(Second(I4(va), I3(va)), I2(va)) && !BootLarge(Third(I4(va)), I3(va)) && !BootLarge(Top, I4(va))
  {
  }

  lemma TablesClosed(ram: Ram, root: Frame, ts: Tables, i4: nat, i3: nat, i2: nat)
    requires Spine(ram, root, ts)
    ensures Top in ts && (Second(i4, i3) in ts ==> Third(i4) in ts)
    ensures (First(i4, i3, i2) in ts ==> Second(i4, i3) in ts)
  {
  }

  lemma CountOne<T>(s: set<T>, x: T, known: set<T>)
    requires x !in s
    ensures |s + {x} - known| == |s - known| + if x in known then 0 else 1
  {
    if x in known {
      assert s + {x} - known == s - known;
    } else {
      assert s + {x} - known == s - known + {x};
    }
  }

  lemma CountThree<T>(a: T, b: T, c: T, known: set<T>)
    requires a != b && a != c && b != c
    ensures |{a, b, c} - known|
         == (if a in known then 0 else 1) + (if b in known then 0 else 1) + (if c in known then 0 else 1)
  {
    var none: set<T> := {};
    CountOne(none, a, known);
    CountOne(none + {a}, b, known);
    CountOne(none + {a} + {b}, c, known);
    assert {a, b, c} == none + {a} + {b} + {c};
    assert none - known == {};
  }

  lemma InvSpine(ram: Ram, root: Frame, ts: Tables)
    requires Inv(ram, root, ts)
    ensures Spine(ram, root, ts)
  {
  }

  lemma Eighth(va: nat, i: nat)
    requires va % PAGE == 8 * i && i < ENTRIES
    ensures va % 8 == 0 && va % PAGE / 8 == i
  {
  }

  /** An entry outside the boot mapping is present exactly if there is a table below it. */
  lemma PresentIffTable(ram: Ram, root: Frame, ts: Tables, q: Path, i: nat)
    requires Inv(ram, root, ts) && q in ts && !q.First? && i < ENTRIES && !(q == Top && i == SELF) && !BootLarge(q, i)
    ensures ts[q] in ram && (ram[ts[q]][i].p <==> Child(q, i) in ts)
    ensures !ram[ts[q]][i].p ==> Vacant(ram, ts, q, i)
  {
    assert Exact(ram, ts, q, i);
    if Child(q, i) in ts {
      var r := Child(q, i);
      assert Points(ram, ts, Parent(r), Last(r));
    }
  }
}
