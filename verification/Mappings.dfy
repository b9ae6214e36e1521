/** The mapping objects of kernel/src/map.cpp. A mapping takes a window of address space, maps physical
    pages into it and gives both back when it is destroyed; moving a mapping moves the ownership. */
module Mappings {
  import opened Words
  import opened FreePages
  import opened AddressSpace
  import opened Paging

  // ---------------------------------------------------------------- windows

  /** What is behind a window: a range of physical addresses, or a scatter list of pages. */
  datatype Backing = Range(address: nat) | Scatter(pages: seq<nat>)

  /** A window of address space taken by a mapping. */
  datatype Window = Window(start: nat, bytes: nat, backing: Backing, use: MappingUse) {
    function Offset(): nat { if backing.Range? then backing.address % PAGE else 0 }

    /** The pages mapped into the window. */
    function Count(): nat { PageCount(bytes) }

    function First(): nat { start / PAGE }

    function FrameAt(i: nat): nat
      requires backing.Scatter? ==> i < |backing.pages|
    {
      if backing.Range? then backing.address / PAGE + i else backing.pages[i] / PAGE
    }

    predicate Covers(n: nat) { First() <= n < First() + Count() }

    /** What may be mapped: whole pages of a scatter list, and physical addresses below 2^52. */
    ghost predicate WellFormed() {
      && (backing.Range? ==> backing.address + bytes <= PHYS)
      && (backing.Scatter? ==> bytes == PAGE * |backing.pages|)
      && (backing.Scatter? ==> forall i :: 0 <= i < |backing.pages| ==> backing.pages[i] < PHYS)
      && start % PAGE == 0 && 0x100_0000 <= start && start + Taken(bytes, Offset()) <= HALF
    }
  }

  /** The turns of `for (n = 0; n < bytecount; n += 4096)`. */
  function PageCount(bytes: nat): (r: nat)
    ensures bytes <= PAGE * r < bytes + PAGE
  {
    (bytes + 0xFFF) / PAGE
  }

  /** Page `i` of the window translates as it should. */
  ghost predicate BackedAt(ram: Ram, root: Frame, w: Window, i: nat)
    requires w.WellFormed() && i < w.Count()
  {
    FrameFits(w, i);
    PageAt(ram, root, w.First() + i).Small? && Describes(PageAt(ram, root, w.First() + i).e, w.FrameAt(i), w.use)
  }

  lemma FrameFits(w: Window, i: nat)
    requires w.WellFormed() && i < w.Count()
    ensures w.backing.Scatter? ==> i < |w.backing.pages|
    ensures w.FrameAt(i) < 0x100_0000_0000
  {
  }

  ghost predicate Backed(ram: Ram, root: Frame, w: Window)
    requires w.WellFormed()
  {
    forall i: nat :: i < w.Count() ==> BackedAt(ram, root, w, i)
  }

  ghost predicate Uncovered(ws: seq<Window>, n: nat) {
    forall k :: 0 <= k < |ws| ==> !ws[k].Covers(n)
  }

  /** Behind the boot mapping, exactly the pages of the windows are present, and as their windows say. */
  ghost predicate Accounted(ram: Ram, root: Frame, ws: seq<Window>) {
    && (forall k :: 0 <= k < |ws| ==> ws[k].WellFormed() && Backed(ram, root, ws[k]))
    && (forall n: nat :: FIRST_PAGE <= n < PAGES && Uncovered(ws, n) ==> PageAt(ram, root, n) == NotMapped)
  }

  /** The address space a window takes: an unaligned range takes a page more. */
  function Taken(bytes: nat, offset: nat): nat { PAGE * PageCount(if offset != 0 then bytes + PAGE else bytes) }

  ghost predicate Takes(w: Window, r: Region) {
    r == Region(w.start, Taken(w.bytes, w.Offset()))
  }

  /** The allocator's live regions are those of the windows. */
  ghost predicate Fitting(ws: seq<Window>, live: seq<Region>) {
    |ws| == |live| && forall k :: 0 <= k < |ws| ==> Takes(ws[k], live[k])
  }

  lemma TakenCovers(w: Window)
    ensures PAGE * w.Count() <= Taken(w.bytes, w.Offset()) && w.bytes <= PAGE * w.Count()
    ensures w.Count() == 0 <==> w.bytes == 0
  {
  }

  /** No page is in two windows. */
  lemma WindowsDisjoint(ws: seq<Window>, live: seq<Region>, j: nat, k: nat, n: nat)
    requires Fitting(ws, live) && Disjoint(live) && j < |ws| && k < |ws| && j != k
    requires ws[j].WellFormed() && ws[k].WellFormed() && ws[j].Covers(n)
    ensures !ws[k].Covers(n)
  {
  }

  /** The pages `first .. first + count` may have changed, and no others. */
  ghost predicate ChangedOnly(ram: Ram, ram': Ram, root: Frame, first: nat, count: nat) {
    forall n: nat :: n < PAGES && !(first <= n < first + count) ==> PageAt(ram', root, n) == PageAt(ram, root, n)
  }

  lemma StaysBacked(ram: Ram, ram': Ram, root: Frame, w: Window, first: nat, count: nat)
    requires w.WellFormed() && Backed(ram, root, w) && ChangedOnly(ram, ram', root, first, count)
    requires forall n: nat :: first <= n < first + count ==> !w.Covers(n)
    ensures Backed(ram', root, w)
  {
    hide PageAt, Describes;
    forall i: nat | i < w.Count() ensures BackedAt(ram', root, w, i) {
      assert BackedAt(ram, root, w, i);
      assert w.Covers(w.First() + i);
      assert w.First() + i < PAGES;
    }
  }

  /** A new window, filled in, behind those there were. */
  lemma Added(ram: Ram, ram': Ram, root: Frame, ws: seq<Window>, live: seq<Region>, w: Window)
    requires Accounted(ram, root, ws) && w.WellFormed() && Backed(ram', root, w)
    requires ChangedOnly(ram, ram', root, w.First(), w.Count())
    requires Fitting(ws + [w], live) && Disjoint(live)
    ensures Accounted(ram', root, ws + [w])
  {
    hide PageAt, Fitting, Disjoint, Backed, PageCount;
    var ws' := ws + [w];
    forall k | 0 <= k < |ws| ensures Backed(ram', root, ws[k]) {
      forall n: nat | w.First() <= n < w.First() + w.Count() ensures !ws[k].Covers(n) {
        WindowsDisjoint(ws', live, |ws|, k, n);
      }
      StaysBacked(ram, ram', root, ws[k], w.First(), w.Count());
    }
    forall n: nat | FIRST_PAGE <= n < PAGES && Uncovered(ws', n) ensures PageAt(ram', root, n) == NotMapped {
      assert !ws'[|ws|].Covers(n);
      forall k | 0 <= k < |ws| ensures !ws[k].Covers(n) {
        assert ws'[k] == ws[k];
      }
      assert Uncovered(ws, n);
    }
  }

  function Without<T>(s: seq<T>, k: nat): (r: seq<T>)
    requires k < |s|
    ensures |r| == |s| - 1
    ensures forall j :: 0 <= j < |r| ==> r[j] == s[if j < k then j else j + 1]
  {
    s[..k] + s[k + 1..]
  }

  /** A window emptied and given back. */
  lemma Removed(ram: Ram, ram': Ram, root: Frame, ws: seq<Window>, live: seq<Region>, k: nat)
    requires Accounted(ram, root, ws) && k < |ws| && Fitting(ws, live) && Disjoint(live)
    requires ChangedOnly(ram, ram', root, ws[k].First(), ws[k].Count())
    requires forall n: nat :: ws[k].Covers(n) ==> PageAt(ram', root, n) == NotMapped
    ensures Accounted(ram', root, Without(ws, k))
  {
    hide PageAt, Fitting, Disjoint, Backed, PageCount, Window.WellFormed;
    var ws' := Without(ws, k);
    forall j | 0 <= j < |ws'| ensures ws'[j].WellFormed() && Backed(ram', root, ws'[j]) {
      var i := if j < k then j else j + 1;
      assert ws'[j] == ws[i] && ws[i].WellFormed();
      forall n: nat | ws[k].First() <= n < ws[k].First() + ws[k].Count() ensures !ws[i].Covers(n) {
        WindowsDisjoint(ws, live, k, i, n);
      }
      StaysBacked(ram, ram', root, ws[i], ws[k].First(), ws[k].Count());
    }
    forall n: nat | FIRST_PAGE <= n < PAGES && Uncovered(ws', n) ensures PageAt(ram', root, n) == NotMapped {
      if !ws[k].Covers(n) {
        forall j | 0 <= j < |ws| ensures !ws[j].Covers(n) {
          if j != k { assert ws'[if j < k then j else j - 1] == ws[j]; }
        }
        assert Uncovered(ws, n);
      }
    }
  }

  lemma FittingWithout(ws: seq<Window>, live: seq<Region>, k: nat)
    requires Fitting(ws, live) && k < |ws|
    ensures Fitting(Without(ws, k), live[..k] + live[k + 1..])
  {
  }

  // ---------------------------------------------------------------- the pages of a window, one by one

  /** The tables needed to map `count` pages from `va` on. */
  ghost function TablesOfRange(va: nat, count: nat): set<Path> {
    if count == 0 then {} else TablesOfRange(va, count - 1) + TablesOf(va + PAGE * (count - 1))
  }

  /** Tables made for the first pages are not counted again for the next one. */
  lemma MissingSplits(known: set<Path>, made: set<Path>, more: set<Path>, all: set<Path>)
    requires made + more <= all
    ensures Missing(known, made) + Missing(known + made, more) == Missing(known, made + more) <= Missing(known, all)
  {
    var rest := more - (known + made);
    assert made + more - known == (made - known) + rest;
    assert all - known == (made + more - known) + (all - known - (made + more));
  }

  lemma {:induction false} RangeGrows(va: nat, n: nat, count: nat)
    requires n <= count
    ensures TablesOfRange(va, n) <= TablesOfRange(va, count)
  {
    if n < count {
      RangeGrows(va, n, count - 1);
    }
  }

  /** A table budget for a whole range covers every step of it. */
  lemma BudgetHolds(ts: Tables, ts': Tables, va: nat, n: nat, count: nat)
    requires n < count && ts'.Keys == ts.Keys + TablesOfRange(va, n)
    ensures Missing(ts.Keys, TablesOfRange(va, n)) + Missing(ts'.Keys, TablesOf(va + n * PAGE))
         == Missing(ts.Keys, TablesOfRange(va, n + 1)) <= Missing(ts.Keys, TablesOfRange(va, count))
  {
    hide TablesOf, TablesOfRange, Missing;
    NextTables(va, n);
    RangeGrows(va, n + 1, count);
    MissingSplits(ts.Keys, TablesOfRange(va, n), TablesOf(va + PAGE * n), TablesOfRange(va, count));
  }

  /** Both mapping loops: page `n` of the window is mapped to `phys[n]`. */
  method MapPages(mmu: Mmu, pages: PageList, va: nat, phys: seq<nat>, use: MappingUse)
    requires mmu.Valid() && pages.Valid() && mmu.Supplied(pages)
    requires va % PAGE == 0 && 0x100_0000 <= va && va + PAGE * |phys| <= HALF
    requires forall i :: 0 <= i < |phys| ==> phys[i] < PHYS
    requires |pages.issued| + Missing(mmu.tables.Keys, TablesOfRange(va, |phys|)) <= |pages.registered|
    modifies mmu`ram, mmu`tables, pages, pages.spine
    ensures mmu.Valid() && pages.Valid() && mmu.Supplied(pages)
    ensures Filled(old(mmu.ram), mmu.ram, mmu.root, va / PAGE, |phys|, phys, use)
    ensures pages.registered == old(pages.registered) && old(pages.issued) <= pages.issued
    ensures mmu.tables.Keys == old(mmu.tables).Keys + TablesOfRange(va, |phys|)
    ensures |pages.issued| == |old(pages.issued)| + Missing(old(mmu.tables).Keys, TablesOfRange(va, |phys|))
    ensures forall j :: 0 <= j < |pages.spine| ==> pages.spine[j] in old(pages.spine)
  {
    hide PageAt, Mmu.Valid, PageList.Valid, Mmu.Supplied, TablesOf, Filled, Maps, TablesOfRange, Missing;
    NoTables(va);
    NothingFilled(mmu.ram, mmu.root, va / PAGE, phys, use);
    ghost var known := mmu.tables;
    for n := 0 to |phys|
      invariant mmu.Valid() && pages.Valid() && mmu.Supplied(pages)
      invariant Filled(old(mmu.ram), mmu.ram, mmu.root, va / PAGE, n, phys, use)
      invariant mmu.tables.Keys == known.Keys + TablesOfRange(va, n)
      invariant |pages.issued| == |old(pages.issued)| + Missing(known.Keys, TablesOfRange(va, n))
      invariant pages.registered == old(pages.registered) && old(pages.issued) <= pages.issued
      invariant forall j :: 0 <= j < |pages.spine| ==> pages.spine[j] in old(pages.spine)
    {
      BudgetHolds(known, mmu.tables, va, n, |phys|);
      ghost var before := mmu.ram;
      mmu.PlatformMap(va + n * PAGE, phys[n], use, pages);
      NextPage(va, n);
      NextTables(va, n);
      Extends(old(mmu.ram), before, mmu.ram, mmu.root, va / PAGE, n, phys, use);
    }
  }

  lemma NextPage(va: nat, n: nat)
    ensures (va + n * PAGE) / PAGE == va / PAGE + n
  {
  }

  lemma NoTables(va: nat)
    ensures TablesOfRange(va, 0) == {} && forall known :: Missing(known, {}) == 0
  {
  }

  lemma NextTables(va: nat, n: nat)
    ensures TablesOfRange(va, n + 1) == TablesOfRange(va, n) + TablesOf(va + PAGE * n)
  {
  }

  ghost predicate MappedTo(ram: Ram, root: Frame, n: nat, phys: nat, use: MappingUse) {
    phys < PHYS && PageAt(ram, root, n).Small? && Describes(PageAt(ram, root, n).e, phys / PAGE, use)
  }

  /** The first `n` pages are mapped to `phys`, and no other page has changed. */
  ghost predicate Filled(ram: Ram, ram': Ram, root: Frame, first: nat, n: nat, phys: seq<nat>, use: MappingUse) {
    && (forall i: nat :: i < n ==> i < |phys| && MappedTo(ram', root, first + i, phys[i], use))
    && ChangedOnly(ram, ram', root, first, n)
  }

  lemma NothingFilled(ram: Ram, root: Frame, first: nat, phys: seq<nat>, use: MappingUse)
    ensures Filled(ram, ram, root, first, 0, phys, use)
  {
  }

  /** One turn of the loop, on the translations. */
  lemma Extends(ram0: Ram, ram1: Ram, ram2: Ram, root: Frame, first: nat, n: nat, phys: seq<nat>, use: MappingUse)
    requires n < |phys| && first + n < PAGES && phys[n] < PHYS
    requires Filled(ram0, ram1, root, first, n, phys, use)
    requires Maps(ram1, ram2, root, first + n, phys[n] / PAGE, use)
    ensures Filled(ram0, ram2, root, first, n + 1, phys, use)
  {
    hide PageAt, Describes;
    forall i: nat | i <= n ensures MappedTo(ram2, root, first + i, phys[i], use) {
      if i < n { assert MappedTo(ram1, root, first + i, phys[i], use); }
    }
  }

  /** The destructor's loop. */
  method UnmapPages(mmu: Mmu, va: nat, count: nat)
    requires mmu.Valid()
    requires va % PAGE == 0 && 0x100_0000 <= va && va + PAGE * count <= HALF
    requires forall n: nat :: va / PAGE <= n < va / PAGE + count ==> PageAt(mmu.ram, mmu.root, n).Small?
    modifies mmu`ram
    ensures mmu.Valid() && mmu.ram.Keys == old(mmu.ram.Keys)
    ensures forall n: nat :: va / PAGE <= n < va / PAGE + count ==> PageAt(mmu.ram, mmu.root, n) == NotMapped
    ensures ChangedOnly(old(mmu.ram), mmu.ram, mmu.root, va / PAGE, count)
  {
    hide PageAt, Mmu.Valid;
    ghost var first := va / PAGE;
    for n := 0 to count
      invariant mmu.Valid() && mmu.ram.Keys == old(mmu.ram.Keys)
      invariant forall i: nat :: first <= i < first + n ==> PageAt(mmu.ram, mmu.root, i) == NotMapped
      invariant ChangedOnly(old(mmu.ram), mmu.ram, mmu.root, first, n)
    {
      NextPage(va, n);
      assert PageAt(old(mmu.ram), mmu.root, va / PAGE + n).Small?;
      var p := mmu.PlatformUnmap(va + n * PAGE);
    }
  }

  /** The physical pages that a window's loop maps. */
  function PhysicalPages(backing: Backing, bytes: nat): (r: seq<nat>)
    requires backing.Scatter? ==> bytes == PAGE * |backing.pages|
    ensures |r| == PageCount(bytes)
  {
    match backing
    case Range(address) =>
      seq(PageCount(bytes), i requires 0 <= i < PageCount(bytes) => address - address % PAGE + PAGE * i)
    case Scatter(pages) => pages
  }

  lemma PhysicalFrames(w: Window, i: nat)
    requires w.WellFormed() && i < w.Count()
    ensures var p := PhysicalPages(w.backing, w.bytes)[i]; p < PHYS && p / PAGE == w.FrameAt(i)
  {
  }

  /** The loop has put the right pages behind the window. */
  lemma FilledIsBacked(ram: Ram, ram': Ram, root: Frame, w: Window)
    requires w.WellFormed() && Filled(ram, ram', root, w.First(), w.Count(), PhysicalPages(w.backing, w.bytes), w.use)
    ensures Backed(ram', root, w) && ChangedOnly(ram, ram', root, w.First(), w.Count())
  {
    hide PageAt, Describes, PhysicalPages, PageCount;
    forall i: nat | i < w.Count() ensures BackedAt(ram', root, w, i) {
      PhysicalFrames(w, i);
      assert MappedTo(ram', root, w.First() + i, PhysicalPages(w.backing, w.bytes)[i], w.use);
    }
  }

  lemma TakenIsRounded(bytes: nat, offset: nat)
    requires Taken(bytes, offset) <= HALF
    ensures Rounded(Taken(bytes, offset)) == Taken(bytes, offset)
    ensures Taken(bytes, offset) == ((if offset != 0 then bytes + PAGE else bytes) + 0xFFF) / PAGE * PAGE
  {
  }

  // ---------------------------------------------------------------- the mapping objects

  class Mapping {
    var bytecount: nat
    var virtaddr: nat
    var address: nat
    var offset: nat

    /** An empty mapping. */
    constructor ()
      ensures bytecount == 0 && virtaddr == 0 && address == 0 && offset == 0
    {
      bytecount, virtaddr, address, offset := 0, 0, 0, 0;
    }

    constructor Of(bytecount: nat, virtaddr: nat, address: nat, offset: nat)
      ensures Contents() == Fields(bytecount, virtaddr, address, offset)
    {
      this.bytecount, this.virtaddr, this.address, this.offset := bytecount, virtaddr, address, offset;
    }

    /** `mapping(mapping&&)` */
    constructor FromOther(rhs: Mapping)
      modifies rhs
      ensures Contents() == old(rhs.Contents()) && rhs.Contents() == EMPTY
    {
      bytecount, virtaddr, address, offset := rhs.bytecount, rhs.virtaddr, rhs.address, rhs.offset;
      new;
      rhs.bytecount := 0;
      rhs.virtaddr := 0;
      rhs.address := 0;
      rhs.offset := 0;
    }

    /** `operator=(mapping&&)` */
    method Assign(rhs: Mapping)
      modifies this, rhs
      ensures this != rhs ==> Contents() == old(rhs.Contents())
      ensures rhs.Contents() == EMPTY
    {
      bytecount := rhs.bytecount;
      virtaddr := rhs.virtaddr;
      address := rhs.address;
      offset := rhs.offset;
      rhs.bytecount := 0;
      rhs.virtaddr := 0;
      rhs.address := 0;
      rhs.offset := 0;
    }

    /** `get` */
    function Get(): nat
      reads this
    {
      virtaddr + offset
    }

    /** `to_physical` */
    function ToPhysical(p: nat): int
      reads this
    {
      p - virtaddr + address
    }

    function Contents(): Fields
      reads this
    {
      Fields(bytecount, virtaddr, address, offset)
    }
  }

  datatype Fields = Fields(bytecount: nat, virtaddr: nat, address: nat, offset: nat)

  const EMPTY := Fields(0, 0, 0, 0)

  ghost function Contents(objects: set<Mapping>): map<Mapping, Fields>
    reads objects
  {
    map m | m in objects :: m.Contents()
  }

  /** A mapping with these fields is responsible for the window. */
  ghost predicate Holds(f: Fields, w: Window) {
    && f.bytecount == w.bytes != 0 && f.virtaddr == w.start && f.offset == w.Offset()
    && (w.backing.Range? ==> f.address == w.backing.address)
  }

  /** A non-empty mapping owns exactly one window, and no window has two owners. */
  ghost predicate Owned(owners: seq<Mapping?>, contents: map<Mapping, Fields>, ws: seq<Window>) {
    && |owners| == |ws|
    && (forall k :: 0 <= k < |owners| && owners[k] != null ==>
       owners[k] in contents && Holds(contents[owners[k]], ws[k]))
    && (forall j, k :: 0 <= j < k < |owners| && owners[j] != null ==> owners[j] != owners[k])
    && (forall m :: m in contents && contents[m].bytecount != 0 ==> m in owners)
  }

  /** What `from` owned, `to` owns. */
  ghost function Handed(owners: seq<Mapping?>, from: Mapping, to: Mapping?): (r: seq<Mapping?>)
    ensures |r| == |owners|
    ensures forall k :: 0 <= k < |r| ==> r[k] == if owners[k] == from then to else owners[k]
  {
    seq(|owners|, k requires 0 <= k < |owners| => if owners[k] == from then to else owners[k])
  }

  /** Some window with pages in it has nobody to release it. */
  ghost predicate Orphaned(owners: seq<Mapping?>, ws: seq<Window>) {
    exists k :: 0 <= k < |owners| && k < |ws| && owners[k] == null && ws[k].bytes != 0
  }

  lemma OrphanedByNew(owners: seq<Mapping?>, ws: seq<Window>, m: Mapping, w: Window)
    requires |owners| == |ws|
    ensures Orphaned(owners + [if w.bytes == 0 then null else m], ws + [w]) <==> Orphaned(owners, ws)
  {
    var owners', ws' := owners + [if w.bytes == 0 then null else m], ws + [w];
    assert forall k :: 0 <= k < |ws| ==> owners'[k] == owners[k] && ws'[k] == ws[k];
  }

  /** Handing a window to another mapping orphans nothing. */
  lemma OrphanedAfterMove(owners: seq<Mapping?>, ws: seq<Window>, from: Mapping, to: Mapping)
    ensures Orphaned(Handed(owners, from, to), ws) <==> Orphaned(owners, ws)
  {
    if k :| 0 <= k < |owners| && k < |ws| && owners[k] == null && ws[k].bytes != 0 {
      assert Handed(owners, from, to)[k] == null;
    }
  }

  /** Forgetting what a mapping owned orphans a window exactly if the mapping was not empty. */
  lemma OrphanedAfterLoss(owners: seq<Mapping?>, contents: map<Mapping, Fields>, ws: seq<Window>, lhs: Mapping)
    requires Owned(owners, contents, ws) && lhs in contents
    ensures Orphaned(Handed(owners, lhs, null), ws) <==> Orphaned(owners, ws) || contents[lhs].bytecount != 0
    ensures lhs in owners <==> contents[lhs].bytecount != 0
  {
    var owners' := Handed(owners, lhs, null);
    if contents[lhs].bytecount != 0 {
      var k :| 0 <= k < |owners| && owners[k] == lhs;
      assert owners'[k] == null;
    }
    if k :| 0 <= k < |owners| && k < |ws| && owners[k] == null && ws[k].bytes != 0 {
      assert owners'[k] == null;
    }
  }

  /** A release takes away an owned window only. */
  lemma OrphanedAfterRelease(owners: seq<Mapping?>, ws: seq<Window>, k: nat)
    requires |owners| == |ws| && k < |owners| && owners[k] != null
    ensures Orphaned(Without(owners, k), Without(ws, k)) <==> Orphaned(owners, ws)
  {
    hide Without;
    if j :| 0 <= j < |owners| && owners[j] == null && ws[j].bytes != 0 {
      var i := if j < k then j else j - 1;
      assert Without(owners, k)[i] == owners[j] && Without(ws, k)[i] == ws[j];
    }
  }

  ghost function Emptied(contents: map<Mapping, Fields>, from: Mapping, to: Mapping): map<Mapping, Fields>
    requires from in contents
  {
    contents[to := contents[from]][from := EMPTY]
  }

  lemma OwnedByNew(owners: seq<Mapping?>, contents: map<Mapping, Fields>, ws: seq<Window>, m: Mapping, f: Fields,
      w: Window)
    requires Owned(owners, contents, ws) && m !in contents
    requires f.bytecount == w.bytes && (w.bytes != 0 ==> Holds(f, w))
    ensures |owners| == |ws| && Owned(owners + [if w.bytes == 0 then null else m], contents[m := f], ws + [w])
  {
  }

  /** `from` hands over and is emptied. */
  lemma OwnedAfterMove(owners: seq<Mapping?>, contents: map<Mapping, Fields>, ws: seq<Window>, from: Mapping,
      to: Mapping)
    requires Owned(owners, contents, ws) && from in contents && to !in owners
    ensures Owned(Handed(owners, from, to), Emptied(contents, from, to), ws)
  {
  }

  lemma OwnedAfterLoss(owners: seq<Mapping?>, contents: map<Mapping, Fields>, ws: seq<Window>, lhs: Mapping)
    requires Owned(owners, contents, ws) && lhs in contents
    ensures Owned(Handed(owners, lhs, null), contents[lhs := EMPTY], ws) && lhs !in Handed(owners, lhs, null)
  {
  }

  lemma OwnedAfterRelease(owners: seq<Mapping?>, contents: map<Mapping, Fields>, ws: seq<Window>, m: Mapping, k: nat)
    requires Owned(owners, contents, ws) && k < |owners| && owners[k] == m
    ensures Owned(Without(owners, k), contents - {m}, Without(ws, k))
  {
  }

  lemma OwnedWithoutEmpty(owners: seq<Mapping?>, contents: map<Mapping, Fields>, ws: seq<Window>, m: Mapping)
    requires Owned(owners, contents, ws) && m in contents && contents[m].bytecount == 0
    ensures Owned(owners, contents - {m}, ws)
  {
  }

  class Space {
    const mmu: Mmu
    const asa: Asa
    const pages: PageList
    ghost var windows: seq<Window>         // one for each live region of the address-space allocator
    ghost var owners: seq<Mapping?>        // who will give it back; null for nobody
    ghost var objects: set<Mapping>        // every mapping constructed and not yet destroyed
    ghost var overwritten: bool            // a mapping was assigned to while it held a window

    /** What holds of the tables and the allocators. */
    ghost predicate Core()
      reads this`windows, mmu, asa, pages, pages.spine
    {
      && mmu.Valid() && asa.Valid() && pages.Valid() && mmu.Supplied(pages)
      && Accounted(mmu.ram, mmu.root, windows) && Fitting(windows, asa.live)
      && Above(asa.asas)
    }

    ghost predicate Valid()
      reads this, mmu, asa, pages, pages.spine, objects
    {
      Core() && Owned(owners, Contents(objects), windows) && (overwritten <==> Orphaned(owners, windows))
    }

    /** The state after boot, with `memory` for the tables and no free pages yet. */
    constructor (memory: Ram)
      ensures Valid() && windows == [] && objects == {} && !overwritten && mmu.ram == BootRam(memory)
      ensures asa.asas == [Region(0x100_0000, 0x7fff_ffff_ff00_0000)] && mmu.tables == BOOT_TABLES
      ensures pages.registered == {} && pages.issued == {} && fresh(mmu) && fresh(asa) && fresh(pages)
    {
      hide Accounted, BootRam, BOOT_TABLES, Mmu.Valid, PageList.Valid, Asa.Valid, Sound, Paging.Inv;
      mmu := new Mmu(memory);
      asa := new Asa();
      pages := new PageList();
      windows, owners, objects, overwritten := [], [], {}, false;
      new;
      NothingPresent(memory);
    }

    /** A region of memory joins the free pages; none of it may be known already or hold a table. */
    method AddMemory(start: nat, length: nat)
      requires Valid() && start + length <= WORD64 && length < WORD64 && length >= PAGE - start % PAGE + PAGE
      requires PagesOf(Usable(start, length)) !! pages.registered
      requires forall r :: r in pages.runs ==> RunsApart(Usable(start, length), r)
      requires forall p :: p in PagesOf(Usable(start, length)) ==> CanHoldTable(mmu.ram, mmu.tables, p)
      modifies pages
      ensures Valid() && windows == old(windows)
      ensures pages.registered == old(pages.registered) + PagesOf(Usable(start, length))
      ensures pages.issued == old(pages.issued)
    {
      hide Accounted, Mmu.Valid, PageList.Valid, Fitting, Owned, Above, PagesOf, Usable, CanHoldTable;
      pages.AddRegion(start, length);
    }

    /** The allocator has a region for the request, in the lower half. */
    predicate Room(size: nat)
      reads asa
    {
      var i := FirstFit(asa.asas, size, 0);
      i < |asa.asas| && asa.asas[i].start + size <= HALF
    }

    /** Where the next window will be. */
    function Next(size: nat): nat
      requires Room(size)
      reads asa
    {
      asa.asas[FirstFit(asa.asas, size, 0)].start
    }

    /** Enough pages are free for the tables that the window will need. */
    ghost predicate Budget(va: nat, count: nat)
      reads mmu, pages
    {
      |pages.issued| + Missing(mmu.tables.Keys, TablesOfRange(va, count)) <= |pages.registered|
    }

    /** What the two mapping constructors share: take a window, map the pages into it. */
    method Install(size: nat, phys: seq<nat>, use: MappingUse, ghost bytes: nat, ghost backing: Backing)
        returns (virt: nat)
      requires Core() && Room(size) && Budget(Next(size), |phys|)
      requires (backing.Range? ==> backing.address + bytes <= PHYS)
      requires backing.Scatter? ==> bytes == PAGE * |backing.pages|
      requires backing.Scatter? ==> forall i :: 0 <= i < |backing.pages| ==> backing.pages[i] < PHYS
      requires phys == PhysicalPages(backing, bytes)
      requires size == Taken(bytes, if backing.Range? then backing.address % PAGE else 0)
      modifies this`windows, mmu, asa, pages, pages.spine
      ensures Core() && virt == old(Next(size))
      ensures windows == old(windows) + [Window(virt, bytes, backing, use)]
      ensures Leaves(old(asa.asas), asa.asas, Region(virt, size))
      ensures |pages.issued| == |old(pages.issued)| + Missing(old(mmu.tables).Keys, TablesOfRange(virt, |phys|))
      ensures forall j :: 0 <= j < |pages.spine| ==> pages.spine[j] in old(pages.spine)
    {
      hide Accounted, Mmu.Valid, PageList.Valid, Mmu.Supplied, TablesOfRange, Missing, Filled, Taken, Sound, FirstFit,
           Cut, Leaves, Rounded, PhysicalPages, Above, Fitting, Disjoint, Backed, PageAt, ChangedOnly;
      ghost var w := Window(Next(size), bytes, backing, use);
      TakenIsRounded(bytes, w.Offset());
      TakenCovers(w);
      NextIsUsable(asa.asas, asa.live, size);
      virt := asa.Alloc(size);
      PhysicalBelow(w);
      MapPages(mmu, pages, virt, phys, use);
      FilledIsBacked(old(mmu.ram), mmu.ram, mmu.root, w);
      FittingWith(windows, old(asa.live), w, size);
      SoundDisjoint(asa.asas, asa.live);
      Added(old(mmu.ram), mmu.ram, mmu.root, windows, asa.live, w);
      windows := windows + [w];
    }

    /** The destructor's two steps for a window: every page is unmapped, the window is given back. */
    method Release(virt: nat, bytes: nat, ghost k: nat)
      requires Core() && k < |windows| && windows[k].start == virt && windows[k].bytes == bytes
      modifies this`windows, mmu`ram, asa
      ensures Core() && windows == Without(old(windows), k)
      ensures Joins(old(asa.asas), asa.asas, Region(virt, bytes))
      ensures forall n: nat :: old(windows[k]).Covers(n) ==> PageAt(mmu.ram, mmu.root, n) == NotMapped
    {
      hide Accounted, Mmu.Valid, PageList.Valid, Missing, Taken, Sound, Above, Fitting, Disjoint, Backed, PageAt,
           ChangedOnly, PageCount, Joins;
      WindowPresent(mmu.ram, mmu.root, windows, k);
      TakenCovers(windows[k]);
      UnmapPages(mmu, virt, PageCount(bytes));
      FittingAt(windows, asa.live, k);
      SoundDisjoint(asa.asas, asa.live);
      Removed(old(mmu.ram), mmu.ram, mmu.root, windows, asa.live, k);
      FittingWithout(windows, asa.live, k);
      AboveWith(asa.asas, Region(virt, bytes));
      asa.Free(virt, bytes, k);
      windows := Without(windows, k);
    }

    /** `mapping(address, bytes, use)` */
    method MapAddress(address: nat, bytes: nat, use: MappingUse) returns (m: Mapping)
      requires Valid() && address + bytes <= PHYS
      requires Room(Taken(bytes, address % PAGE)) && Budget(Next(Taken(bytes, address % PAGE)), PageCount(bytes))
      modifies this`windows, this`owners, this`objects, mmu, asa, pages, pages.spine
      ensures Valid() && fresh(m) && objects == old(objects) + {m}
      ensures m.Contents() == Fields(bytes, m.virtaddr, address, address % PAGE)
      ensures windows == old(windows) + [Window(m.virtaddr, bytes, Range(address), use)]
      ensures owners == old(owners) + [if bytes == 0 then null else m]
      ensures var taken := (if address % PAGE == 0 then bytes else bytes + PAGE) + 0xFFF;
              Leaves(old(asa.asas), asa.asas, Region(m.virtaddr, taken / PAGE * PAGE))
      ensures |pages.issued| == |old(pages.issued)| + Missing(old(mmu.tables).Keys,
              TablesOfRange(m.virtaddr, PageCount(bytes)))
    {
      hide Core, Taken, PageCount, Room, Budget, Next, PhysicalPages, Owned, Leaves, Missing, TablesOfRange, Orphaned;
      var offset := address % PAGE;
      var bytes', address' := bytes, address;
      if offset != 0 {
        bytes' := bytes' + PAGE;
        address' := address' - address % PAGE;
      }
      TakenIsRoundedUp(bytes, offset);
      var phys := seq(PageCount(bytes), i requires 0 <= i < PageCount(bytes) => address' + PAGE * i);
      RangePages(address, bytes, phys);
      var virt := Install((bytes' + 0xFFF) / PAGE * PAGE, phys, use, bytes, Range(address));
      m := new Mapping.Of(bytes, virt, address, offset);
      Register(m, bytes, Range(address), use);
    }

    /** `mapping(list)`; the constructor leaves `address` as it finds it. */
    method MapList(list: seq<nat>, stale: nat) returns (m: Mapping)
      requires Valid() && forall i :: 0 <= i < |list| ==> list[i] < PHYS
      requires Room(PAGE * |list|) && Budget(Next(PAGE * |list|), |list|)
      modifies this`windows, this`owners, this`objects, mmu, asa, pages, pages.spine
      ensures Valid() && fresh(m) && objects == old(objects) + {m}
      ensures m.Contents() == Fields(PAGE * |list|, m.virtaddr, stale, 0)
      ensures windows == old(windows) + [Window(m.virtaddr, PAGE * |list|, Scatter(list), DeviceMemory)]
      ensures owners == old(owners) + [if list == [] then null else m]
      ensures Leaves(old(asa.asas), asa.asas, Region(m.virtaddr, PAGE * |list|))
      ensures |pages.issued| == |old(pages.issued)| + Missing(old(mmu.tables).Keys,
              TablesOfRange(m.virtaddr, |list|))
    {
      hide Core, Room, Budget, Next, Owned, Leaves, Missing, TablesOfRange, Orphaned;
      var virt := Install(PAGE * |list|, list, DeviceMemory, PAGE * |list|, Scatter(list));
      m := new Mapping.Of(PAGE * |list|, virt, stale, 0);
      Register(m, PAGE * |list|, Scatter(list), DeviceMemory);
    }

    /** A new mapping becomes the owner of the last window. */
    ghost method Register(m: Mapping, bytes: nat, backing: Backing, use: MappingUse)
      requires Core() && m !in objects && windows != []
      requires Owned(owners, Contents(objects), windows[..|windows| - 1])
      requires overwritten <==> Orphaned(owners, windows[..|windows| - 1])
      requires windows[|windows| - 1] == Window(m.virtaddr, bytes, backing, use)
      requires m.bytecount == bytes && m.offset == windows[|windows| - 1].Offset()
      requires (backing.Range? ==> m.address == backing.address)
      modifies this`owners, this`objects
      ensures Valid() && objects == old(objects) + {m} && owners == old(owners) + [if bytes == 0 then null else m]
    {
      hide Core, Owned;
      var w, ws := windows[|windows| - 1], windows[..|windows| - 1];
      OwnedByNew(owners, Contents(objects), ws, m, m.Contents(), w);
      OrphanedByNew(owners, ws, m, w);
      assert Contents(objects + {m}) == Contents(objects)[m := m.Contents()] && windows == ws + [w];
      objects, owners := objects + {m}, owners + [if bytes == 0 then null else m];
    }

    /** `mapping()`: a mapping that owns nothing, ready to be assigned to. */
    method Empty() returns (m: Mapping)
      requires Valid()
      modifies this`objects
      ensures Valid() && fresh(m) && objects == old(objects) + {m} && m.Contents() == EMPTY
    {
      hide Core;
      m := new Mapping();
      objects := objects + {m};
    }

    /** `mapping(mapping&&)`: ownership of the window moves with the fields. */
    method Move(rhs: Mapping) returns (m: Mapping)
      requires Valid() && rhs in objects
      modifies rhs, this`owners, this`objects, this`overwritten
      ensures Valid() && fresh(m) && objects == old(objects) + {m} && overwritten == old(overwritten)
      ensures m.Contents() == old(rhs.Contents()) && rhs.Contents() == EMPTY
      ensures owners == Handed(old(owners), rhs, m)
    {
      hide Core, Owned, Handed;
      ghost var contents := Contents(objects);
      m := new Mapping.FromOther(rhs);
      NotOwner(owners, contents, windows, m);
      OwnedAfterMove(owners, contents, windows, rhs, m);
      OrphanedAfterMove(owners, windows, rhs, m);
      assert Core();
      assert Contents(objects + {m}) == Emptied(contents, rhs, m);
      Reown(Handed(owners, rhs, m), objects + {m});
    }

    /** The ghost state follows the fields. */
    ghost method Reown(owners': seq<Mapping?>, objects': set<Mapping>)
      requires Core() && Owned(owners', Contents(objects'), windows)
      modifies this`owners, this`objects, this`overwritten
      ensures Valid() && owners == owners' && objects == objects' && (overwritten <==> Orphaned(owners', windows))
    {
      hide Core, Owned;
      owners, objects, overwritten := owners', objects', Orphaned(owners', windows);
    }

    /** `operator=(mapping&&)`, and who owns what afterwards. What the left-hand side held before is forgotten,
        not released: a window is lost exactly if the left-hand side was not empty. A mapping assigned to
        itself ends up empty. */
    method Assign(lhs: Mapping, rhs: Mapping)
      requires Valid() && lhs in objects && rhs in objects
      modifies lhs, rhs, this`owners, this`objects, this`overwritten
      ensures Valid() && objects == old(objects)
      ensures overwritten <==> old(overwritten) || old(lhs.bytecount) != 0
      ensures (exists k :: 0 <= k < |owners| && old(owners[k]) != null && owners[k] == null) <==>
              old(lhs.bytecount) != 0
      ensures lhs != rhs ==> lhs.Contents() == old(rhs.Contents())
      ensures rhs.Contents() == EMPTY
      ensures owners == Handed(Handed(old(owners), lhs, null), rhs, lhs)
    {
      hide Core, Owned, Handed;
      ghost var contents := Contents(objects);
      OwnedAfterLoss(owners, contents, windows, lhs);
      OrphanedAfterLoss(owners, contents, windows, lhs);
      OrphanedAfterMove(Handed(owners, lhs, null), windows, rhs, lhs);
      LostByAssignment(owners, lhs, rhs);
      OwnedAfterMove(Handed(owners, lhs, null), contents[lhs := EMPTY], windows, rhs, lhs);
      lhs.Assign(rhs);
      assert Core();
      assert Contents(objects) == Emptied(contents[lhs := EMPTY], rhs, lhs);
      Reown(Handed(Handed(owners, lhs, null), rhs, lhs), objects);
    }

    /** `~mapping`: a window is released, once, by the mapping that owns it. */
    method Destroy(m: Mapping)
      requires Valid() && m in objects
      modifies this`windows, this`owners, this`objects, mmu`ram, asa
      ensures Valid() && objects == old(objects) - {m}
      ensures m.bytecount == 0 ==> windows == old(windows) && owners == old(owners)
      ensures m.bytecount == 0 ==> mmu.ram == old(mmu.ram) && asa.asas == old(asa.asas)
      ensures m.bytecount != 0 ==> Released(old(owners), old(windows), owners, windows, m)
      ensures m.bytecount != 0 ==> Joins(old(asa.asas), asa.asas, Region(m.virtaddr, m.bytecount))
      ensures forall n: nat :: m.virtaddr / PAGE <= n < m.virtaddr / PAGE + PageCount(m.bytecount) ==>
              PageAt(mmu.ram, mmu.root, n) == NotMapped
    {
      hide Core, PageCount, PageAt, Owned, Joins;
      NoPages();
      ghost var contents := Contents(objects);
      if m.bytecount != 0 {
        ghost var k := OwnerIndex(owners, contents, windows, m);
        Release(m.virtaddr, m.bytecount, k);
        OwnedAfterRelease(owners, contents, old(windows), m, k);
        OrphanedAfterRelease(owners, old(windows), k);
        owners := Without(owners, k);
      } else {
        OwnedWithoutEmpty(owners, contents, windows, m);
      }
      objects := objects - {m};
      assert Contents(objects) == contents - {m};
    }

    /** While a mapping of a physical range lives, its byte `k` translates to `address + k` as long as the byte
        is within the pages that the loop maps; for an aligned address that is every byte. Behind them nothing
        is mapped: an unaligned range loses its tail when it reaches into a further page. */
    lemma RangeByte(m: Mapping, j: nat, k: nat)
      requires Valid() && j < |owners| && owners[j] == m && windows[j].backing.Range? && k < m.bytecount
      ensures var leaf := Walk(mmu.ram, mmu.root, m.Get() + k);
              if m.address % PAGE + k < PAGE * PageCount(m.bytecount) then
                leaf.Small? && Physical(leaf, m.Get() + k) == m.address + k
              else
                leaf == NotMapped
      ensures m.address % PAGE == 0 ==> m.address % PAGE + k < PAGE * PageCount(m.bytecount)
      ensures m.ToPhysical(m.Get() + k) == m.address + k <==> m.address % PAGE == 0
    {
      hide Mmu.Valid, PageList.Valid, Mmu.Supplied, Above, Sound, Walk, Backed, PageCount, Taken, Fitting;
      var w := windows[j];
      SoundDisjoint(asa.asas, asa.live);
      WalkByPage(mmu.ram, mmu.root, m.Get() + k);
      TakenCovers(w);
      ByteInPage(w.start, w.Offset(), w.backing.address, k);
      if w.Offset() + k < PAGE * w.Count() {
        BackedByte(mmu.ram, mmu.root, w, w.Offset() + k);
      } else {
        BehindWindow(mmu.ram, mmu.root, windows, asa.live, j, k);
      }
    }

    /** Byte `k` of a mapping of a scatter list is byte `k % 4096` of page `pages[k / 4096]`. */
    lemma ScatterByte(m: Mapping, j: nat, k: nat)
      requires Valid() && j < |owners| && owners[j] == m && windows[j].backing.Scatter? && k < m.bytecount
      ensures var leaf, pages := Walk(mmu.ram, mmu.root, m.Get() + k), windows[j].backing.pages;
              && k / PAGE < |pages| && leaf.Small?
              && Physical(leaf, m.Get() + k) == pages[k / PAGE] / PAGE * PAGE + k % PAGE
    {
      hide Mmu.Valid, PageList.Valid, Mmu.Supplied, Above, Sound, Walk, Backed, PageCount, Taken, Fitting;
      var w := windows[j];
      WalkByPage(mmu.ram, mmu.root, m.Get() + k);
      TakenCovers(w);
      BackedByte(mmu.ram, mmu.root, w, k);
    }

    /** A mapped byte may be written and executed as the mapping's use says, over all levels of the tables, and is
        never for user code. */
    lemma ByteRights(m: Mapping, j: nat, k: nat)
      requires Valid() && j < |owners| && owners[j] == m && k < m.bytecount
      requires windows[j].Offset() + k < PAGE * PageCount(m.bytecount)
      ensures Walk(mmu.ram, mmu.root, m.Get() + k).Small?
      ensures Allows(mmu.ram, mmu.root, m.Get() + k) == Granted(windows[j].use)
    {
      hide PageList.Valid, Mmu.Supplied, Above, Sound, Walk, Backed, PageCount, Taken, Fitting, Paging.Inv, Allows;
      var w := windows[j];
      WalkByPage(mmu.ram, mmu.root, m.Get() + k);
      TakenCovers(w);
      BackedByte(mmu.ram, mmu.root, w, w.Offset() + k);
      RightsOfLeaf(mmu.ram, mmu.root, mmu.tables, m.Get() + k);
    }

    /** Once every mapping is gone, no page behind the boot mapping is present, exactly if no mapping was ever
        assigned to while it held a window. */
    lemma AllGone()
      requires Valid() && objects == {}
      ensures (forall n: nat :: FIRST_PAGE <= n < PAGES ==> PageAt(mmu.ram, mmu.root, n) == NotMapped) <==> !overwritten
    {
      hide Mmu.Valid, PageList.Valid, Mmu.Supplied, Above, Sound, Walk, Backed, Fitting, PageAt, Accounted;
      if overwritten {
        var k :| 0 <= k < |owners| && k < |windows| && owners[k] == null && windows[k].bytes != 0;
        WindowPresent(mmu.ram, mmu.root, windows, k);
        FirstCovered(windows[k]);
        assert PageAt(mmu.ram, mmu.root, windows[k].First()) != NotMapped;
      } else {
        forall n: nat | FIRST_PAGE <= n < PAGES ensures PageAt(mmu.ram, mmu.root, n) == NotMapped {
          NoneCovers(owners, windows, n);
          NotCovered(mmu.ram, mmu.root, windows, n);
        }
      }
    }
  }

  lemma FirstCovered(w: Window)
    requires w.WellFormed() && w.bytes != 0
    ensures w.Covers(w.First()) && FIRST_PAGE <= w.First() < PAGES
  {
    TakenCovers(w);
  }

  lemma NoneCovers(owners: seq<Mapping?>, ws: seq<Window>, n: nat)
    requires |owners| == |ws| && !Orphaned(owners, ws) && forall k :: 0 <= k < |owners| ==> owners[k] == null
    ensures Uncovered(ws, n)
  {
  }

  lemma NotCovered(ram: Ram, root: Frame, ws: seq<Window>, n: nat)
    requires Accounted(ram, root, ws) && FIRST_PAGE <= n < PAGES && Uncovered(ws, n)
    ensures PageAt(ram, root, n) == NotMapped
  {
  }

  lemma LostByAssignment(owners: seq<Mapping?>, lhs: Mapping, rhs: Mapping)
    ensures var owners' := Handed(Handed(owners, lhs, null), rhs, lhs);
            (exists k :: 0 <= k < |owners| && owners[k] != null && owners'[k] == null) <==> lhs in owners
  {
  }

  lemma ByteInPage(start: nat, offset: nat, address: nat, k: nat)
    requires start % PAGE == 0 && offset == address % PAGE
    ensures (start + offset + k) / PAGE == start / PAGE + (offset + k) / PAGE
    ensures (start + offset + k) % PAGE == (offset + k) % PAGE
    ensures (address / PAGE + (offset + k) / PAGE) * PAGE + (offset + k) % PAGE == address + k
  {
  }

  lemma BackedByte(ram: Ram, root: Frame, w: Window, b: nat)
    requires w.WellFormed() && Backed(ram, root, w) && b < PAGE * w.Count()
    ensures b / PAGE < w.Count()
    ensures var leaf := PageAt(ram, root, (w.start + b) / PAGE);
            && leaf.Small? && FrameFit(w, b / PAGE) && leaf.e.addr == w.FrameAt(b / PAGE)
            && Describes(leaf.e, leaf.e.addr, w.use)
            && (w.start + b) % PAGE == b % PAGE
  {
    hide PageAt, PageCount;
    var i := b / PAGE;
    assert BackedAt(ram, root, w, i);
    FrameFits(w, i);
  }

  predicate FrameFit(w: Window, i: nat) { w.backing.Scatter? ==> i < |w.backing.pages| }

  /** The page behind the mapped ones belongs to the window, and is not present. */
  lemma BehindWindow(ram: Ram, root: Frame, ws: seq<Window>, live: seq<Region>, j: nat, k: nat)
    requires Accounted(ram, root, ws) && Fitting(ws, live) && Disjoint(live) && j < |ws|
    requires k < ws[j].bytes && ws[j].Offset() + k >= PAGE * ws[j].Count()
    ensures PageAt(ram, root, (ws[j].start + ws[j].Offset() + k) / PAGE) == NotMapped
  {
    hide PageAt, Backed;
    var w := ws[j];
    var n := (w.start + w.Offset() + k) / PAGE;
    assert n == w.First() + w.Count();
    forall i | 0 <= i < |ws| ensures !ws[i].Covers(n) {
      if i != j {
        FittingAt(ws, live, i);
        FittingAt(ws, live, j);
        TakenCovers(ws[i]);
        assert Apart(live[if i < j then i else j], live[if i < j then j else i]);
      }
    }
    assert Uncovered(ws, n);
  }

  /** The one window that `m` owned is gone. */
  ghost predicate Released(owners: seq<Mapping?>, ws: seq<Window>, owners': seq<Mapping?>, ws': seq<Window>,
      m: Mapping) {
    && |owners| == |ws|
    && exists k: nat :: k < |ws| && owners[k] == m && ws' == Without(ws, k) && owners' == Without(owners, k)
  }

  lemma NotOwner(owners: seq<Mapping?>, contents: map<Mapping, Fields>, ws: seq<Window>, m: Mapping)
    requires Owned(owners, contents, ws) && m !in contents
    ensures m !in owners
  {
  }

  lemma OwnerIndex(owners: seq<Mapping?>, contents: map<Mapping, Fields>, ws: seq<Window>, m: Mapping) returns (k: nat)
    requires Owned(owners, contents, ws) && m in contents && contents[m].bytecount != 0
    ensures k < |owners| == |ws| && owners[k] == m && Holds(contents[m], ws[k])
  {
    k :| k < |owners| && owners[k] == m;
  }

  lemma RangePages(address: nat, bytes: nat, phys: seq<nat>)
    requires |phys| == PageCount(bytes)
    requires forall i :: 0 <= i < |phys| ==> phys[i] == address - address % PAGE + PAGE * i
    ensures phys == PhysicalPages(Range(address), bytes)
  {
  }

  lemma NoPages()
    ensures PageCount(0) == 0
  {
  }

  lemma TakenIsRoundedUp(bytes: nat, offset: nat)
    ensures Taken(bytes, offset) == ((if offset != 0 then bytes + PAGE else bytes) + 0xFFF) / PAGE * PAGE
  {
  }

  lemma FittingAt(ws: seq<Window>, live: seq<Region>, k: nat)
    requires Fitting(ws, live) && k < |ws|
    ensures |live| == |ws| && live[k] == Region(ws[k].start, Taken(ws[k].bytes, ws[k].Offset()))
  {
  }

  lemma AboveWith(rs: seq<Region>, r: Region)
    requires Above(rs) && r.start >= 0x100_0000
    ensures Above(rs + [r])
  {
  }

  lemma NothingPresent(memory: Ram)
    ensures Accounted(BootRam(memory), 1, [])
  {
    hide Walk, BootRam;
    forall n: nat | FIRST_PAGE <= n < PAGES ensures PageAt(BootRam(memory), 1, n) == NotMapped {
      BootMapping(memory, n * PAGE);
    }
  }

  lemma WindowPresent(ram: Ram, root: Frame, ws: seq<Window>, k: nat)
    requires Accounted(ram, root, ws) && k < |ws|
    ensures ws[k].WellFormed() && forall n: nat :: ws[k].Covers(n) ==> PageAt(ram, root, n).Small?
  {
    hide PageAt, Describes, PageCount, Window.WellFormed;
    forall n: nat | ws[k].Covers(n) ensures PageAt(ram, root, n).Small? {
      assert BackedAt(ram, root, ws[k], n - ws[k].First());
    }
  }

  lemma PhysicalBelow(w: Window)
    requires w.WellFormed()
    ensures forall i :: 0 <= i < w.Count() ==> PhysicalPages(w.backing, w.bytes)[i] < PHYS
  {
  }

  /** The regions lie behind the boot mapping. */
  ghost predicate Above(rs: seq<Region>) {
    forall i :: 0 <= i < |rs| ==> rs[i].start >= 0x100_0000
  }

  lemma NextIsUsable(free: seq<Region>, live: seq<Region>, size: nat)
    requires Sound(free, live) && Above(free) && FirstFit(free, size, 0) < |free|
    ensures var i := FirstFit(free, size, 0);
            free[i].start % PAGE == 0 && free[i].start >= 0x100_0000 && Above(Cut(free, i, size))
  {
  }

  lemma FittingWith(ws: seq<Window>, live: seq<Region>, w: Window, size: nat)
    requires Fitting(ws, live) && size == Taken(w.bytes, w.Offset())
    ensures Fitting(ws + [w], live + [Region(w.start, size)])
  {
  }
}
