/** The address-space allocator (kernel/src/asa.cpp): first fit over a vector of free regions, cut from
    the front; releasing appends a region and never merges. */
module AddressSpace {

  import opened Words
  import opened Numbers

  datatype Region = Region(start: nat, length: nat) {
    function End(): nat { start + length }
  }

  /** `if (size & 0xFFF) size += 0x1000 - (size & 0xFFF)`, in 64 bits. */
  function Rounded(size: nat): nat {
    (if size % PAGE != 0 then size + (PAGE - size % PAGE) else size) % WORD64
  }

  /** The rounding covers the request exactly unless it wraps around. */
  lemma RoundedCovers(size: nat)
    requires size < WORD64
    ensures Rounded(size) % PAGE == 0
    ensures size <= Rounded(size) < size + PAGE <==> size <= WORD64 - PAGE
    ensures size > WORD64 - PAGE ==> Rounded(size) == 0
  {
    var m := WholePages(size);
    AlignedInWord(m);
    if PAGE * m < WORD64 { InWord(PAGE * m); }
  }

  /** Before the wrap the rounded size is a number of pages. */
  lemma WholePages(size: nat) returns (m: nat)
    ensures size <= PAGE * m < size + PAGE && Rounded(size) == PAGE * m % WORD64
  {
    m := size / PAGE + if size % PAGE != 0 then 1 else 0;
    assert size == PAGE * (size / PAGE) + size % PAGE;
  }

  /** A number of pages, in 64 bits, is a number of pages. */
  lemma AlignedInWord(m: nat)
    ensures PAGE * m % WORD64 % PAGE == 0 && (PAGE * m == WORD64 ==> PAGE * m % WORD64 == 0)
  {
    var n := PAGE * m;
    var rest: nat := m - 0x10_0000_0000_0000 * (n / WORD64);
    assert n % WORD64 == rest * PAGE;
    DivUnique(n % WORD64, PAGE, rest, 0);
  }

  /** No address is in both. */
  predicate Apart(a: Region, b: Region) {
    a.length == 0 || b.length == 0 || a.End() <= b.start || b.End() <= a.start
  }

  ghost predicate Disjoint(rs: seq<Region>) {
    forall i, j :: 0 <= i < j < |rs| ==> Apart(rs[i], rs[j])
  }

  ghost predicate PageAligned(rs: seq<Region>) {
    forall i :: 0 <= i < |rs| ==> rs[i].start % PAGE == 0
  }

  /** Free regions and live allocations do not overlap, among themselves or with each other. */
  ghost predicate Sound(free: seq<Region>, live: seq<Region>) {
    && Disjoint(free) && Disjoint(live) && PageAligned(free) && PageAligned(live)
    && forall i, j :: 0 <= i < |free| && 0 <= j < |live| ==> Apart(free[i], live[j])
  }

  /** The first region long enough, or the number of regions. */
  function FirstFit(rs: seq<Region>, size: nat, n: nat): (r: nat)
    requires n <= |rs|
    ensures n <= r <= |rs|
    ensures r < |rs| ==> rs[r].length >= size
    ensures forall k :: n <= k < r ==> rs[k].length < size
    decreases |rs| - n
  {
    if n == |rs| || rs[n].length >= size then n else FirstFit(rs, size, n + 1)
  }

  function Cut(rs: seq<Region>, i: nat, size: nat): seq<Region>
    requires i < |rs| && rs[i].length >= size
  {
    rs[i := Region(rs[i].start + size, rs[i].length - size)]
  }

  lemma CutSound(free: seq<Region>, live: seq<Region>, i: nat, size: nat)
    requires Sound(free, live) && i < |free| && free[i].length >= size && size % PAGE == 0
    ensures Sound(Cut(free, i, size), live + [Region(free[i].start, size)])
  {
  }

  predicate In(r: Region, x: int) { r.start <= x < r.End() }

  /** Address `x` is in one of the regions. */
  ghost predicate InSome(rs: seq<Region>, x: int) { exists i :: 0 <= i < |rs| && In(rs[i], x) }

  /** Exactly the addresses of `r` have left the regions. */
  ghost predicate Leaves(before: seq<Region>, after: seq<Region>, r: Region) {
    && (forall x :: InSome(before, x) <==> InSome(after, x) || In(r, x))
    && forall x :: In(r, x) ==> !InSome(after, x)
  }

  /** Exactly the addresses of `r` have joined the regions. */
  ghost predicate Joins(before: seq<Region>, after: seq<Region>, r: Region) {
    forall x :: InSome(after, x) <==> InSome(before, x) || In(r, x)
  }

  /** No address is lost or made up by an allocation: what was free is free still or lies in the region handed
      out. */
  lemma CutConserves(free: seq<Region>, i: nat, size: nat)
    requires Disjoint(free) && i < |free| && free[i].length >= size
    ensures Leaves(free, Cut(free, i, size), Region(free[i].start, size))
  {
    var free', r := Cut(free, i, size), Region(free[i].start, size);
    forall x | InSome(free, x) ensures InSome(free', x) || In(r, x) {
      var j :| 0 <= j < |free| && In(free[j], x);
      assert In(free'[j], x) || In(r, x);
    }
    forall x | InSome(free', x) ensures InSome(free, x) && !In(r, x) {
      var j :| 0 <= j < |free| && In(free'[j], x);
      assert In(free[j], x);
    }
    forall x | In(r, x) ensures InSome(free, x) {
      assert In(free[i], x);
    }
  }

  lemma ReleaseConserves(free: seq<Region>, r: Region)
    ensures Joins(free, free + [r], r)
  {
    var free' := free + [r];
    forall x | InSome(free, x) || In(r, x) ensures InSome(free', x) {
      if In(r, x) {
        assert In(free'[|free|], x);
      } else {
        var i :| 0 <= i < |free| && In(free[i], x);
        assert In(free'[i], x);
      }
    }
  }

  /** Giving back the first `size` bytes of a live allocation; what lies behind them is lost to both. */
  lemma ReleaseSound(free: seq<Region>, live: seq<Region>, k: nat, size: nat)
    requires Sound(free, live) && k < |live| && size <= live[k].length
    ensures Sound(free + [Region(live[k].start, size)], live[..k] + live[k + 1..])
  {
  }

  lemma RoundedAligned(size: nat)
    ensures Rounded(size) % PAGE == 0
  {
    hide Rounded;
    var m := WholePages(size);
    AlignedInWord(m);
  }

  lemma FreeAligned(free: seq<Region>, live: seq<Region>, i: nat)
    requires Sound(free, live) && i < |free|
    ensures free[i].start % PAGE == 0
  {
  }

  lemma SoundDisjoint(free: seq<Region>, live: seq<Region>)
    requires Sound(free, live)
    ensures Disjoint(free) && Disjoint(live)
  {
  }

  class Asa {
    var asas: seq<Region>
    ghost var live: seq<Region>          // the allocations not given back, oldest first

    ghost predicate Valid()
      reads this
    {
      Sound(asas, live)
    }

    /** `asa_init`: one region behind the first 16 MiB. It ends at 2^63, far beyond the 2^47 bytes that
        four levels of page tables translate in the lower half. */
    constructor ()
      ensures Valid() && live == [] && asas == [Region(0x100_0000, 0x7fff_ffff_ff00_0000)]
    {
      asas := [Region(0x100_0000, 0x7fff_ffff_ff00_0000)];
      live := [];
    }

    /** `asa_alloc`: the first region long enough is cut from the front; 0 when there is none. */
    method Alloc(size: nat) returns (rv: nat)
      requires Valid()
      modifies this
      ensures Valid()
      ensures var i := FirstFit(old(asas), Rounded(size), 0);
              if i == |old(asas)| then
                rv == 0 && asas == old(asas) && live == old(live)
              else
                && rv == old(asas)[i].start && rv % PAGE == 0
                && asas == Cut(old(asas), i, Rounded(size))
                && live == old(live) + [Region(rv, Rounded(size))]
                && Leaves(old(asas), asas, Region(rv, Rounded(size)))
    {
      hide Sound, Rounded, Leaves;
      RoundedAligned(size);
      var size' := Rounded(size);
      var n := 0;
      while n < |asas|
        invariant n <= |asas| && FirstFit(asas, size', 0) == FirstFit(asas, size', n)
      {
        if asas[n].length >= size' {
          rv := asas[n].start;
          FreeAligned(asas, live, n);
          CutSound(asas, live, n, size');
          SoundDisjoint(asas, live);
          CutConserves(asas, n, size');
          asas := asas[n := Region(asas[n].start + size', asas[n].length - size')];
          live := live + [Region(rv, size')];
          return;
        }
        n := n + 1;
      }
      rv := 0;
    }

    /** `asa_free`: callers give back an allocation's start and a size no larger than it. */
    method Free(ptr: nat, size: nat, ghost k: nat)
      requires Valid() && k < |live| && live[k].start == ptr && size <= live[k].length
      modifies this
      ensures Valid()
      ensures asas == old(asas) + [Region(ptr, size)] && live == old(live)[..k] + old(live)[k + 1..]
      ensures Joins(old(asas), asas, Region(ptr, size))
    {
      hide Joins;
      ReleaseConserves(asas, Region(ptr, size));
      ReleaseSound(asas, live, k, size);
      asas := asas + [Region(ptr, size)];
      live := live[..k] + live[k + 1..];
    }
  }
}
