/** The kernel heap seen as what it is for: a list of blocks in address order, and the place
    where the next search starts. `malloc` and `free` are operations on that list; this module
    proves what every sequence of them keeps. The pointer-level code is in KernelHeap.dfy. */
module HeapBlocks {

  const HEADER: nat := 32
  const ARENA: nat := 1024 * 1024 * 12

  /** One header and the payload behind it. */
  datatype Block = Block(addr: nat, length: nat, free: bool) {
    function Payload(): nat { addr + HEADER }
    function End(): nat { addr + HEADER + length }
  }

  datatype Heap = Heap(blocks: seq<Block>, cursor: nat)

  // ---------------------------------------------------------------- invariants

  /** The blocks of `bs` follow each other without gap or overlap from address `a` to `b`. */
  ghost predicate Chain(a: nat, bs: seq<Block>, b: nat)
    decreases |bs|
  {
    if bs == [] then a == b else bs[0].addr == a && Chain(bs[0].End(), bs[1..], b)
  }

  ghost predicate Aligned(bs: seq<Block>) {
    forall i :: 0 <= i < |bs| ==> bs[i].length % 16 == 0
  }

  ghost predicate Coalesced(bs: seq<Block>) {
    forall i, j :: 0 <= i < |bs| && j == i + 1 && j < |bs| ==> !(bs[i].free && bs[j].free)
  }

  ghost predicate Tiled(base: nat, bs: seq<Block>) {
    bs != [] && Chain(base, bs, base + HEADER + ARENA) && Aligned(bs)
  }

  ghost predicate Valid(base: nat, h: Heap) {
    Tiled(base, h.blocks) && Coalesced(h.blocks) && h.cursor < |h.blocks|
  }

  ghost function Used(bs: seq<Block>): set<Block> {
    set b | b in bs && !b.free
  }

  function Initial(base: nat): Heap {
    Heap([Block(base, ARENA, true)], 0)
  }

  // ---------------------------------------------------------------- chains

  lemma {:induction false} ChainConcat(a: nat, x: seq<Block>, m: nat, y: seq<Block>, b: nat)
    requires Chain(a, x, m) && Chain(m, y, b)
    ensures Chain(a, x + y, b)
    decreases |x|
  {
    if x == [] {
      assert x + y == y;
    } else {
      ChainConcat(x[0].End(), x[1..], m, y, b);
      assert (x + y)[1..] == x[1..] + y;
    }
  }

  /** A chain can be cut in front of any of its blocks. */
  lemma {:induction false} ChainSplit(a: nat, bs: seq<Block>, k: nat, b: nat)
    requires Chain(a, bs, b) && k <= |bs|
    ensures var m := if k < |bs| then bs[k].addr else b;
            Chain(a, bs[..k], m) && Chain(m, bs[k..], b)
    decreases k
  {
    if k == 0 {
      assert bs[..0] == [] && bs[0..] == bs;
    } else {
      ChainSplit(bs[0].End(), bs[1..], k - 1, b);
      assert bs[..k][1..] == bs[1..][..k - 1];
      assert bs[k..] == bs[1..][k - 1..];
    }
  }

  lemma ChainBounds(a: nat, bs: seq<Block>, b: nat)
    requires Chain(a, bs, b)
    ensures a <= b
    ensures forall i :: 0 <= i < |bs| ==> a <= bs[i].addr && bs[i].End() <= b
    decreases |bs|
  {
    if bs != [] {
      ChainBounds(bs[0].End(), bs[1..], b);
      forall i | 0 <= i < |bs| ensures a <= bs[i].addr && bs[i].End() <= b {
        if i > 0 { assert bs[i] == bs[1..][i - 1]; }
      }
    }
  }

  /** List order is address order, and headers with their payloads never overlap. */
  lemma {:induction false} ChainOrder(a: nat, bs: seq<Block>, b: nat, i: nat, j: nat)
    requires Chain(a, bs, b) && i < j < |bs|
    ensures bs[i].End() <= bs[j].addr
    ensures j == i + 1 ==> bs[i].End() == bs[j].addr
  {
    ChainSplit(a, bs, i, b);
    assert bs[i..][0] == bs[i] && bs[i..][1..] == bs[i + 1..];
    ChainBounds(bs[i].End(), bs[i + 1..], b);
    assert bs[j] == bs[i + 1..][j - i - 1];
    assert j == i + 1 ==> bs[i + 1..][0] == bs[j];
  }

  /** Replacing one stretch of a chain by another over the same addresses. */
  lemma ChainSplice(a: nat, bs: seq<Block>, b: nat, lo: nat, hi: nat, mid: seq<Block>)
    requires Chain(a, bs, b) && lo < hi <= |bs|
    requires Chain(bs[lo].addr, mid, bs[hi - 1].End())
    ensures Chain(a, bs[..lo] + mid + bs[hi..], b)
  {
    ChainSplit(a, bs, lo, b);
    ChainSplit(a, bs, hi, b);
    var m := if hi < |bs| then bs[hi].addr else b;
    if hi < |bs| {
      ChainOrder(a, bs, b, hi - 1, hi);
    } else {
      ChainSplit(a, bs, hi - 1, b);
      assert bs[hi - 1..] == [bs[hi - 1]];
    }
    ChainConcat(a, bs[..lo], bs[lo].addr, mid, m);
    ChainConcat(a, bs[..lo] + mid, m, bs[hi..], b);
  }

  // ---------------------------------------------------------------- malloc

  predicate Fits(b: Block, size: nat) { b.free && size <= b.length }

  predicate CanFit(bs: seq<Block>, size: nat) { exists b :: b in bs && Fits(b, size) }

  /** The index `d` steps behind `c` in a ring of `n`. */
  function RingAt(c: nat, d: nat, n: nat): nat
    requires c < n && d < n
  {
    if c + d < n then c + d else c + d - n
  }

  /** Block `i` is the first fitting block in ring order from `c`: it lies `d` steps behind it,
      and no block on the way fits. */
  ghost predicate FirstFit(bs: seq<Block>, c: nat, size: nat, d: nat) {
    && c < |bs| && d < |bs|
    && Fits(bs[RingAt(c, d, |bs|)], size)
    && forall e :: 0 <= e < d ==> !Fits(bs[RingAt(c, e, |bs|)], size)
  }

  lemma RingReaches(c: nat, i: nat, n: nat) returns (d: nat)
    requires c < n && i < n
    ensures d < n && RingAt(c, d, n) == i
  {
    d := if c <= i then i - c else i + n - c;
  }

  /** How far from `c` the search stops, having already passed `d` blocks. */
  function Search(bs: seq<Block>, c: nat, size: nat, d: nat): (r: nat)
    requires c < |bs| && d <= |bs|
    requires exists e :: d <= e < |bs| && Fits(bs[RingAt(c, e, |bs|)], size)
    requires forall e :: 0 <= e < d ==> !Fits(bs[RingAt(c, e, |bs|)], size)
    ensures FirstFit(bs, c, size, r)
    decreases |bs| - d
  {
    if Fits(bs[RingAt(c, d, |bs|)], size) then d else Search(bs, c, size, d + 1)
  }

  /** The block `malloc` takes. */
  function Chosen(h: Heap, size: nat): (i: nat)
    requires h.cursor < |h.blocks| && CanFit(h.blocks, size)
    ensures i < |h.blocks| && Fits(h.blocks[i], size)
    ensures forall d :: FirstFit(h.blocks, h.cursor, size, d) ==> i == RingAt(h.cursor, d, |h.blocks|)
  {
    assert exists e :: 0 <= e < |h.blocks| && Fits(h.blocks[RingAt(h.cursor, e, |h.blocks|)], size) by {
      var i :| 0 <= i < |h.blocks| && Fits(h.blocks[i], size);
      var d := RingReaches(h.cursor, i, |h.blocks|);
    }
    RingAt(h.cursor, Search(h.blocks, h.cursor, size, 0), |h.blocks|)
  }

  /** `(size + 15) & 0xFFFFFFF0`: the mask keeps 32 bits only. */
  function Round16(size: nat): nat {
    (size + 15) % 0x1_0000_0000 / 16 * 16
  }

  lemma Round16Rounds(size: nat)
    requires size <= ARENA
    ensures size <= Round16(size) <= size + 15 && Round16(size) % 16 == 0
    ensures forall n :: n % 16 == 0 && size <= n ==> Round16(size) <= n
  {
  }

  predicate Splits(b: Block, size: nat) { b.length >= size + HEADER }

  /** What taking block `b` for `size` bytes turns it into. */
  function Carve(b: Block, size: nat): seq<Block>
    requires Splits(b, size) ==> Round16(size) + HEADER <= b.length
  {
    if Splits(b, size) then
      [Block(b.addr, Round16(size), false),
       Block(b.addr + HEADER + Round16(size), b.length - HEADER - Round16(size), true)]
    else
      [b.(free := false)]
  }

  /** The split test looks at the unrounded size; the rounded size still fits, because lengths
      are multiples of 16. */
  lemma SplitNeverUnderflows(b: Block, size: nat)
    requires b.length % 16 == 0 && b.length <= ARENA && size <= b.length
    ensures Splits(b, size) ==> Round16(size) + HEADER <= b.length
    ensures (b.length - HEADER - Round16(size)) % 16 == 0
  {
  }

  /** The multiple-of-16 invariant is what the test rests on: a block can be split at every size that the
      test accepts exactly if its length is a multiple of 16, or it is too short to be split at all. */
  lemma SplitNeedsAlignment(b: Block)
    requires b.length <= ARENA
    ensures (forall size: nat :: Splits(b, size) ==> Round16(size) + HEADER <= b.length) <==>
            b.length % 16 == 0 || b.length < HEADER
  {
    hide Round16;
    if b.length % 16 != 0 && b.length >= HEADER {
      var size: nat := b.length - HEADER;
      Round16Rounds(size);
      assert Splits(b, size) && Round16(size) + HEADER > b.length;
    } else {
      forall size: nat | Splits(b, size) ensures Round16(size) + HEADER <= b.length {
        if b.length >= HEADER { Round16Rounds(size); }
      }
    }
  }

  lemma BlockFits(base: nat, bs: seq<Block>, i: nat)
    requires Tiled(base, bs) && i < |bs|
    ensures base <= bs[i].addr && bs[i].End() <= base + HEADER + ARENA
    ensures bs[i].length <= ARENA && bs[i].length % 16 == 0
  {
    ChainBounds(base, bs, base + HEADER + ARENA);
  }

  function AllocAt(base: nat, h: Heap, i: nat, size: nat): Heap
    requires Valid(base, h) && i < |h.blocks| && Fits(h.blocks[i], size)
  {
    BlockFits(base, h.blocks, i);
    SplitNeverUnderflows(h.blocks[i], size);
    Heap(h.blocks[..i] + Carve(h.blocks[i], size) + h.blocks[i + 1..],
         if Splits(h.blocks[i], size) then i + 1 else h.cursor)
  }

  function Malloc(base: nat, h: Heap, size: nat): (r: (Heap, nat))
    requires Valid(base, h) && CanFit(h.blocks, size)
  {
    var i := Chosen(h, size);
    (AllocAt(base, h, i, size), h.blocks[i].Payload())
  }

  lemma CarveChain(b: Block, size: nat)
    requires Splits(b, size) ==> Round16(size) + HEADER <= b.length
    ensures Chain(b.addr, Carve(b, size), b.End())
  {
  }

  lemma AllocKeeps(base: nat, h: Heap, i: nat, size: nat)
    requires Valid(base, h) && i < |h.blocks| && Fits(h.blocks[i], size)
    ensures Valid(base, AllocAt(base, h, i, size))
  {
    hide Chain, Round16;
    var b := h.blocks[i];
    BlockFits(base, h.blocks, i);
    SplitNeverUnderflows(b, size);
    Round16Rounds(size);
    CarveChain(b, size);
    var mid := Carve(b, size);
    ChainSplice(base, h.blocks, base + HEADER + ARENA, i, i + 1, mid);
    var bs' := AllocAt(base, h, i, size).blocks;
    forall k, l | 0 <= k < |bs'| && l == k + 1 && l < |bs'| ensures !(bs'[k].free && bs'[l].free) {
      if k < i - 1 {
        assert bs'[k] == h.blocks[k] && bs'[l] == h.blocks[l];
      } else if k >= i + |mid| - 1 {
        var s := |mid| - 1;
        assert bs'[l] == h.blocks[l - s];
        assert bs'[k].free ==> h.blocks[k - s].free;
      }
    }
    forall k | 0 <= k < |bs'| ensures bs'[k].length % 16 == 0 {
      if i + |mid| <= k { assert bs'[k] == h.blocks[k - |mid| + 1]; }
    }
  }

  lemma AllocUses(base: nat, h: Heap, i: nat, size: nat)
    requires Valid(base, h) && i < |h.blocks| && Fits(h.blocks[i], size)
    ensures var b := AllocAt(base, h, i, size).blocks[i];
            && Used(AllocAt(base, h, i, size).blocks) == Used(h.blocks) + {b}
            && b.addr == h.blocks[i].addr && b.End() <= h.blocks[i].End()
            && size <= b.length <= size + 31
  {
    hide Chain, Round16;
    BlockFits(base, h.blocks, i);
    SplitNeverUnderflows(h.blocks[i], size);
    Round16Rounds(size);
    var mid := Carve(h.blocks[i], size);
    assert Used(mid) == {mid[0]};
    UsedSplice(h.blocks, i, i + 1, mid);
    assert h.blocks[i..i + 1] == [h.blocks[i]];
  }

  /** A free block shares no byte, header included, with a used one. */
  lemma FreeApart(base: nat, bs: seq<Block>, i: nat)
    requires Tiled(base, bs) && i < |bs| && bs[i].free
    ensures forall u :: u in Used(bs) ==> u.End() <= bs[i].addr || bs[i].End() <= u.addr
  {
    hide Chain;
    forall u | u in Used(bs) ensures u.End() <= bs[i].addr || bs[i].End() <= u.addr {
      var k :| 0 <= k < |bs| && bs[k] == u;
      if k < i {
        ChainOrder(base, bs, base + HEADER + ARENA, k, i);
      } else {
        ChainOrder(base, bs, base + HEADER + ARENA, i, k);
      }
    }
  }

  /** `Malloc` returns room for at least `size` and fewer than 32 bytes more; it makes exactly one
      block used, and that block's bytes belong to no other used block. */
  lemma MallocMeaning(base: nat, h: Heap, size: nat) returns (b: Block)
    requires Valid(base, h) && CanFit(h.blocks, size)
    ensures var (h', p) := Malloc(base, h, size);
            && Valid(base, h')
            && b !in Used(h.blocks) && Used(h'.blocks) == Used(h.blocks) + {b}
            && b.Payload() == p && size <= b.length <= size + 31
            && forall u :: u in Used(h.blocks) ==> u.End() <= b.addr || b.End() <= u.addr
  {
    hide Chain, Round16;
    var i := Chosen(h, size);
    AllocKeeps(base, h, i, size);
    AllocUses(base, h, i, size);
    FreeApart(base, h.blocks, i);
    b := AllocAt(base, h, i, size).blocks[i];
  }

  /** Where the search after a `malloc` starts: at the free rest behind the block handed out, if one was cut
      off, and where the last one started otherwise. */
  lemma MallocCursor(base: nat, h: Heap, size: nat) returns (b: Block)
    requires Valid(base, h) && CanFit(h.blocks, size)
    ensures var (h', p) := Malloc(base, h, size);
            && h'.cursor < |h'.blocks| && b in Used(h'.blocks) && b.Payload() == p
            && var c := h'.blocks[h'.cursor];
               if |h'.blocks| == |h.blocks| then c.addr == h.blocks[h.cursor].addr
               else c.free && c.addr == b.End()
  {
    hide Chain, Round16;
    var i := Chosen(h, size);
    var h' := AllocAt(base, h, i, size);
    b := h'.blocks[i];
  }

  lemma UsedSplice(bs: seq<Block>, lo: nat, hi: nat, mid: seq<Block>)
    requires lo <= hi <= |bs|
    ensures Used(bs[..lo] + mid + bs[hi..]) == Used(bs[..lo]) + Used(mid) + Used(bs[hi..])
    ensures Used(bs) == Used(bs[..lo]) + Used(bs[lo..hi]) + Used(bs[hi..])
  {
  }

  // ---------------------------------------------------------------- free

  /** Block `j` absorbs its right neighbour, header included. */
  function Merge(bs: seq<Block>, j: nat): (r: seq<Block>)
    requires j + 1 < |bs|
    ensures |r| == |bs| - 1
  {
    bs[..j] + [Block(bs[j].addr, bs[j].length + HEADER + bs[j + 1].length, bs[j].free)] + bs[j + 2..]
  }

  function MergeLeft(bs: seq<Block>, i: nat): (r: (seq<Block>, nat))
    requires i < |bs|
    ensures r.1 < |r.0|
  {
    if i > 0 && bs[i - 1].free then (Merge(bs, i - 1), i - 1) else (bs, i)
  }

  function MergeRight(bs: seq<Block>, i: nat): (r: seq<Block>)
    requires i < |bs|
    ensures i < |r|
  {
    if i + 1 < |bs| && bs[i + 1].free then Merge(bs, i) else bs
  }

  /** `free` of block `i`: mark it, join it with a free left neighbour, then with a free right one. */
  function FreeAt(h: Heap, i: nat): Heap
    requires i < |h.blocks|
  {
    var (bs, c) := MergeLeft(h.blocks[i := h.blocks[i].(free := true)], i);
    Heap(MergeRight(bs, c), c)
  }

  lemma MergeKeeps(base: nat, bs: seq<Block>, j: nat)
    requires Tiled(base, bs) && j + 1 < |bs| && bs[j].free && bs[j + 1].free
    ensures Tiled(base, Merge(bs, j))
    ensures Used(Merge(bs, j)) == Used(bs)
  {
    var mid := [Block(bs[j].addr, bs[j].length + HEADER + bs[j + 1].length, true)];
    ChainOrder(base, bs, base + HEADER + ARENA, j, j + 1);
    assert mid[1..] == [];
    ChainSplice(base, bs, base + HEADER + ARENA, j, j + 2, mid);
    UsedSplice(bs, j, j + 2, mid);
    assert bs[j..j + 2] == [bs[j], bs[j + 1]];
    var bs' := Merge(bs, j);
    forall k | 0 <= k < |bs'| ensures bs'[k].length % 16 == 0 {
      if k > j { assert bs'[k] == bs[k + 1]; }
    }
  }

  /** No two neighbours are both free, except perhaps block `c` and its successor. */
  ghost predicate CoalescedBut(bs: seq<Block>, c: nat) {
    forall k, l :: 0 <= k < |bs| && l == k + 1 && l < |bs| && k != c ==> !(bs[k].free && bs[l].free)
  }

  lemma LeftCoalesces(bs: seq<Block>, i: nat)
    requires Coalesced(bs) && i < |bs| && !bs[i].free
    ensures var (r, c) := MergeLeft(bs[i := bs[i].(free := true)], i); r[c].free && CoalescedBut(r, c)
  {
  }

  lemma RightCoalesces(bs: seq<Block>, c: nat)
    requires c < |bs| && CoalescedBut(bs, c)
    ensures Coalesced(MergeRight(bs, c))
  {
  }

  /** Freeing keeps the heap valid and removes exactly the freed block from the used ones. */
  lemma FreeKeeps(base: nat, h: Heap, i: nat)
    requires Valid(base, h) && i < |h.blocks| && !h.blocks[i].free
    ensures Valid(base, FreeAt(h, i))
    ensures Used(FreeAt(h, i).blocks) == Used(h.blocks) - {h.blocks[i]}
  {
    hide Chain, Aligned;
    var marked := h.blocks[i := h.blocks[i].(free := true)];
    MarkKeeps(base, h.blocks, i);
    var (bs, c) := MergeLeft(marked, i);
    if i > 0 && marked[i - 1].free { MergeKeeps(base, marked, i - 1); }
    LeftCoalesces(h.blocks, i);
    if c + 1 < |bs| && bs[c + 1].free { MergeKeeps(base, bs, c); }
    RightCoalesces(bs, c);
  }

  lemma MarkKeeps(base: nat, bs: seq<Block>, i: nat)
    requires Tiled(base, bs) && i < |bs| && !bs[i].free
    ensures Tiled(base, bs[i := bs[i].(free := true)])
    ensures Used(bs[i := bs[i].(free := true)]) == Used(bs) - {bs[i]}
  {
    var mid := [bs[i].(free := true)];
    assert bs[i := mid[0]] == bs[..i] + mid + bs[i + 1..];
    assert mid[1..] == [];
    ChainSplice(base, bs, base + HEADER + ARENA, i, i + 1, mid);
    UsedSplice(bs, i, i + 1, mid);
    assert bs[i..i + 1] == [bs[i]];
    forall k | 0 <= k < |bs| && k != i ensures bs[k] != bs[i] {
      if k < i {
        ChainOrder(base, bs, base + HEADER + ARENA, k, i);
      } else {
        ChainOrder(base, bs, base + HEADER + ARENA, i, k);
      }
    }
    forall b | b in Used(bs[i := mid[0]]) ensures b in Used(bs) - {bs[i]} {
      var k :| 0 <= k < |bs| && bs[i := mid[0]][k] == b;
    }
    forall b | b in Used(bs) - {bs[i]} ensures b in Used(bs[i := mid[0]]) {
      var k :| 0 <= k < |bs| && bs[k] == b;
      assert bs[i := mid[0]][k] == b;
    }
  }

  /** Where the search after a `free` starts: at the free block that the freed one has become part of. */
  lemma FreeCursor(base: nat, h: Heap, i: nat)
    requires Valid(base, h) && i < |h.blocks| && !h.blocks[i].free
    ensures var h' := FreeAt(h, i);
            && h'.cursor < |h'.blocks|
            && var c := h'.blocks[h'.cursor];
               c.free && c.addr <= h.blocks[i].addr && h.blocks[i].End() <= c.End()
  {
    hide Chain, Aligned;
    if i > 0 { ChainOrder(base, h.blocks, base + HEADER + ARENA, i - 1, i); }
    if i + 1 < |h.blocks| { ChainOrder(base, h.blocks, base + HEADER + ARENA, i, i + 1); }
  }

  // ---------------------------------------------------------------- the block list is canonical

  /** Coalescing is complete: the whole block list is determined by which blocks are used. */
  lemma {:induction false} Canonical(a: nat, x: seq<Block>, y: seq<Block>, b: nat)
    requires Chain(a, x, b) && Chain(a, y, b) && Coalesced(x) && Coalesced(y)
    requires Used(x) == Used(y)
    ensures x == y
    decreases |x|
  {
    if x == [] || y == [] {
      var z := if x == [] then y else x;
      if z != [] { ChainBounds(z[0].End(), z[1..], b); }
    } else {
      SameHead(a, x, y, b);
      SameHead(a, y, x, b);
      if x[0].free {
        FreeHeadReaches(a, x, y, b);
        FreeHeadReaches(a, y, x, b);
      }
      assert x[0] == y[0];
      UsedTail(a, x, b);
      UsedTail(a, y, b);
      assert Coalesced(x[1..]) && Coalesced(y[1..]);
      Canonical(x[0].End(), x[1..], y[1..], b);
    }
  }

  /** Only the first block of a chain starts at the chain's start. */
  lemma UsedTail(a: nat, x: seq<Block>, b: nat)
    requires Chain(a, x, b) && x != []
    ensures forall u :: u in Used(x[1..]) <==> u in Used(x) && u.addr != a
    ensures Used(x[1..]) == Used(x) - (if x[0].free then {} else {x[0]})
  {
    ChainBounds(x[0].End(), x[1..], b);
    assert x == [x[0]] + x[1..];
  }

  lemma SameHead(a: nat, x: seq<Block>, y: seq<Block>, b: nat)
    requires Chain(a, x, b) && Chain(a, y, b) && x != [] && y != [] && Used(x) == Used(y)
    ensures !x[0].free ==> x[0] == y[0]
  {
    if !x[0].free {
      assert x[0] in Used(y);
      UsedTail(a, y, b);
      assert y == [y[0]] + y[1..];
    }
  }

  /** A free head ends where the first used block starts, so it is no shorter than the other one. */
  lemma FreeHeadReaches(a: nat, x: seq<Block>, y: seq<Block>, b: nat)
    requires Chain(a, x, b) && Chain(a, y, b) && Coalesced(x) && x != [] && y != []
    requires Used(x) == Used(y) && x[0].free && y[0].free
    ensures y[0].length <= x[0].length
  {
    ChainBounds(y[0].End(), y[1..], b);
    if |x| > 1 {
      assert x[1] == x[1..][0];
      assert x[1] in Used(y);
      var k :| 0 <= k < |y| && y[k] == x[1];
      assert y[k] == y[1..][k - 1];
    }
  }

  /** Freeing what `Malloc` has just handed out restores the block list exactly. */
  lemma FreeUndoesMalloc(base: nat, h: Heap, size: nat)
    requires Valid(base, h) && CanFit(h.blocks, size)
    ensures var (h', p) := Malloc(base, h, size);
            exists i :: 0 <= i < |h'.blocks| && !h'.blocks[i].free && h'.blocks[i].Payload() == p
                        && FreeAt(h', i).blocks == h.blocks
  {
    hide Chain;
    var (h', p) := Malloc(base, h, size);
    var b := MallocMeaning(base, h, size);
    assert b in Used(h'.blocks);
    var i :| 0 <= i < |h'.blocks| && h'.blocks[i] == b;
    FreeKeeps(base, h', i);
    assert Used(FreeAt(h', i).blocks) == Used(h.blocks);
    Canonical(base, FreeAt(h', i).blocks, h.blocks, base + HEADER + ARENA);
  }

  lemma InitialValid(base: nat)
    ensures Valid(base, Initial(base)) && Used(Initial(base).blocks) == {}
  {
  }

  // ---------------------------------------------------------------- whole runs

  datatype Call =
    | CallMalloc(size: nat)
    | CallFree(p: nat)
    | CallRealloc(p: nat, size: nat)

  /** The used block whose payload is at `p`. */
  ghost predicate IsLive(h: Heap, p: nat, i: nat) {
    i < |h.blocks| && !h.blocks[i].free && h.blocks[i].Payload() == p
  }

  /** What the kernel's callers know of the heap: which pointers they hold. */
  datatype World = World(heap: Heap, held: set<nat>)

  ghost predicate Mallocs(base: nat, w: World, size: nat, w': World) {
    && Valid(base, w.heap) && CanFit(w.heap.blocks, size)
    && var (h, p) := Malloc(base, w.heap, size);
       w' == World(h, w.held + {p})
  }

  ghost predicate Frees(base: nat, w: World, p: nat, w': World) {
    && Valid(base, w.heap) && p in w.held
    && exists i: nat :: IsLive(w.heap, p, i) && w' == World(FreeAt(w.heap, i), w.held - {p})
  }

  /** One call: an allocation some block can serve, a release of a pointer the caller holds, or a
      resizing, which either leaves a large enough block alone or allocates, copies and releases. */
  ghost predicate Step(base: nat, w: World, c: Call, w': World) {
    match c
    case CallMalloc(size) => Mallocs(base, w, size, w')
    case CallFree(p) => Frees(base, w, p, w')
    case CallRealloc(p, size) =>
      || (w' == w && exists i: nat :: IsLive(w.heap, p, i) && w.heap.blocks[i].length > size)
      || (p == 0 && Mallocs(base, w, size, w'))
      || exists mid :: Mallocs(base, w, size, mid) && Frees(base, mid, p, w')
  }

  ghost predicate Run(base: nat, cs: seq<Call>, ws: seq<World>) {
    && |ws| == |cs| + 1
    && ws[0] == World(Initial(base), {})
    && forall k, l :: 0 <= k < |cs| && l == k + 1 ==> Step(base, ws[k], cs[k], ws[l])
  }

  ghost function Payloads(bs: seq<Block>): set<nat> {
    set b | b in Used(bs) :: b.Payload()
  }

  /** Payload addresses identify used blocks. */
  lemma PayloadsDistinct(base: nat, bs: seq<Block>, i: nat)
    requires Tiled(base, bs) && i < |bs| && !bs[i].free
    ensures Payloads(bs) - {bs[i].Payload()} == set b | b in Used(bs) - {bs[i]} :: b.Payload()
  {
    hide Chain;
    forall b | b in Used(bs) && b != bs[i] ensures b.Payload() != bs[i].Payload() {
      var k :| 0 <= k < |bs| && bs[k] == b;
      if k < i {
        ChainOrder(base, bs, base + HEADER + ARENA, k, i);
      } else {
        ChainOrder(base, bs, base + HEADER + ARENA, i, k);
      }
    }
  }

  ghost predicate Agrees(base: nat, w: World) {
    Valid(base, w.heap) && w.held == Payloads(w.heap.blocks)
  }

  lemma MallocAgrees(base: nat, w: World, size: nat, w': World)
    requires Mallocs(base, w, size, w') && Agrees(base, w)
    ensures Agrees(base, w')
  {
    hide Chain;
    var b := MallocMeaning(base, w.heap, size);
    assert Payloads(w'.heap.blocks) == Payloads(w.heap.blocks) + {b.Payload()};
  }

  lemma FreeAgrees(base: nat, w: World, p: nat, w': World)
    requires Frees(base, w, p, w') && Agrees(base, w)
    ensures Agrees(base, w')
  {
    hide Chain;
    var i: nat :| IsLive(w.heap, p, i) && w' == World(FreeAt(w.heap, i), w.held - {p});
    FreeKeeps(base, w.heap, i);
    PayloadsDistinct(base, w.heap.blocks, i);
  }

  lemma StepKeeps(base: nat, w: World, c: Call, w': World)
    requires Step(base, w, c, w') && Agrees(base, w)
    ensures Agrees(base, w')
  {
    match c {
      case CallMalloc(size) => MallocAgrees(base, w, size, w');
      case CallFree(p) => FreeAgrees(base, w, p, w');
      case CallRealloc(p, size) =>
        if w' != w && !(p == 0 && Mallocs(base, w, size, w')) {
          var mid :| Mallocs(base, w, size, mid) && Frees(base, mid, p, w');
          MallocAgrees(base, w, size, mid);
          FreeAgrees(base, mid, p, w');
        } else if w' != w {
          MallocAgrees(base, w, size, w');
        }
    }
  }

  /** Every run keeps the heap invariant, and the used blocks are exactly the pointers held. */
  lemma {:induction false} RunKeeps(base: nat, cs: seq<Call>, ws: seq<World>)
    requires Run(base, cs, ws)
    ensures forall k :: 0 <= k < |ws| ==> Agrees(base, ws[k])
    decreases |cs|
  {
    InitialValid(base);
    if cs != [] {
      var n := |cs| - 1;
      RunKeeps(base, cs[..n], ws[..n + 1]);
      assert ws[..n + 1][n] == ws[n];
      StepKeeps(base, ws[n], cs[n], ws[n + 1]);
      forall k | 0 <= k < |ws| ensures Agrees(base, ws[k]) {
        if k <= n { assert ws[..n + 1][k] == ws[k]; }
      }
    }
  }

  /** A run that has released everything it allocated, in whatever order, is back at one free
      block of the whole arena. */
  lemma AllFreedIsWhole(base: nat, cs: seq<Call>, ws: seq<World>)
    requires Run(base, cs, ws) && ws[|cs|].held == {}
    ensures ws[|cs|].heap.blocks == [Block(base, ARENA, true)]
  {
    RunKeeps(base, cs, ws);
    InitialValid(base);
    var bs := ws[|cs|].heap.blocks;
    assert Used(bs) == {} by {
      forall b | b in Used(bs) ensures b.Payload() in Payloads(bs) {}
    }
    Canonical(base, bs, Initial(base).blocks, base + HEADER + ARENA);
  }

  /** More generally: two runs holding the same blocks have the same heap, whatever their history. */
  lemma HistoryIsForgotten(base: nat, cs: seq<Call>, ws: seq<World>, cs': seq<Call>, ws': seq<World>)
    requires Run(base, cs, ws) && Run(base, cs', ws')
    requires Used(ws[|cs|].heap.blocks) == Used(ws'[|cs'|].heap.blocks)
    ensures ws[|cs|].heap.blocks == ws'[|cs'|].heap.blocks
  {
    RunKeeps(base, cs, ws);
    RunKeeps(base, cs', ws');
    Canonical(base, ws[|cs|].heap.blocks, ws'[|cs'|].heap.blocks, base + HEADER + ARENA);
  }
}
