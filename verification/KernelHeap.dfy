/** The kernel heap as the code has it: headers linked through addresses and stored in the same
    bytes as the payloads (kernel/src/mem.cpp). Every method is proved to do on the headers what
    HeapBlocks does on the block list, and to leave all other payloads alone. */
module KernelHeap {
  import opened Words
  import opened Bytes
  import opened HeapBlocks

  /** `malloc_entry`: the four words of a header. */
  datatype Header = Header(next: nat, prev: nat, length: nat, free: nat)

  /** How the compiler lays a header out in its 32 bytes. The proofs hold for every layout. */
  type Layout = f: Header -> seq<byte> | forall h :: |f(h)| == HEADER witness _ => seq(HEADER, _ => 0)

  datatype FreeOutcome = Done | DoubleFree | Corruption

  function Next(i: nat, n: nat): nat
    requires i < n
  {
    if i + 1 == n then 0 else i + 1
  }

  function Prev(i: nat, n: nat): nat
    requires i < n
  {
    if i == 0 then n - 1 else i - 1
  }

  /** The header that block `i` of the ring must have. */
  ghost function HeaderOf(bs: seq<Block>, i: nat): Header
    requires i < |bs|
  {
    Header(bs[Next(i, |bs|)].addr, bs[Prev(i, |bs|)].addr, bs[i].length, if bs[i].free then 1 else 0)
  }

  ghost predicate LinkedAt(headers: map<nat, Header>, bs: seq<Block>, i: nat)
    requires i < |bs|
  {
    bs[i].addr in headers && headers[bs[i].addr] == HeaderOf(bs, i)
  }

  ghost function Addrs(bs: seq<Block>): set<nat> { set b | b in bs :: b.addr }

  /** The headers are exactly those of `bs`, linked both ways into one ring in address order. */
  ghost predicate Linked(headers: map<nat, Header>, bs: seq<Block>) {
    && headers.Keys == Addrs(bs)
    && forall i :: 0 <= i < |bs| ==> LinkedAt(headers, bs, i)
  }

  /** The bytes `m`, the first of which is at address `base`, hold `headers`, none overlapping. */
  ghost predicate InBand(layout: Layout, base: nat, m: seq<byte>, headers: map<nat, Header>) {
    && |m| == HEADER + ARENA
    && (forall a, b :: a in headers && b in headers && a < b ==> a + HEADER <= b)
    && (forall a :: a in headers ==>
          base <= a && a - base + HEADER <= |m| && m[a - base..a - base + HEADER] == layout(headers[a]))
  }

  function Overwritten(m: seq<byte>, off: nat, bs: seq<byte>): (r: seq<byte>)
    requires off + |bs| <= |m|
    ensures |r| == |m|
  {
    m[..off] + bs + m[off + |bs|..]
  }

  /** Writing a header in the clear, or over itself, keeps all the others readable. */
  lemma StoreKeepsOthers(layout: Layout, base: nat, m: seq<byte>, headers: map<nat, Header>, a: nat, h: Header)
    requires InBand(layout, base, m, headers)
    requires base <= a && a - base + HEADER <= |m|
    requires forall b :: b in headers && b != a ==> b + HEADER <= a || a + HEADER <= b
    ensures InBand(layout, base, Overwritten(m, a - base, layout(h)), headers[a := h])
  {
  }

  lemma InitialLinked(base: nat)
    ensures Linked(map[base := Header(base, base, ARENA, 1)], Initial(base).blocks)
  {
  }

  ghost predicate DistinctAddrs(bs: seq<Block>) {
    forall i, j :: 0 <= i < j < |bs| ==> bs[i].addr != bs[j].addr
  }

  /** No header lies inside another block, so list positions and header addresses correspond. */
  lemma ChainDistinct(a: nat, bs: seq<Block>, b: nat)
    requires Chain(a, bs, b)
    ensures DistinctAddrs(bs)
    ensures forall i, x :: 0 <= i < |bs| && bs[i].addr < x < bs[i].End() ==> x !in Addrs(bs)
  {
    hide Chain;
    forall i, j | 0 <= i < j < |bs| ensures bs[i].addr != bs[j].addr {
      ChainOrder(a, bs, b, i, j);
    }
    forall i, x | 0 <= i < |bs| && bs[i].addr < x < bs[i].End() ensures x !in Addrs(bs) {
      if x in Addrs(bs) {
        var j :| 0 <= j < |bs| && bs[j].addr == x;
        if i < j { ChainOrder(a, bs, b, i, j); } else if j < i { ChainOrder(a, bs, b, j, i); }
      }
    }
  }

  function Flag(b: Block): nat { if b.free then 1 else 0 }

  /** The links after `malloc` has put the new header `mid[1]` behind `mid[0]`; the successor may be
      `mid[0]` itself, when the ring had a single member. */
  ghost predicate SplitsRing(hs: map<nat, Header>, mid: seq<Block>, hs': map<nat, Header>)
    requires |mid| == 2 && mid[0].addr in hs
  {
    var cur, next, succ := mid[0].addr, mid[1].addr, hs[mid[0].addr].next;
    && hs'.Keys == hs.Keys + {next}
    && hs'[next] == Header(succ, cur, mid[1].length, Flag(mid[1]))
    && hs'[cur] == Header(next, if succ == cur then next else hs[cur].prev, mid[0].length, Flag(mid[0]))
    && (succ in hs && succ != cur ==> hs'[succ] == hs[succ].(prev := next))
    && forall a :: a in hs && a != cur && a != succ ==> hs'[a] == hs[a]
  }

  /** The field assignments of the splitting branch, in the order the code makes them. */
  ghost function SplitAssignments(hs: map<nat, Header>, cur: nat, next: nat): map<nat, Header>
    requires cur in hs && hs[cur].next in hs && next !in hs
    requires next >= cur + HEADER && hs[cur].length >= next - cur
  {
    var h1 := hs[next := Header(0, 0, hs[cur].length - (next - cur), 1)];
    var h2 := h1[cur := h1[cur].(length := next - cur - HEADER)];
    var h3 := h2[next := h2[next].(prev := cur, next := h2[cur].next)];
    var h4 := h3[h3[next].next := h3[h3[next].next].(prev := next)];
    h4[h4[next].prev := h4[h4[next].prev].(next := next)]
  }

  lemma AssignmentsSplit(hs: map<nat, Header>, cur: nat, next: nat, mid: seq<Block>)
    requires cur in hs && hs[cur].next in hs && next !in hs && hs[cur].free <= 1
    requires next >= cur + HEADER && hs[cur].length >= next - cur
    requires mid == [Block(cur, next - cur - HEADER, hs[cur].free != 0),
                     Block(next, hs[cur].length - (next - cur), true)]
    ensures SplitsRing(hs, mid, SplitAssignments(hs, cur, next))
  {
  }

  /** The links of the other blocks. */
  lemma SplitLinkedAway(hs: map<nat, Header>, bs: seq<Block>, i: nat, mid: seq<Block>, bs': seq<Block>, k: nat,
      hs': map<nat, Header>)
    requires DistinctAddrs(bs) && Linked(hs, bs) && i < |bs| && k <= |bs| && (k < i || k > i + 1)
    requires |mid| == 2 && mid[0].addr == bs[i].addr && mid[1].addr !in hs && mid[0].addr in hs
    requires SplitsRing(hs, mid, hs')
    requires bs' == bs[..i] + mid + bs[i + 1..]
    ensures LinkedAt(hs', bs', k)
  {
    hide Addrs;
    var n := |bs|;
    assert LinkedAt(hs, bs, i);
    if k < i {
      assert LinkedAt(hs, bs, k);
      assert k > 0 ==> bs'[k - 1] == bs[k - 1];
      assert k == 0 ==> bs'[n].addr == if i == n - 1 then mid[1].addr else bs[n - 1].addr;
    } else {
      assert LinkedAt(hs, bs, k - 1);
      assert bs'[k] == bs[k - 1] && (k > i + 2 ==> bs'[k - 1] == bs[k - 2]);
      assert bs'[Next(k, n + 1)].addr == bs[Next(k - 1, n)].addr;
    }
  }

  lemma SplitLinkedAt(hs: map<nat, Header>, bs: seq<Block>, i: nat, mid: seq<Block>, bs': seq<Block>, k: nat,
      hs': map<nat, Header>)
    requires DistinctAddrs(bs) && Linked(hs, bs) && i < |bs| && k <= |bs|
    requires |mid| == 2 && mid[0].addr == bs[i].addr && mid[1].addr !in hs && mid[0].addr in hs
    requires SplitsRing(hs, mid, hs')
    requires bs' == bs[..i] + mid + bs[i + 1..]
    ensures LinkedAt(hs', bs', k)
  {
    hide Addrs;
    var n := |bs|;
    assert LinkedAt(hs, bs, i);
    assert bs'[i] == mid[0] && bs'[i + 1] == mid[1];
    if k < i || k > i + 1 {
      SplitLinkedAway(hs, bs, i, mid, bs', k, hs');
    } else if k == i {
      assert bs'[Prev(i, n + 1)].addr == if n == 1 then mid[1].addr else bs[Prev(i, n)].addr;
    } else {
      assert bs'[Next(k, n + 1)].addr == bs[Next(i, n)].addr;
    }
  }

  /** They keep the ring, also when it had a single member. */
  lemma SplitLinked(hs: map<nat, Header>, bs: seq<Block>, i: nat, mid: seq<Block>, hs': map<nat, Header>)
    requires DistinctAddrs(bs) && Linked(hs, bs) && i < |bs|
    requires |mid| == 2 && mid[0].addr == bs[i].addr && mid[1].addr !in hs
    requires mid[0].addr in hs && SplitsRing(hs, mid, hs')
    ensures Linked(hs', bs[..i] + mid + bs[i + 1..])
  {
    hide LinkedAt, Addrs;
    var bs' := bs[..i] + mid + bs[i + 1..];
    forall k | 0 <= k < |bs'| ensures LinkedAt(hs', bs', k) {
      SplitLinkedAt(hs, bs, i, mid, bs', k, hs');
    }
    AddrsSplice(bs, i, i + 1, mid);
    AddrsSmall(bs, i, mid);
    assert hs.Keys + {mid[1].addr} == Addrs(bs');
  }

  lemma AddrsSmall(bs: seq<Block>, i: nat, mid: seq<Block>)
    requires i < |bs| && |mid| == 2
    ensures Addrs(bs[i..i + 1]) == {bs[i].addr} && Addrs(mid) == {mid[0].addr, mid[1].addr}
  {
  }

  /** The splitting branch's assignments yield the ring of the split list. */
  lemma SplitReady(hs: map<nat, Header>, bs: seq<Block>, i: nat, cur: nat, next: nat, bs': seq<Block>)
    requires DistinctAddrs(bs) && Linked(hs, bs) && i < |bs| && cur == bs[i].addr && cur + HEADER <= next
    requires next + HEADER <= bs[i].End()
    requires forall x :: bs[i].addr < x < bs[i].End() ==> x !in Addrs(bs)
    requires bs' == bs[..i]
                    + [Block(cur, next - cur - HEADER, bs[i].free), Block(next, bs[i].End() - next - HEADER, true)]
                    + bs[i + 1..]
    ensures cur in hs && hs[cur].next in hs && next !in hs && hs[cur].length == bs[i].length
    ensures Linked(SplitAssignments(hs, cur, next), bs')
  {
    assert LinkedAt(hs, bs, i) && LinkedAt(hs, bs, Next(i, |bs|));
    var mid := [Block(cur, next - cur - HEADER, bs[i].free), Block(next, bs[i].End() - next - HEADER, true)];
    AssignmentsSplit(hs, cur, next, mid);
    SplitLinked(hs, bs, i, mid, SplitAssignments(hs, cur, next));
  }

  lemma AddrsUpdate(bs: seq<Block>, i: nat, b: Block)
    requires i < |bs| && b.addr == bs[i].addr
    ensures Addrs(bs[i := b]) == Addrs(bs)
  {
    AddrsSplice(bs, i, i + 1, [b]);
    assert bs[i := b] == bs[..i] + [b] + bs[i + 1..] && bs[i..i + 1] == [bs[i]];
    assert Addrs([b]) == {b.addr} == Addrs([bs[i]]) by { assert b in [b] && bs[i] in [bs[i]]; }
  }

  /** Flipping one block's flag, in its header and in the list. */
  lemma FlagLinked(hs: map<nat, Header>, bs: seq<Block>, i: nat, free: bool)
    requires DistinctAddrs(bs) && Linked(hs, bs) && i < |bs| && bs[i].addr in hs
    ensures Linked(hs[bs[i].addr := hs[bs[i].addr].(free := if free then 1 else 0)], bs[i := bs[i].(free := free)])
  {
    AddrsUpdate(bs, i, bs[i].(free := free));
    hide Addrs;
    var bs' := bs[i := bs[i].(free := free)];
    var hs' := hs[bs[i].addr := hs[bs[i].addr].(free := if free then 1 else 0)];
    forall k | 0 <= k < |bs'| ensures LinkedAt(hs', bs', k) {
      assert LinkedAt(hs, bs, k) && LinkedAt(hs, bs, i);
    }
  }

  /** What every call may rely on about the header of block `i`. */
  lemma HeaderReady(base: nat, hs: map<nat, Header>, bs: seq<Block>, i: nat)
    requires Tiled(base, bs) && Linked(hs, bs) && i < |bs|
    ensures bs[i].addr in hs && hs[bs[i].addr].length == bs[i].length && hs[bs[i].addr].next in hs
    ensures base <= bs[i].addr && bs[i].End() <= base + HEADER + ARENA
    ensures forall a :: a in hs && a != bs[i].addr ==> a + HEADER <= bs[i].addr || bs[i].End() <= a
  {
    hide Chain;
    BlockFits(base, bs, i);
    HeadersApart(base, bs, i);
    assert LinkedAt(hs, bs, i) && LinkedAt(hs, bs, Next(i, |bs|));
  }

  /** Taking block `i` whole clears one flag. */
  lemma TakeWhole(base: nat, h: Heap, hs: map<nat, Header>, i: nat, size: nat)
    requires HeapBlocks.Valid(base, h) && Linked(hs, h.blocks)
    requires i < |h.blocks| && Fits(h.blocks[i], size) && !Splits(h.blocks[i], size)
    requires h.blocks[i].addr in hs
    ensures Linked(hs[h.blocks[i].addr := hs[h.blocks[i].addr].(free := 0)], AllocAt(base, h, i, size).blocks)
  {
    hide Chain, Aligned, Round16;
    ChainDistinct(base, h.blocks, base + HEADER + ARENA);
    FlagLinked(hs, h.blocks, i, false);
    assert h.blocks[i := h.blocks[i].(free := false)]
        == h.blocks[..i] + Carve(h.blocks[i], size) + h.blocks[i + 1..];
  }

  /** Taking block `i` in part clears the flag ... */
  lemma MarkReady(base: nat, hs: map<nat, Header>, bs: seq<Block>, i: nat, hs1: map<nat, Header>)
    requires Tiled(base, bs) && Linked(hs, bs) && i < |bs|
    requires bs[i].addr in hs && hs1 == hs[bs[i].addr := hs[bs[i].addr].(free := 0)]
    ensures var bs1 := bs[i := bs[i].(free := false)];
            && Linked(hs1, bs1) && DistinctAddrs(bs1)
            && forall x :: bs[i].addr < x < bs[i].End() ==> x !in Addrs(bs1)
  {
    hide Chain, Aligned, Round16;
    ChainDistinct(base, bs, base + HEADER + ARENA);
    FlagLinked(hs, bs, i, false);
    AddrsUpdate(bs, i, bs[i].(free := false));
  }

  /** ... and then splits. */
  lemma TakePart(base: nat, h: Heap, hs: map<nat, Header>, i: nat, size: nat, hs1: map<nat, Header>, next: nat)
    requires HeapBlocks.Valid(base, h) && Linked(hs, h.blocks)
    requires i < |h.blocks| && Fits(h.blocks[i], size) && Splits(h.blocks[i], size)
    requires h.blocks[i].addr in hs && hs1 == hs[h.blocks[i].addr := hs[h.blocks[i].addr].(free := 0)]
    requires next == h.blocks[i].addr + Round16(size) + HEADER && next + HEADER <= h.blocks[i].End()
    ensures hs1[h.blocks[i].addr].next in hs1 && next !in hs1 && hs1[h.blocks[i].addr].length == h.blocks[i].length
    ensures Linked(SplitAssignments(hs1, h.blocks[i].addr, next), AllocAt(base, h, i, size).blocks)
  {
    hide Chain, Aligned, Round16;
    var bs, b := h.blocks, h.blocks[i];
    var bs1 := bs[i := b.(free := false)];
    MarkReady(base, hs, bs, i, hs1);
    var bs2 := AllocAt(base, h, i, size).blocks;
    assert bs1[..i] == bs[..i] && bs1[i + 1..] == bs[i + 1..];
    assert Carve(b, size)
        == [Block(b.addr, next - b.addr - HEADER, bs1[i].free), Block(next, bs1[i].End() - next - HEADER, true)];
    hide Linked, DistinctAddrs, Addrs, HeapBlocks.Valid, Tiled, SplitAssignments;
    SplitReady(hs1, bs1, i, b.addr, next, bs2);
  }

  /** All that `malloc` relies on when it takes block `i`, and what its header writes amount to. */
  lemma TakeReady(base: nat, h: Heap, hs: map<nat, Header>, i: nat, size: nat, hs1: map<nat, Header>, next: nat)
    requires HeapBlocks.Valid(base, h) && Linked(hs, h.blocks)
    requires i < |h.blocks| && Fits(h.blocks[i], size)
    requires h.blocks[i].addr in hs && hs1 == hs[h.blocks[i].addr := hs[h.blocks[i].addr].(free := 0)]
    requires next == h.blocks[i].addr + Round16(size) + HEADER
    ensures hs1[h.blocks[i].addr].length == h.blocks[i].length
    ensures if Splits(h.blocks[i], size) then
              && hs1[h.blocks[i].addr].next in hs1 && next !in hs1 && next + HEADER <= h.blocks[i].End()
              && Linked(SplitAssignments(hs1, h.blocks[i].addr, next), AllocAt(base, h, i, size).blocks)
            else
              Linked(hs1, AllocAt(base, h, i, size).blocks)
  {
    hide Chain, Aligned, Round16;
    HeaderReady(base, hs, h.blocks, i);
    hide Linked, SplitAssignments, AllocAt, Tiled;
    if Splits(h.blocks[i], size) {
      BlockFits(base, h.blocks, i);
      SplitNeverUnderflows(h.blocks[i], size);
      TakePart(base, h, hs, i, size, hs1, next);
    } else {
      TakeWhole(base, h, hs, i, size);
    }
  }

  lemma HeadersApart(base: nat, bs: seq<Block>, i: nat)
    requires Tiled(base, bs) && i < |bs|
    ensures forall a :: a in Addrs(bs) && a != bs[i].addr ==> a + HEADER <= bs[i].addr || bs[i].End() <= a
  {
    hide Chain;
    forall b | b in bs && b.addr != bs[i].addr ensures b.addr + HEADER <= bs[i].addr || bs[i].End() <= b.addr {
      var j :| 0 <= j < |bs| && bs[j] == b;
      if i < j {
        ChainOrder(base, bs, base + HEADER + ARENA, i, j);
      } else {
        ChainOrder(base, bs, base + HEADER + ARENA, j, i);
      }
    }
  }

  /** The field assignments by which a header absorbs its successor in the ring. */
  ghost function MergeAssignments(hs: map<nat, Header>, left: nat): map<nat, Header>
    requires left in hs && hs[left].next in hs && hs[hs[left].next].next in hs
  {
    BackLinked(Lengthened(hs, left), left) - {hs[left].next}
  }

  /** `left` takes over the length and the successor of the header behind it. */
  ghost function Lengthened(hs: map<nat, Header>, left: nat): (r: map<nat, Header>)
    requires left in hs && hs[left].next in hs
    ensures r.Keys == hs.Keys && r[left].next == hs[hs[left].next].next
  {
    var right := hs[left].next;
    hs[left := hs[left].(length := hs[left].length + hs[right].length + HEADER, next := hs[right].next)]
  }

  /** The successor points back. */
  ghost function BackLinked(hs: map<nat, Header>, left: nat): (r: map<nat, Header>)
    requires left in hs && hs[left].next in hs
    ensures r.Keys == hs.Keys
  {
    hs[hs[left].next := hs[hs[left].next].(prev := left)]
  }

  ghost predicate MergesRing(hs: map<nat, Header>, left: nat, hs': map<nat, Header>)
    requires left in hs && hs[left].next in hs
  {
    var right, succ := hs[left].next, hs[hs[left].next].next;
    && hs'.Keys == hs.Keys - {right}
    && left in hs'
    && hs'[left] == Header(succ, if succ == left then left else hs[left].prev,
                           hs[left].length + hs[right].length + HEADER, hs[left].free)
    && (succ in hs && succ != left ==> succ in hs' && hs'[succ] == hs[succ].(prev := left))
    && forall a :: a in hs && a != left && a != right && a != succ ==> hs'[a] == hs[a]
  }

  lemma AssignmentsMerge(hs: map<nat, Header>, left: nat)
    requires left in hs && hs[left].next in hs && hs[hs[left].next].next in hs
    requires hs[left].next != left && hs[hs[left].next].next != hs[left].next
    ensures MergesRing(hs, left, MergeAssignments(hs, left))
  {
  }

  lemma MergeLinkedAt(hs: map<nat, Header>, bs: seq<Block>, j: nat, bs': seq<Block>, k: nat, hs': map<nat, Header>)
    requires DistinctAddrs(bs) && Linked(hs, bs) && j + 1 < |bs| && k < |bs| - 1
    requires bs[j].addr in hs && hs[bs[j].addr].next == bs[j + 1].addr && bs[j + 1].addr in hs
    requires MergesRing(hs, bs[j].addr, hs')
    requires bs' == Merge(bs, j)
    ensures LinkedAt(hs', bs', k)
  {
    hide Addrs;
    var n := |bs|;
    assert LinkedAt(hs, bs, j) && LinkedAt(hs, bs, j + 1);
    assert bs'[j].addr == bs[j].addr;
    if k < j {
      assert LinkedAt(hs, bs, k);
      assert bs'[k] == bs[k] && bs'[k + 1].addr == bs[k + 1].addr;
      assert bs'[Prev(k, n - 1)].addr == if k == 0 && j + 2 == n then bs[j].addr else bs[Prev(k, n)].addr;
    } else if k > j {
      assert LinkedAt(hs, bs, k + 1);
      assert bs'[k] == bs[k + 1] && bs'[k - 1].addr == if k - 1 == j then bs[j].addr else bs[k].addr;
      assert bs'[Next(k, n - 1)].addr == bs[Next(k + 1, n)].addr;
    } else {
      assert bs'[Next(k, n - 1)].addr == bs[Next(k + 1, n)].addr;
      assert bs'[Prev(k, n - 1)].addr == if n == 2 then bs[j].addr
                                         else if k == 0 && j + 2 == n then bs[j].addr else bs[Prev(k, n)].addr;
    }
  }

  lemma MergeLinked(hs: map<nat, Header>, bs: seq<Block>, j: nat, bs': seq<Block>)
    requires DistinctAddrs(bs) && Linked(hs, bs) && j + 1 < |bs| && bs' == Merge(bs, j)
    ensures var left := bs[j].addr;
            && left in hs && hs[left].next in hs && hs[hs[left].next].next in hs
            && hs[left].next == bs[j + 1].addr
            && Linked(MergeAssignments(hs, left), bs')
  {
    hide Addrs;
    assert LinkedAt(hs, bs, j) && LinkedAt(hs, bs, j + 1) && LinkedAt(hs, bs, Next(j + 1, |bs|));
    var hs' := MergeAssignments(hs, bs[j].addr);
    AssignmentsMerge(hs, bs[j].addr);
    forall k | 0 <= k < |bs'| ensures LinkedAt(hs', bs', k) {
      MergeLinkedAt(hs, bs, j, bs', k, hs');
    }
    AddrsMerge(bs, j);
  }

  lemma AddrsMerge(bs: seq<Block>, j: nat)
    requires DistinctAddrs(bs) && j + 1 < |bs|
    ensures Addrs(Merge(bs, j)) == Addrs(bs) - {bs[j + 1].addr}
  {
  }

  /** No byte of a used block's payload belongs to a header or to a free block. */
  lemma PayloadClear(a: nat, bs: seq<Block>, b: nat, u: Block)
    requires Chain(a, bs, b) && u in Used(bs)
    ensures forall h :: h in Addrs(bs) ==> h + HEADER <= u.Payload() || u.End() <= h
    ensures forall f :: f in bs && f.free ==> f.End() <= u.addr || u.End() <= f.addr
    ensures a <= u.addr && u.End() <= b
  {
    hide Chain;
    ChainBounds(a, bs, b);
    var i :| 0 <= i < |bs| && bs[i] == u;
    forall f | f in bs && f != u ensures f.End() <= u.addr || u.End() <= f.addr {
      var j :| 0 <= j < |bs| && bs[j] == f;
      if j < i { ChainOrder(a, bs, b, j, i); } else { ChainOrder(a, bs, b, i, j); }
    }
  }

  lemma AddrsSplice(bs: seq<Block>, lo: nat, hi: nat, mid: seq<Block>)
    requires lo <= hi <= |bs|
    ensures Addrs(bs[..lo] + mid + bs[hi..]) == Addrs(bs[..lo]) + Addrs(mid) + Addrs(bs[hi..])
    ensures Addrs(bs) == Addrs(bs[..lo]) + Addrs(bs[lo..hi]) + Addrs(bs[hi..])
  {
  }

  class Heap12M {
    const layout: Layout
    const base: nat                     // &malloc_reserve.ent
    const memory: array<byte>           // the bytes of malloc_reserve
    var headers: map<nat, Header>       // the same bytes, read as headers
    var lastUsed: nat
    ghost var state: Heap

    /** The bytes of the arena hold the headers. */
    ghost predicate Encoded()
      reads this`headers, memory
    {
      InBand(layout, base, memory[..], headers)
    }

    ghost predicate Structure()
      reads this, memory
    {
      && 0 < base && base + HEADER + ARENA <= WORD64
      && memory.Length == HEADER + ARENA
      && Encoded()
      && Tiled(base, state.blocks)
      && Linked(headers, state.blocks)
    }

    /** Before the first call the one header is all zero. */
    ghost predicate Untouched()
      reads this, memory
    {
      && 0 < base && base + HEADER + ARENA <= WORD64
      && memory.Length == HEADER + ARENA
      && Encoded()
      && headers == map[base := Header(0, 0, 0, 0)]
      && lastUsed == base
      && state == Initial(base)
    }

    ghost predicate Valid()
      reads this, memory
    {
      && HeapBlocks.Valid(base, state)
      && (Untouched() || (Structure() && lastUsed == state.blocks[state.cursor].addr))
    }

    constructor (layout: Layout, base: nat)
      requires 0 < base && base + HEADER + ARENA <= WORD64
      ensures Valid() && state == Initial(base) && this.base == base && fresh(memory)
    {
      this.layout := layout;
      this.base := base;
      var zero := layout(Header(0, 0, 0, 0));
      memory := new byte[HEADER + ARENA](i requires 0 <= i < HEADER + ARENA => if i < HEADER then zero[i] else 0);
      headers := map[base := Header(0, 0, 0, 0)];
      lastUsed := base;
      state := Initial(base);
      new;
      InitialValid(base);
      assert memory[..][0..HEADER] == zero;
    }

    /** Byte `x` of the arena is not one of the header at `a`. */
    predicate Outside(x: nat, a: nat) { base + x < a || a + HEADER <= base + x }

    /** Writing a header in free space, or over itself, rewrites its 32 bytes and nothing else. */
    method Store(a: nat, h: Header)
      requires Encoded()
      requires base <= a && a - base + HEADER <= memory.Length
      requires forall b :: b in headers && b != a ==> b + HEADER <= a || a + HEADER <= b
      modifies this`headers, memory
      ensures headers == old(headers)[a := h]
      ensures forall x :: 0 <= x < memory.Length && Outside(x, a) ==> memory[x] == old(memory[x])
      ensures Encoded()
    {
      StoreKeepsOthers(layout, base, memory[..], headers, a, h);
      headers := headers[a := h];
      ghost var was := memory[..];
      var bs := layout(h);
      forall k | a - base <= k < a - base + HEADER {
        memory[k] := bs[k - (a - base)];
      }
      assert memory[..] == Overwritten(was, a - base, bs);
    }

    /** Assigning fields of a header that is already there. */
    method Update(a: nat, h: Header)
      requires Encoded() && a in headers
      modifies this`headers, memory
      ensures headers == old(headers)[a := h]
      ensures forall x :: 0 <= x < memory.Length && Outside(x, a) ==> memory[x] == old(memory[x])
      ensures Encoded()
    {
      Store(a, h);
    }

    /** A linked header's back pointer is never null, so `prev == nullptr` means "first call". */
    lemma LinkedPrev()
      requires Valid() && Structure()
      ensures lastUsed in headers && headers[lastUsed].prev != 0
    {
      hide Encoded, InBand, Chain;
      ChainBounds(base, state.blocks, base + HEADER + ARENA);
      assert LinkedAt(headers, state.blocks, state.cursor);
    }

    /** The first call turns the zero header into one free block linked to itself. */
    method Prepare()
      requires Valid()
      modifies this`headers, memory
      ensures Valid() && Structure()
      ensures forall x :: 0 <= x < memory.Length && IsPayload(state.blocks, x) ==> memory[x] == old(memory[x])
    {
      hide Chain;
      hide InBand, Encoded;
      if headers[lastUsed].prev == 0 {
        assert Untouched() by { if Structure() { LinkedPrev(); } }
        Update(lastUsed, headers[lastUsed].(prev := lastUsed, next := lastUsed));
        Update(lastUsed, headers[lastUsed].(length := ARENA));
        Update(lastUsed, headers[lastUsed].(free := 1));
        assert headers == map[base := Header(base, base, ARENA, 1)];
        InitialLinked(base);
      }
    }

    /** The search: around the ring from `last_used` to the first free block that is long enough.
        It terminates because some block fits. */
    method Find(size: nat) returns (cur: nat)
      requires Linked(headers, state.blocks) && state.cursor < |state.blocks|
      requires lastUsed == state.blocks[state.cursor].addr && CanFit(state.blocks, size)
      ensures cur == state.blocks[Chosen(state, size)].addr
    {
      cur := lastUsed;
      ghost var bs, c, n := state.blocks, state.cursor, |state.blocks|;
      ghost var d := 0;
      ghost var i: nat :| i < n && Fits(bs[i], size);
      ghost var far := RingReaches(c, i, n);
      while headers[cur].free == 0 || headers[cur].length < size
        invariant d <= far < n && cur == bs[RingAt(c, d, n)].addr
        invariant LinkedAt(headers, bs, RingAt(c, d, n))
        invariant forall e :: 0 <= e < d ==> !Fits(bs[RingAt(c, e, n)], size)
        decreases far - d
      {
        cur := headers[cur].next;
        d := d + 1;
        assert LinkedAt(headers, bs, RingAt(c, d, n));
      }
      assert FirstFit(bs, c, size, d);
    }

    /** The bytes of a block's payload. */
    ghost function Contents(b: Block): seq<byte>
      requires base <= b.addr && b.End() <= base + memory.Length
      reads memory
    {
      memory[b.Payload() - base..b.End() - base]
    }

    /** The branch of `malloc` that cuts the block at `cur` in two: the assignments to the headers. */
    method Split(cur: nat, next: nat)
      requires Encoded() && memory.Length == HEADER + ARENA
      requires cur in headers && headers[cur].next in headers && next !in headers
      requires base <= cur && cur + HEADER <= next
      requires next + HEADER <= cur + HEADER + headers[cur].length <= base + memory.Length
      requires forall b :: b in headers && b != cur ==> b + HEADER <= cur || next + HEADER <= b
      modifies this`headers, memory
      ensures Encoded()
      ensures headers == SplitAssignments(old(headers), cur, next)
      ensures forall x ::
                0 <= x < memory.Length && Outside(x, cur) && Outside(x, next) && Outside(x, old(headers)[cur].next) ==>
                  memory[x] == old(memory[x])
    {
      ghost var h0 := headers;
      hide InBand, Encoded, SplitsRing;
      Store(next, Header(0, 0, headers[cur].length - (next - cur), 1));
      ghost var h1 := h0[next := Header(0, 0, h0[cur].length - (next - cur), 1)];
      assert headers == h1;
      Update(cur, headers[cur].(length := next - cur - HEADER));
      ghost var h2 := h1[cur := h1[cur].(length := next - cur - HEADER)];
      assert headers == h2;
      Update(next, headers[next].(prev := cur, next := headers[cur].next));
      ghost var h3 := h2[next := h2[next].(prev := cur, next := h2[cur].next)];
      assert headers == h3;
      Update(headers[next].next, headers[headers[next].next].(prev := next));
      ghost var h4 := h3[h3[next].next := h3[h3[next].next].(prev := next)];
      assert headers == h4;
      Update(headers[next].prev, headers[headers[next].prev].(next := next));
      assert headers == h4[h4[next].prev := h4[h4[next].prev].(next := next)];
    }

    /** Byte `x` of the arena belongs to the payload of some used block of `bs`. */
    ghost predicate IsPayload(bs: seq<Block>, x: nat) {
      exists u :: u in Used(bs) && u.Payload() <= base + x < u.End()
    }

    /** Byte `x` lies in no header of `hs` and not between `lo` and `hi`. */
    ghost predicate Clear(x: nat, hs: map<nat, Header>, lo: nat, hi: nat) {
      (forall h :: h in hs ==> Outside(x, h)) && (base + x < lo || hi <= base + x)
    }

    lemma PayloadsClear(bs: seq<Block>, i: nat, hs: map<nat, Header>)
      requires Tiled(base, bs) && i < |bs| && bs[i].free && hs.Keys == Addrs(bs)
      ensures forall x :: IsPayload(bs, x) ==> Clear(x, hs, bs[i].addr, bs[i].End())
    {
      hide Chain;
      forall x | IsPayload(bs, x) ensures Clear(x, hs, bs[i].addr, bs[i].End()) {
        var u :| u in Used(bs) && u.Payload() <= base + x < u.End();
        PayloadClear(base, bs, base + HEADER + ARENA, u);
      }
    }

    lemma AllocCursor(h: Heap, i: nat, size: nat)
      requires HeapBlocks.Valid(base, h) && i < |h.blocks| && Fits(h.blocks[i], size)
      ensures var h' := AllocAt(base, h, i, size);
              h'.cursor < |h'.blocks| &&
              h'.blocks[h'.cursor].addr ==
                if Splits(h.blocks[i], size) then h.blocks[i].addr + HEADER + Round16(size) else h.blocks[h.cursor].addr
    {
    }

    /** The header writes of `malloc`, once the search has settled on the block at `cur`: they turn
        the ring into that of `bs`. */
    method Take(cur: nat, size: nat, ghost bs: seq<Block>)
      requires Encoded() && memory.Length == HEADER + ARENA
      requires cur in headers && base <= cur && cur + HEADER + headers[cur].length <= base + memory.Length
      requires forall b :: b in headers && b != cur ==> b + HEADER <= cur || cur + HEADER + headers[cur].length <= b
      requires var hs, next := headers[cur := headers[cur].(free := 0)], cur + Round16(size) + HEADER;
               if headers[cur].length >= size + HEADER then
                 && hs[cur].next in hs && next !in hs && next + HEADER <= cur + HEADER + headers[cur].length
                 && Linked(SplitAssignments(hs, cur, next), bs)
               else
                 Linked(hs, bs)
      modifies this`headers, this`lastUsed, memory
      ensures Encoded() && Linked(headers, bs)
      ensures lastUsed ==
              if old(headers)[cur].length >= size + HEADER then cur + Round16(size) + HEADER else old(lastUsed)
      ensures forall x :: 0 <= x < memory.Length && Clear(x, old(headers), cur, cur + HEADER + old(headers)[cur].length)
                ==> memory[x] == old(memory[x])
    {
      hide Encoded, InBand, Linked, SplitAssignments, SplitsRing, Round16;
      ghost var hs := headers[cur := headers[cur].(free := 0)];
      Update(cur, headers[cur].(free := 0));
      assert headers == hs;
      if headers[cur].length >= size + HEADER {
        var next := cur + Round16(size) + HEADER;
        Split(cur, next);
        lastUsed := next;
      }
    }

    /** `Take` at block `i` of the list. */
    method TakeBlock(cur: nat, size: nat, ghost i: nat)
      requires Structure() && HeapBlocks.Valid(base, state)
      requires i < |state.blocks| && Fits(state.blocks[i], size) && cur == state.blocks[i].addr
      modifies this`headers, this`lastUsed, memory
      ensures Encoded() && Linked(headers, AllocAt(base, state, i, size).blocks)
      ensures lastUsed == if Splits(state.blocks[i], size) then cur + Round16(size) + HEADER else old(lastUsed)
      ensures forall x :: 0 <= x < memory.Length && Clear(x, old(headers), cur, state.blocks[i].End()) ==>
              memory[x] == old(memory[x])
    {
      hide Encoded, InBand, Chain, Aligned, Round16, Linked, AllocAt, SplitAssignments, Clear, HeapBlocks.Valid,
           Tiled, CanFit;
      HeaderReady(base, headers, state.blocks, i);
      TakeReady(base, state, headers, i, size, headers[cur := headers[cur].(free := 0)], cur + Round16(size) + HEADER);
      Take(cur, size, AllocAt(base, state, i, size).blocks);
    }

    /** `malloc`. */
    method Malloc(size: nat) returns (rv: nat)
      requires Valid() && CanFit(state.blocks, size)
      modifies this`headers, this`lastUsed, this`state, memory
      ensures Valid() && Structure()
      ensures (state, rv) == HeapBlocks.Malloc(base, old(state), size)
      ensures lastUsed == state.blocks[state.cursor].addr
      ensures exists b :: b in Used(state.blocks) && b.Payload() == rv
                          && if |state.blocks| == |old(state.blocks)| then lastUsed == old(lastUsed)
                             else lastUsed == b.End() && state.blocks[state.cursor].free
      ensures forall x :: 0 <= x < memory.Length && IsPayload(old(state.blocks), x) ==> memory[x] == old(memory[x])
    {
      hide Encoded, InBand, Chain, Aligned, Round16;
      ghost var taken := MallocCursor(base, state, size);
      Prepare();
      var cur := Find(size);
      ghost var i := Chosen(state, size);
      AllocKeeps(base, state, i, size);
      AllocCursor(state, i, size);
      PayloadsClear(state.blocks, i, headers);
      TakeBlock(cur, size, i);
      state := AllocAt(base, state, i, size);
      rv := cur + HEADER;
    }

    /** A header absorbs its successor; `free` does this at most twice. The absorbed header is no
        header any more. */
    method Absorb(left: nat, ghost bs: seq<Block>, ghost j: nat)
      requires Encoded() && Linked(headers, bs) && DistinctAddrs(bs)
      requires j + 1 < |bs| && bs[j].addr == left
      modifies this`headers, memory
      ensures Encoded() && Linked(headers, Merge(bs, j)) && headers.Keys <= old(headers.Keys)
      ensures forall x :: 0 <= x < memory.Length && (forall h :: h in old(headers) ==> Outside(x, h)) ==>
              memory[x] == old(memory[x])
    {
      hide Encoded, InBand, Linked, MergeAssignments, DistinctAddrs;
      MergeLinked(headers, bs, j, Merge(bs, j));
      AbsorbWrites(left);
    }

    method AbsorbWrites(left: nat)
      requires Encoded()
      requires left in headers && headers[left].next in headers && headers[headers[left].next].next in headers
      modifies this`headers, memory
      ensures Encoded() && headers == MergeAssignments(old(headers), left) && headers.Keys <= old(headers.Keys)
      ensures forall x :: 0 <= x < memory.Length && (forall h :: h in old(headers) ==> Outside(x, h)) ==>
              memory[x] == old(memory[x])
    {
      hide Encoded, InBand, Outside;
      ghost var h0 := headers;
      var right := headers[left].next;
      Update(left, headers[left].(length := headers[left].length + headers[right].length + HEADER,
                                  next := headers[right].next));
      assert headers == Lengthened(h0, left);
      Update(headers[left].next, headers[headers[left].next].(prev := left));
      assert headers == BackLinked(Lengthened(h0, left), left);
      Forget(right);
    }

    /** The bytes of an absorbed header are payload from now on. */
    method Forget(a: nat)
      requires Encoded()
      modifies this`headers
      ensures Encoded() && headers == old(headers) - {a}
    {
      headers := headers - {a};
    }

    /** The first merge of `free`: with a free left neighbour that ends where this block starts. The
        ring's last block also precedes its first one, but does not end there. */
    method JoinLeft(cur: nat, ghost bs: seq<Block>, ghost i: nat) returns (cur': nat)
      requires Encoded() && Linked(headers, bs) && Tiled(base, bs) && DistinctAddrs(bs)
      requires i < |bs| && bs[i].addr == cur && bs[i].free
      modifies this`headers, memory
      ensures Encoded() && Linked(headers, MergeLeft(bs, i).0) && headers.Keys <= old(headers.Keys)
      ensures cur' == MergeLeft(bs, i).0[MergeLeft(bs, i).1].addr
      ensures forall x :: 0 <= x < memory.Length && (forall h :: h in old(headers) ==> Outside(x, h)) ==>
              memory[x] == old(memory[x])
    {
      hide Encoded, InBand, Chain, Aligned, Addrs, DistinctAddrs;
      cur' := cur;
      PrevReady(headers, bs, i);
      var prev := headers[cur].prev;
      if headers[prev].free != 0 && prev + headers[prev].length + HEADER == cur {
        Absorb(prev, bs, i - 1);
        cur' := prev;
      }
    }

    lemma PrevReady(hs: map<nat, Header>, bs: seq<Block>, i: nat)
      requires Linked(hs, bs) && Tiled(base, bs) && i < |bs|
      ensures bs[i].addr in hs && hs[bs[i].addr].prev == bs[Prev(i, |bs|)].addr && hs[bs[i].addr].prev in hs
      ensures var p := hs[hs[bs[i].addr].prev];
              (p.free != 0 && hs[bs[i].addr].prev + p.length + HEADER == bs[i].addr) <==> i > 0 && bs[i - 1].free
    {
      hide Chain, Aligned;
      assert LinkedAt(hs, bs, i) && LinkedAt(hs, bs, Prev(i, |bs|));
      BlockFits(base, bs, Prev(i, |bs|));
      if i > 0 {
        ChainOrder(base, bs, base + HEADER + ARENA, i - 1, i);
      } else {
        FirstAtBase(bs);
      }
    }

    lemma FirstAtBase(bs: seq<Block>)
      requires Tiled(base, bs)
      ensures bs[0].addr == base && bs[|bs| - 1].End() == base + HEADER + ARENA
    {
      ChainSplit(base, bs, |bs| - 1, base + HEADER + ARENA);
      assert bs[|bs| - 1..] == [bs[|bs| - 1]];
    }

    /** The second merge of `free`: with a free right neighbour. */
    method JoinRight(cur: nat, ghost bs: seq<Block>, ghost i: nat)
      requires Encoded() && Linked(headers, bs) && Tiled(base, bs) && DistinctAddrs(bs)
      requires i < |bs| && bs[i].addr == cur && bs[i].free
      modifies this`headers, memory
      ensures Encoded() && Linked(headers, MergeRight(bs, i))
      ensures forall x :: 0 <= x < memory.Length && (forall h :: h in old(headers) ==> Outside(x, h)) ==>
              memory[x] == old(memory[x])
    {
      hide Encoded, InBand, Chain, Aligned, Addrs, DistinctAddrs;
      NextReady(headers, bs, i);
      var next := headers[cur].next;
      if headers[next].free != 0 && cur + headers[cur].length + HEADER == next {
        Absorb(cur, bs, i);
      }
    }

    lemma NextReady(hs: map<nat, Header>, bs: seq<Block>, i: nat)
      requires Linked(hs, bs) && Tiled(base, bs) && i < |bs|
      ensures bs[i].addr in hs && hs[bs[i].addr].next in hs
      ensures var next := hs[bs[i].addr].next;
              (hs[next].free != 0 && bs[i].addr + hs[bs[i].addr].length + HEADER == next)
              <==> i + 1 < |bs| && bs[i + 1].free
    {
      hide Chain, Aligned;
      assert LinkedAt(hs, bs, i) && LinkedAt(hs, bs, Next(i, |bs|));
      if i + 1 < |bs| {
        ChainOrder(base, bs, base + HEADER + ARENA, i, i + 1);
      } else {
        FirstAtBase(bs);
      }
    }

    /** `free` of the pointer to block `i`, or of null. A block that is free already is reported and left
        alone (the code stops there); the flag of a linked header is never anything but 0 or 1, so `Corruption`
        is not reported. */
    method Free(p: nat, ghost i: nat) returns (outcome: FreeOutcome)
      requires Valid()
      requires p != 0 ==> Structure() && i < |state.blocks| && state.blocks[i].Payload() == p
      modifies this`headers, this`lastUsed, this`state, memory
      ensures Valid() && (p != 0 ==> Structure())
      ensures (outcome, state) == if p == 0 then (Done, old(state))
                                  else if old(state).blocks[i].free then (DoubleFree, old(state))
                                  else (Done, FreeAt(old(state), i))
      ensures if outcome == Done && p != 0 then
                && lastUsed == state.blocks[state.cursor].addr && state.blocks[state.cursor].free
                && lastUsed <= old(state).blocks[i].addr
                && old(state).blocks[i].End() <= state.blocks[state.cursor].End()
              else
                lastUsed == old(lastUsed)
      ensures forall x :: 0 <= x < memory.Length && IsPayload(old(state.blocks), x) ==> memory[x] == old(memory[x])
    {
      hide Encoded, InBand, Chain, Aligned, Addrs;
      if p == 0 { return Done; }
      var cur := p - HEADER;
      assert LinkedAt(headers, state.blocks, i);
      if headers[cur].free > 1 {
        return Corruption;
      } else if headers[cur].free != 0 {
        return DoubleFree;
      }
      outcome := Done;
      FreeCursor(base, state, i);
      Release(cur, i);
    }

    /** `free` of a used block. */
    method Release(cur: nat, ghost i: nat)
      requires Valid() && Structure() && i < |state.blocks| && !state.blocks[i].free && cur == state.blocks[i].addr
      modifies this`headers, this`lastUsed, this`state, memory
      ensures Valid() && Structure() && state == FreeAt(old(state), i)
      ensures lastUsed == state.blocks[state.cursor].addr
      ensures forall x :: 0 <= x < memory.Length && IsPayload(old(state.blocks), x) ==> memory[x] == old(memory[x])
    {
      hide Encoded, InBand, Chain, Aligned, Addrs, Linked, LinkedAt, Coalesced;
      ghost var bs1 := state.blocks[i := state.blocks[i].(free := true)];
      PayloadsApart(state.blocks, headers);
      HeaderReady(base, headers, state.blocks, i);
      ReleaseReady(base, headers, state.blocks, i, headers[cur := headers[cur].(free := 1)]);
      FreeKeeps(base, state, i);
      Update(cur, headers[cur].(free := 1));
      var c := JoinLeft(cur, bs1, i);
      MergeLeftReady(base, bs1, i);
      JoinRight(c, MergeLeft(bs1, i).0, MergeLeft(bs1, i).1);
      state := FreeAt(state, i);
      lastUsed := c;
    }

    /** Bytes outside all headers may change freely: the headers stay readable. */
    lemma PayloadWritesKeep(m: seq<byte>, m': seq<byte>)
      requires InBand(layout, base, m, headers) && |m'| == |m|
      requires forall x :: 0 <= x < |m| && (exists h :: h in headers && !Outside(x, h)) ==> m'[x] == m[x]
      ensures InBand(layout, base, m', headers)
    {
    }

    /** A caller writing into a block it holds: no header and no other block is affected. */
    method Poke(p: nat, k: nat, v: byte, ghost i: nat)
      requires Valid() && Structure() && IsLive(state, p, i) && k < state.blocks[i].length
      modifies memory
      ensures Valid() && Structure()
      ensures base <= p && p - base + k < memory.Length && memory[p - base + k] == v
      ensures forall x :: 0 <= x < memory.Length && x != p - base + k ==> memory[x] == old(memory[x])
    {
      hide Chain, Aligned;
      ghost var m := memory[..];
      PayloadClear(base, state.blocks, base + HEADER + ARENA, state.blocks[i]);
      memory[p - base + k] := v;
      PayloadWritesKeep(m, memory[..]);
    }

    /** `memcpy` from one held block into another that is at least as long. */
    method CopyPayload(dst: nat, src: nat, count: nat, ghost i: nat, ghost j: nat)
      requires Valid() && Structure() && IsLive(state, dst, i) && IsLive(state, src, j)
      requires count == state.blocks[j].length <= state.blocks[i].length
      modifies memory
      ensures Valid() && Structure()
      ensures base <= dst && base <= src && dst - base + count <= memory.Length && src - base + count <= memory.Length
      ensures memory[..] == Moved(old(memory[..]), dst - base, src - base, count)
    {
      hide Chain, Aligned, Linked, HeapBlocks.Valid, InBand, Moved, Outside;
      LiveInArena(i);
      LiveInArena(j);
      CopyKeeps(memory[..], dst - base, src - base, count);
      MemCpy(memory, dst - base, src - base, count);
    }

    /** A copy to a place outside all headers. */
    lemma CopyKeeps(m: seq<byte>, d: nat, s: nat, n: nat)
      requires InBand(layout, base, m, headers) && d + n <= |m| && s + n <= |m|
      requires forall x, h :: h in headers && d <= x < d + n ==> Outside(x, h)
      ensures InBand(layout, base, Moved(m, d, s, n), headers)
    {
      hide InBand, Outside;
      PayloadWritesKeep(m, Moved(m, d, s, n));
    }

    lemma LiveInArena(i: nat)
      requires Tiled(base, state.blocks) && Linked(headers, state.blocks) && i < |state.blocks| && !state.blocks[i].free
      ensures base <= state.blocks[i].addr && state.blocks[i].End() <= base + HEADER + ARENA
      ensures forall x, h :: h in headers && state.blocks[i].Payload() <= base + x < state.blocks[i].End() ==>
              Outside(x, h)
    {
      hide Chain, Aligned;
      PayloadClear(base, state.blocks, base + HEADER + ARENA, state.blocks[i]);
    }

    lemma PayloadsApart(bs: seq<Block>, hs: map<nat, Header>)
      requires Tiled(base, bs) && Linked(hs, bs)
      ensures forall x :: IsPayload(bs, x) ==> forall h :: h in hs ==> Outside(x, h)
    {
      hide Chain;
      forall x, h | IsPayload(bs, x) && h in hs ensures Outside(x, h) {
        var u :| u in Used(bs) && u.Payload() <= base + x < u.End();
        PayloadClear(base, bs, base + HEADER + ARENA, u);
      }
    }

    /** A held block is where it was after another allocation. */
    lemma StillLive(h: Heap, p: nat, i: nat, size: nat) returns (j: nat, k: nat, b: Block)
      requires HeapBlocks.Valid(base, h) && IsLive(h, p, i) && CanFit(h.blocks, size)
      ensures var (h', q) := HeapBlocks.Malloc(base, h, size);
              && HeapBlocks.Valid(base, h')
              && IsLive(h', p, j) && h'.blocks[j] == h.blocks[i]
              && IsLive(h', q, k) && h'.blocks[k] == b && b !in Used(h.blocks) && size <= b.length
              && Used(h'.blocks) == Used(h.blocks) + {b}
              && (b.End() <= h.blocks[i].addr || h.blocks[i].End() <= b.addr)
    {
      hide Chain, Aligned, Round16;
      b := MallocMeaning(base, h, size);
      var (h', q) := HeapBlocks.Malloc(base, h, size);
      assert h.blocks[i] in Used(h'.blocks) && b in Used(h'.blocks);
      j :| 0 <= j < |h'.blocks| && h'.blocks[j] == h.blocks[i];
      k :| 0 <= k < |h'.blocks| && h'.blocks[k] == b;
    }

    lemma StillLiveAfterFree(h: Heap, j: nat, k: nat) returns (l: nat)
      requires HeapBlocks.Valid(base, h) && j < |h.blocks| && k < |h.blocks| && h.blocks[j] != h.blocks[k]
      requires !h.blocks[j].free && !h.blocks[k].free
      ensures IsLive(FreeAt(h, j), h.blocks[k].Payload(), l) && FreeAt(h, j).blocks[l] == h.blocks[k]
    {
      hide Chain, Aligned;
      FreeKeeps(base, h, j);
      assert h.blocks[k] in Used(h.blocks);
      assert h.blocks[k] in Used(FreeAt(h, j).blocks);
      l :| 0 <= l < |FreeAt(h, j).blocks| && FreeAt(h, j).blocks[l] == h.blocks[k];
    }

    /** Byte `x` belongs to the payload of a used block other than the one at `p`. */
    ghost predicate IsOtherPayload(bs: seq<Block>, p: nat, x: nat) {
      exists u :: u in Used(bs) && u.Payload() != p && u.Payload() <= base + x < u.End()
    }

    /** The bytes after an allocation, which keeps the payloads of used blocks, and a copy from block
        `i` into the new block `b`. */
    lemma CopyBytes(h: Heap, i: nat, b: Block, p: int, q: int, n: nat, m0: seq<byte>, m1: seq<byte>, m2: seq<byte>)
      requires i < |h.blocks| && h.blocks[i] in Used(h.blocks)
      requires |m0| == |m1| == |m2| == HEADER + ARENA
      requires base <= h.blocks[i].addr && h.blocks[i].End() <= base + |m0| && base <= b.addr && b.End() <= base + |m0|
      requires n == h.blocks[i].length <= b.length && p == h.blocks[i].Payload() - base && q == b.Payload() - base
      requires forall u :: u in Used(h.blocks) ==> u.End() <= b.addr || b.End() <= u.addr
      requires forall x :: 0 <= x < |m0| && IsPayload(h.blocks, x) ==> m1[x] == m0[x]
      requires m2 == Moved(m1, q, p, n)
      ensures forall x :: q <= x < q + n ==> m2[x] == m0[x - q + p]
      ensures forall x :: 0 <= x < |m0| && IsPayload(h.blocks, x) ==> m2[x] == m0[x]
    {
    }

    /** The first half of the moving branch of `realloc`: allocate and copy. */
    method Duplicate(p: nat, size: nat, ghost i: nat, ghost j: nat, ghost k: nat, ghost b: Block) returns (rv: nat)
      requires Valid() && Structure() && p != 0 && IsLive(state, p, i) && state.blocks[i].length <= size
      requires CanFit(state.blocks, size)
      requires var (h, q) := HeapBlocks.Malloc(base, state, size);
               && HeapBlocks.Valid(base, h)
               && IsLive(h, p, j) && h.blocks[j] == state.blocks[i] && IsLive(h, q, k) && h.blocks[k] == b
               && size <= b.length && b !in Used(state.blocks) && Used(h.blocks) == Used(state.blocks) + {b}
      modifies this`headers, this`lastUsed, this`state, memory
      ensures Valid() && Structure() && (state, rv) == HeapBlocks.Malloc(base, old(state), size)
      ensures base <= rv && rv - base + old(state).blocks[i].length <= memory.Length
      ensures base <= p && p - base + old(state).blocks[i].length <= memory.Length
      ensures forall x :: rv - base <= x < rv - base + old(state).blocks[i].length ==>
              memory[x] == old(memory[x - rv + p])
      ensures forall x :: 0 <= x < memory.Length && IsPayload(old(state.blocks), x) ==> memory[x] == old(memory[x])
    {
      hide Encoded, InBand, Chain, Aligned, Linked, Round16, Coalesced, Addrs, Used, IsPayload, HeapBlocks.Malloc,
           CanFit, Tiled, Moved, HeapBlocks.Valid;
      ghost var h0, m0 := state, memory[..];
      rv := Malloc(size);
      ghost var m1 := memory[..];
      MoveApart(h0, state, i, j, k, b);
      HeaderReady(base, headers, state.blocks, j);
      CopyPayload(rv, p, headers[p - HEADER].length, k, j);
      CopyBytes(h0, i, b, p - base, rv - base, h0.blocks[i].length, m0, m1, memory[..]);
    }

    /** The moving branch of `realloc`: allocate, copy the old block, release it. */
    method Move(p: nat, size: nat, ghost i: nat) returns (rv: nat)
      requires Valid() && Structure() && p != 0 && IsLive(state, p, i) && state.blocks[i].length <= size
      requires CanFit(state.blocks, size)
      modifies this`headers, this`lastUsed, this`state, memory
      ensures Valid() && Structure()
      ensures var (h, q) := HeapBlocks.Malloc(base, old(state), size);
              rv == q && exists j: nat :: IsLive(h, p, j) && state == FreeAt(h, j)
      ensures exists l: nat :: IsLive(state, rv, l) && size <= state.blocks[l].length
      ensures base <= rv && rv - base + old(state).blocks[i].length <= memory.Length
      ensures base <= p && p - base + old(state).blocks[i].length <= memory.Length
      ensures forall x :: rv - base <= x < rv - base + old(state).blocks[i].length ==>
              memory[x] == old(memory[x - rv + p])
      ensures forall x :: 0 <= x < memory.Length && IsOtherPayload(old(state.blocks), p, x) ==>
              memory[x] == old(memory[x])
    {
      hide Encoded, InBand, Chain, Aligned, Linked, Round16, Coalesced, Addrs, Used, IsPayload, IsOtherPayload,
           HeapBlocks.Malloc, FreeAt, CanFit;
      ghost var h0 := state;
      ghost var j, k, b := StillLive(state, p, i, size);
      rv := Duplicate(p, size, i, j, k, b);
      MoveApart(h0, state, i, j, k, b);
      ghost var l := StillLiveAfterFree(state, j, k);
      var outcome := Free(p, j);
    }

    /** `realloc` of the pointer to block `i`, or of null: a block longer than asked for is kept;
        otherwise its bytes move to a new one. The first min(old length, new size) bytes survive. */
    method Realloc(p: nat, size: nat, ghost i: nat) returns (rv: nat)
      requires Valid()
      requires p != 0 ==> Structure() && IsLive(state, p, i)
      requires CanFit(state.blocks, size) || (p != 0 && state.blocks[i].length > size)
      modifies this`headers, this`lastUsed, this`state, memory
      ensures Valid() && Structure()
      ensures if p != 0 && old(state).blocks[i].length > size then
                rv == p && state == old(state)
              else
                var (h, q) := HeapBlocks.Malloc(base, old(state), size);
                rv == q && if p == 0 then state == h else exists j: nat :: IsLive(h, p, j) && state == FreeAt(h, j)
      ensures exists l: nat :: IsLive(state, rv, l) && size <= state.blocks[l].length
      ensures forall x :: p != 0 && rv - base <= x < rv - base + size && x < rv - base + old(state).blocks[i].length ==>
                          && 0 <= x < memory.Length && 0 <= x - rv + p < memory.Length
                          && memory[x] == old(memory[x - rv + p])
      ensures forall x :: 0 <= x < memory.Length && IsOtherPayload(old(state.blocks), p, x) ==>
              memory[x] == old(memory[x])
    {
      hide Encoded, InBand, Chain, Aligned, Linked, Round16, Coalesced, Addrs, Used, IsPayload, HeapBlocks.Malloc,
           FreeAt;
      if p != 0 {
        HeaderReady(base, headers, state.blocks, i);
        if headers[p - HEADER].length > size {
          return p;
        }
        rv := Move(p, size, i);
      } else {
        ghost var h0 := state;
        OthersArePayloads(h0.blocks);
        ghost var b := MallocMeaning(base, state, size);
        MallocLive(h0, size, b);
        rv := Malloc(size);
      }
    }

    lemma OthersArePayloads(bs: seq<Block>)
      ensures forall p, x :: IsOtherPayload(bs, p, x) ==> IsPayload(bs, x)
    {
    }

    lemma MallocLive(h: Heap, size: nat, b: Block)
      requires HeapBlocks.Valid(base, h) && CanFit(h.blocks, size)
      requires var (h', q) := HeapBlocks.Malloc(base, h, size);
               b in Used(h'.blocks) && b.Payload() == q && size <= b.length
      ensures var (h', q) := HeapBlocks.Malloc(base, h, size);
              exists l: nat :: IsLive(h', q, l) && size <= h'.blocks[l].length
    {
    }

    lemma MoveApart(h0: Heap, h1: Heap, i: nat, j: nat, k: nat, b: Block)
      requires HeapBlocks.Valid(base, h0) && HeapBlocks.Valid(base, h1)
      requires i < |h0.blocks| && j < |h1.blocks| && k < |h1.blocks|
      requires !h0.blocks[i].free && h1.blocks[j] == h0.blocks[i] && h1.blocks[k] == b && !b.free
      requires Used(h1.blocks) == Used(h0.blocks) + {b} && b !in Used(h0.blocks)
      ensures h0.blocks[i] in Used(h0.blocks)
      ensures base <= h0.blocks[i].addr && h0.blocks[i].End() <= base + HEADER + ARENA
      ensures base <= b.addr && b.End() <= base + HEADER + ARENA
      ensures forall u :: u in Used(h0.blocks) ==> u.End() <= b.addr || b.End() <= u.addr
      ensures forall p, x :: IsOtherPayload(h0.blocks, p, x) ==> IsPayload(h0.blocks, x)
      ensures forall x :: IsPayload(h0.blocks, x) || (b.Payload() <= base + x < b.End()) ==> IsPayload(h1.blocks, x)
    {
      hide Chain, Aligned;
      BlockFits(base, h0.blocks, i);
      BlockFits(base, h1.blocks, k);
      forall u | u in Used(h0.blocks) ensures u.End() <= b.addr || b.End() <= u.addr {
        assert u in Used(h1.blocks);
        var n :| 0 <= n < |h1.blocks| && h1.blocks[n] == u;
        if n < k {
          ChainOrder(base, h1.blocks, base + HEADER + ARENA, n, k);
        } else {
          ChainOrder(base, h1.blocks, base + HEADER + ARENA, k, n);
        }
      }
      assert b in Used(h1.blocks);
    }
  }

  lemma ReleaseReady(base: nat, hs: map<nat, Header>, bs: seq<Block>, i: nat, hs1: map<nat, Header>)
    requires Tiled(base, bs) && Linked(hs, bs) && i < |bs| && !bs[i].free
    requires bs[i].addr in hs && hs1 == hs[bs[i].addr := hs[bs[i].addr].(free := 1)]
    ensures var bs1 := bs[i := bs[i].(free := true)]; Tiled(base, bs1) && Linked(hs1, bs1) && DistinctAddrs(bs1)
  {
    hide Chain, Aligned, Addrs;
    ChainDistinct(base, bs, base + HEADER + ARENA);
    FlagLinked(hs, bs, i, true);
    MarkKeeps(base, bs, i);
  }

  lemma MergeLeftReady(base: nat, bs: seq<Block>, i: nat)
    requires Tiled(base, bs) && i < |bs| && bs[i].free
    ensures Tiled(base, MergeLeft(bs, i).0) && DistinctAddrs(MergeLeft(bs, i).0)
    ensures MergeLeft(bs, i).0[MergeLeft(bs, i).1].free
  {
    hide Chain, Aligned;
    if i > 0 && bs[i - 1].free { MergeKeeps(base, bs, i - 1); }
    ChainDistinct(base, MergeLeft(bs, i).0, base + HEADER + ARENA);
  }
}
