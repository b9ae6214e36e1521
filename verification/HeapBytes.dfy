/** The heap is in the bytes of its arena and nowhere else (kernel/src/mem.cpp): the typed view of the
    headers that KernelHeap works with, and the block list, are determined by the bytes. */
module HeapBytes {
  import opened Words
  import opened Numbers
  import opened HeapBlocks
  import opened KernelHeap

  predicate Fits64(h: Header) { h.next < WORD64 && h.prev < WORD64 && h.length < WORD64 && h.free < WORD64 }

  /** Two headers of 64-bit words never look the same. */
  ghost predicate Faithful(layout: Layout) {
    forall h, h' :: Fits64(h) && Fits64(h') && layout(h) == layout(h') ==> h == h'
  }

  /** A word of `n` bytes in memory, the lowest byte first. */
  function Word(w: nat, n: nat): (r: seq<byte>)
    ensures |r| == n
  {
    if n == 0 then [] else [w % 256] + Word(w / 256, n - 1)
  }

  function Bound(n: nat): (r: nat)
    ensures r > 0
  {
    if n == 0 then 1 else 256 * Bound(n - 1)
  }

  function FourWords(h: Header): (r: seq<byte>)
    ensures |r| == HEADER
  {
    Word(h.next, 8) + Word(h.prev, 8) + Word(h.length, 8) + Word(h.free, 8)
  }

  /** The kernel is built for little-endian machines; four such words are a faithful layout. */
  const LITTLE_ENDIAN: Layout := FourWords

  /** Byte `k` of a word has its bits from `8 * k` on. */
  lemma {:induction false} WordByte(w: nat, n: nat, k: nat)
    requires k < n
    ensures Word(w, n)[k] == w / Bound(k) % 256
    decreases k
  {
    if k > 0 {
      WordByte(w / 256, n - 1, k - 1);
      DivDiv(w, 256, Bound(k - 1));
    }
  }

  /** The header's words in the order of the structure: next, prev, length, free. */
  lemma HeaderBytes(h: Header, k: nat)
    requires k < 8
    ensures var m := LITTLE_ENDIAN(h);
            && m[k] == h.next / Bound(k) % 256 && m[8 + k] == h.prev / Bound(k) % 256
            && m[16 + k] == h.length / Bound(k) % 256 && m[24 + k] == h.free / Bound(k) % 256
  {
    WordByte(h.next, 8, k);
    WordByte(h.prev, 8, k);
    WordByte(h.length, 8, k);
    WordByte(h.free, 8, k);
    hide Word, Bound;
  }

  lemma {:induction false} WordDetermines(w: nat, v: nat, n: nat)
    requires w < Bound(n) && v < Bound(n) && Word(w, n) == Word(v, n)
    ensures w == v
    decreases n
  {
    if n > 0 {
      assert Word(w, n)[0] == w % 256 && Word(v, n)[0] == v % 256;
      assert Word(w, n)[1..] == Word(w / 256, n - 1) && Word(v, n)[1..] == Word(v / 256, n - 1);
      WordDetermines(w / 256, v / 256, n - 1);
    }
  }

  lemma EightBytes()
    ensures Bound(8) == WORD64
  {
    assert Bound(4) == 0x1_0000_0000;
  }

  lemma LittleEndianIsFaithful()
    ensures Faithful(LITTLE_ENDIAN)
  {
    EightBytes();
    hide Word, Bound;
    forall h, h' | Fits64(h) && Fits64(h') && LITTLE_ENDIAN(h) == LITTLE_ENDIAN(h') ensures h == h' {
      var m, m' := FourWords(h), FourWords(h');
      assert m[..8] == Word(h.next, 8) && m[8..16] == Word(h.prev, 8);
      assert m[16..24] == Word(h.length, 8) && m[24..] == Word(h.free, 8);
      assert m'[..8] == Word(h'.next, 8) && m'[8..16] == Word(h'.prev, 8);
      assert m'[16..24] == Word(h'.length, 8) && m'[24..] == Word(h'.free, 8);
      WordDetermines(h.next, h'.next, 8);
      WordDetermines(h.prev, h'.prev, 8);
      WordDetermines(h.length, h'.length, 8);
      WordDetermines(h.free, h'.free, 8);
    }
  }

  /** In a linked heap every word of every header fits 64 bits, because the arena does. */
  lemma HeadersFit(base: nat, hs: map<nat, Header>, bs: seq<Block>, a: nat)
    requires Tiled(base, bs) && Linked(hs, bs) && base + HEADER + ARENA <= WORD64 && a in hs
    ensures Fits64(hs[a])
  {
    hide Chain;
    ChainBounds(base, bs, base + HEADER + ARENA);
    var b :| b in bs && b.addr == a;
    var i :| 0 <= i < |bs| && bs[i] == b;
    assert LinkedAt(hs, bs, i);
  }

  /** At an address that both views call a header, they see the same header. */
  lemma SameHeader(layout: Layout, base: nat, m: seq<byte>, hs: map<nat, Header>, hs': map<nat, Header>, a: nat)
    requires Faithful(layout) && InBand(layout, base, m, hs) && InBand(layout, base, m, hs')
    requires a in hs && a in hs' && Fits64(hs[a]) && Fits64(hs'[a])
    ensures hs[a] == hs'[a]
  {
  }

  /** Length and flag of every block, as the headers say. */
  ghost predicate Said(hs: map<nat, Header>, bs: seq<Block>) {
    forall i :: 0 <= i < |bs| ==> SaidOf(hs, bs[i])
  }

  ghost predicate SaidOf(hs: map<nat, Header>, b: Block) {
    b.addr in hs && hs[b.addr].length == b.length && (hs[b.addr].free != 0 <==> b.free)
  }

  lemma LinkedSays(hs: map<nat, Header>, bs: seq<Block>)
    requires Linked(hs, bs)
    ensures Said(hs, bs)
  {
    forall i | 0 <= i < |bs| ensures SaidOf(hs, bs[i]) {
      assert LinkedAt(hs, bs, i);
    }
  }

  /** Two block lists over the same addresses, read from views that agree, are the same: each block says where
      the next one starts. */
  lemma {:induction false} SameBlocks(a: nat, x: seq<Block>, y: seq<Block>, b: nat, hs: map<nat, Header>,
      hs': map<nat, Header>)
    requires Chain(a, x, b) && Chain(a, y, b) && Said(hs, x) && Said(hs', y)
    requires forall k :: k in hs && k in hs' ==> hs[k] == hs'[k]
    ensures x == y
    decreases |x|
  {
    if x == [] {
      if y != [] { ChainBounds(y[0].End(), y[1..], b); }
    } else if y == [] {
      ChainBounds(x[0].End(), x[1..], b);
    } else {
      assert SaidOf(hs, x[0]) && SaidOf(hs', y[0]);
      assert x[0] == y[0];
      SameBlocks(x[0].End(), x[1..], y[1..], b, hs, hs');
      assert x == [x[0]] + x[1..] && y == [y[0]] + y[1..];
    }
  }

  /** The bytes of the arena determine the headers and the block list. */
  lemma BytesDetermine(layout: Layout, base: nat, m: seq<byte>, hs: map<nat, Header>, bs: seq<Block>,
      hs': map<nat, Header>, bs': seq<Block>)
    requires Faithful(layout) && base + HEADER + ARENA <= WORD64
    requires InBand(layout, base, m, hs) && Tiled(base, bs) && Linked(hs, bs)
    requires InBand(layout, base, m, hs') && Tiled(base, bs') && Linked(hs', bs')
    ensures bs == bs' && hs == hs'
  {
    hide Chain, InBand, Linked;
    forall k | k in hs && k in hs' ensures hs[k] == hs'[k] {
      HeadersFit(base, hs, bs, k);
      HeadersFit(base, hs', bs', k);
      SameHeader(layout, base, m, hs, hs', k);
    }
    LinkedSays(hs, bs);
    LinkedSays(hs', bs');
    SameBlocks(base, bs, bs', base + HEADER + ARENA, hs, hs');
    SameKeys(hs, hs', bs);
  }

  lemma SameKeys(hs: map<nat, Header>, hs': map<nat, Header>, bs: seq<Block>)
    requires Linked(hs, bs) && Linked(hs', bs)
    ensures hs.Keys == hs'.Keys
  {
  }
}
