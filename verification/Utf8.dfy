/** Strings of UTF-8 bytes (cpp/include/string): how code points are appended, counted and read back. */
module Utf8 {

  type CodePoint = bv32

  /** The most that four bytes hold; every code point of Unicode is at most 0x10FFFF. */
  const LIMIT: bv32 := 0x1F_FFFF

  // ---------------------------------------------------------------- one code point

  /** The bytes that `push_back` stores: the first of two, three or four, and the ones that follow. */
  function Lead2(c: CodePoint): bv8 { (((c >> 6) & 0x1F) | 0xC0) as bv8 }
  function Lead3(c: CodePoint): bv8 { (((c >> 12) & 0x0F) | 0xE0) as bv8 }
  function Lead4(c: CodePoint): bv8 { (((c >> 18) & 0x07) | 0xF0) as bv8 }
  function Tail12(c: CodePoint): bv8 { (((c >> 12) & 0x3F) | 0x80) as bv8 }
  function Tail6(c: CodePoint): bv8 { (((c >> 6) & 0x3F) | 0x80) as bv8 }
  function Tail0(c: CodePoint): bv8 { ((c & 0x3F) | 0x80) as bv8 }

  /** The UTF-8 form of a code point. */
  function Encode(c: CodePoint): (r: seq<bv8>)
    ensures 1 <= |r| <= 4
  {
    if c <= 0x7F then [c as bv8]
    else if c <= 0x7FF then [Lead2(c), Tail0(c)]
    else if c <= 0xFFFF then [Lead3(c), Tail6(c), Tail0(c)]
    else [Lead4(c), Tail12(c), Tail6(c), Tail0(c)]
  }

  /** A byte that is not the first of its code point. */
  predicate Continuation(b: bv8) { b & 0xC0 == 0x80 }

  /** How many bytes `operator*` looks at. */
  function Width(b: bv8): nat { if b < 0x80 then 1 else if b < 0xE0 then 2 else if b < 0xF0 then 3 else 4 }

  function Join2(b0: bv8, b1: bv8): CodePoint {
    ((b0 as bv32 & 0x1F) << 6) | (b1 as bv32 & 0x3F)
  }

  function Join3(b0: bv8, b1: bv8, b2: bv8): CodePoint {
    ((b0 as bv32 & 0x0F) << 12) | ((b1 as bv32 & 0x3F) << 6) | (b2 as bv32 & 0x3F)
  }

  function Join4(b0: bv8, b1: bv8, b2: bv8, b3: bv8): CodePoint {
    ((b0 as bv32 & 0x07) << 18) | ((b1 as bv32 & 0x3F) << 12) | ((b2 as bv32 & 0x3F) << 6) | (b3 as bv32 & 0x3F)
  }

  /** `operator*`, on the bytes that the iterator reads from offset `o` on. */
  function Decode(bs: seq<bv8>, o: nat): CodePoint
    requires o < |bs| && o + Width(bs[o]) <= |bs|
  {
    if bs[o] < 0x80 then bs[o] as bv32
    else if bs[o] < 0xE0 then Join2(bs[o], bs[o + 1])
    else if bs[o] < 0xF0 then Join3(bs[o], bs[o + 1], bs[o + 2])
    else Join4(bs[o], bs[o + 1], bs[o + 2], bs[o + 3])
  }

  /** The bits come back together, for each number of bytes. */
  lemma OneByte(c: CodePoint)
    requires c <= 0x7F
    ensures Encode(c) == [c as bv8] && (c as bv8) as bv32 == c && c as bv8 < 0x80 && !Continuation(c as bv8)
  {
  }

  lemma TwoBytes(c: CodePoint)
    requires 0x7F < c <= 0x7FF
    ensures var e := Encode(c);
            |e| == 2 && 0xC0 <= e[0] < 0xE0 && Continuation(e[1]) && !Continuation(e[0]) && Join2(e[0], e[1]) == c
  {
  }

  lemma ThreeBytes(c: CodePoint)
    requires 0x7FF < c <= 0xFFFF
    ensures var e := Encode(c);
            && |e| == 3 && 0xE0 <= e[0] < 0xF0 && !Continuation(e[0]) && Continuation(e[1]) && Continuation(e[2])
            && Join3(e[0], e[1], e[2]) == c
  {
    var b0, b1, b2 := Lead3(c), Tail6(c), Tail0(c);
    assert 0xE0 <= b0 < 0xF0 && Continuation(b1) && Continuation(b2) && !Continuation(b0) && Join3(b0, b1, b2) == c;
  }

  lemma FourBytes(c: CodePoint)
    requires 0xFFFF < c <= LIMIT
    ensures var e := Encode(c);
            && |e| == 4 && 0xF0 <= e[0] && !Continuation(e[0])
            && Continuation(e[1]) && Continuation(e[2]) && Continuation(e[3])
            && Join4(e[0], e[1], e[2], e[3]) == c
  {
    hide Join4, Continuation, Lead4, Tail12, Tail6, Tail0;
    FourBits(c);
  }

  lemma FourBits(c: CodePoint)
    requires 0xFFFF < c <= LIMIT
    ensures var b0, b1, b2, b3 := Lead4(c), Tail12(c), Tail6(c), Tail0(c);
            && 0xF0 <= b0 && !Continuation(b0) && Continuation(b1) && Continuation(b2) && Continuation(b3)
            && Join4(b0, b1, b2, b3) == c
  {
  }

  /** The table of section 3 of RFC 3629: the marks of the first byte tell the number of bytes, the other bytes
      carry the mark 10, and the remaining bits, first byte first, are the bits of the code point. */
  predicate IsUtf8(e: seq<bv8>, c: CodePoint) {
    if c <= 0x7F then |e| == 1 && e[0] as bv32 == c
    else if c <= 0x7FF then |e| == 2 && Holds2(e[0], e[1], c)
    else if c <= 0xFFFF then |e| == 3 && Holds3(e[0], e[1], e[2], c)
    else |e| == 4 && Holds4(e[0], e[1], e[2], e[3], c)
  }

  predicate Holds2(b0: bv8, b1: bv8, c: CodePoint) {
    && b0 & 0xE0 == 0xC0 && b1 & 0xC0 == 0x80
    && c == ((b0 & 0x1F) as bv32 << 6) | (b1 & 0x3F) as bv32
  }

  predicate Holds3(b0: bv8, b1: bv8, b2: bv8, c: CodePoint) {
    && b0 & 0xF0 == 0xE0 && b1 & 0xC0 == 0x80 && b2 & 0xC0 == 0x80
    && c == ((b0 & 0x0F) as bv32 << 12) | ((b1 & 0x3F) as bv32 << 6) | (b2 & 0x3F) as bv32
  }

  predicate Holds4(b0: bv8, b1: bv8, b2: bv8, b3: bv8, c: CodePoint) {
    && b0 & 0xF8 == 0xF0 && b1 & 0xC0 == 0x80 && b2 & 0xC0 == 0x80 && b3 & 0xC0 == 0x80
    && c == ((b0 & 0x07) as bv32 << 18) | ((b1 & 0x3F) as bv32 << 12) | ((b2 & 0x3F) as bv32 << 6) | (b3 & 0x3F) as bv32
  }

  lemma Bits2(c: CodePoint)
    requires 0x7F < c <= 0x7FF
    ensures Holds2(Lead2(c), Tail0(c), c)
  {
  }

  lemma Bits3(c: CodePoint)
    requires 0x7FF < c <= 0xFFFF
    ensures Holds3(Lead3(c), Tail6(c), Tail0(c), c)
  {
  }

  lemma Bits4(c: CodePoint)
    requires 0xFFFF < c <= LIMIT
    ensures Holds4(Lead4(c), Tail12(c), Tail6(c), Tail0(c), c)
  {
  }

  /** What is stored for a code point is its UTF-8 form. */
  lemma EncodesUtf8(c: CodePoint)
    requires c <= LIMIT
    ensures IsUtf8(Encode(c), c)
  {
    hide Holds2, Holds3, Holds4, Lead2, Lead3, Lead4, Tail12, Tail6, Tail0;
    if c <= 0x7F { OneByte(c); }
    else if c <= 0x7FF { Bits2(c); }
    else if c <= 0xFFFF { Bits3(c); }
    else { Bits4(c); }
  }

  /** Reading back what was appended, wherever it lies. */
  lemma DecodeUndoesEncode(c: CodePoint, before: seq<bv8>, after: seq<bv8>)
    requires c <= LIMIT
    ensures var bs, o := before + Encode(c) + after, |before|;
            && Width(bs[o]) == |Encode(c)| && Decode(bs, o) == c
            && !Continuation(bs[o]) && forall i :: o < i < o + |Encode(c)| ==> Continuation(bs[i])
  {
    hide Encode, Join2, Join3, Join4, Continuation;
    var bs, o, e := before + Encode(c) + after, |before|, Encode(c);
    if c <= 0x7F { OneByte(c); }
    else if c <= 0x7FF { TwoBytes(c); }
    else if c <= 0xFFFF { ThreeBytes(c); }
    else { FourBytes(c); }
    assert forall i :: 0 <= i < |e| ==> bs[o + i] == e[i];
    assert forall i :: o < i < o + |e| ==> bs[i] == e[i - o];
  }

  // ---------------------------------------------------------------- sequences of code points

  /** The bytes after appending the code points one by one. */
  function EncodeAll(cs: seq<CodePoint>): seq<bv8> {
    if cs == [] then [] else EncodeAll(cs[..|cs| - 1]) + Encode(cs[|cs| - 1])
  }

  /** Where code point `k` starts. */
  function Offset(cs: seq<CodePoint>, k: nat): nat
    requires k <= |cs|
  {
    |EncodeAll(cs[..k])|
  }

  predicate AllFit(cs: seq<CodePoint>) { forall k :: 0 <= k < |cs| ==> cs[k] <= LIMIT }

  /** The bytes split at every code point. */
  lemma {:induction false} Around(cs: seq<CodePoint>, k: nat) returns (after: seq<bv8>)
    requires k < |cs|
    ensures EncodeAll(cs) == EncodeAll(cs[..k]) + Encode(cs[k]) + after
    ensures EncodeAll(cs[..k + 1]) == EncodeAll(cs[..k]) + Encode(cs[k])
    ensures |after| > 0 ==> k + 1 < |cs|
    decreases |cs|
  {
    hide Encode;
    var n := |cs| - 1;
    assert cs[..k + 1][..k] == cs[..k];
    if k == n {
      after := [];
      assert cs[..k + 1] == cs;
    } else {
      var rest := Around(cs[..n], k);
      assert cs[..n][..k] == cs[..k];
      after := rest + Encode(cs[n]);
    }
  }

  /** `++` and `--` skip continuation bytes. */
  function Skip(v: seq<bv8>, o: nat): nat
    requires o <= |v|
    decreases |v| - o
  {
    if o < |v| && Continuation(v[o]) then Skip(v, o + 1) else o
  }

  function SkipBack(v: seq<bv8>, o: nat): (r: nat)
    requires o < |v|
    ensures r <= o
  {
    if o > 0 && Continuation(v[o]) then SkipBack(v, o - 1) else o
  }

  function Next(v: seq<bv8>, o: nat): nat
    requires o < |v|
  {
    Skip(v, o + 1)
  }

  function Prev(v: seq<bv8>, o: nat): nat
    requires 0 < o <= |v|
  {
    SkipBack(v, o - 1)
  }

  lemma {:induction false} SkipTo(v: seq<bv8>, o: nat, e: nat)
    requires o <= e < |v| && !Continuation(v[e]) && forall i :: o <= i < e ==> Continuation(v[i])
    ensures Skip(v, o) == e
    decreases e - o
  {
    if o < e {
      SkipTo(v, o + 1, e);
    }
  }

  lemma {:induction false} SkipBackTo(v: seq<bv8>, s: nat, o: nat)
    requires s <= o < |v| && !Continuation(v[s]) && forall i :: s < i <= o ==> Continuation(v[i])
    ensures SkipBack(v, o) == s
    decreases o
  {
    if s < o {
      SkipBackTo(v, s, o - 1);
    }
  }

  /** What an iterator reads of a string on the heap: the bytes and the terminator. */
  function Terminated(cs: seq<CodePoint>): seq<bv8> { EncodeAll(cs) + [0] }

  /** At the start of code point `k`: its first byte, its value, and only continuation bytes up to the next. */
  lemma CodePointAt(cs: seq<CodePoint>, k: nat)
    requires k < |cs| && AllFit(cs)
    ensures var v, o, e := Terminated(cs), Offset(cs, k), Offset(cs, k + 1);
            && o < e <= |EncodeAll(cs)|
            && o + Width(v[o]) == e && Decode(v, o) == cs[k]
            && !Continuation(v[o]) && forall i :: o < i < e ==> Continuation(v[i])
    ensures k + 1 == |cs| ==> Offset(cs, k + 1) == |EncodeAll(cs)|
  {
    hide Encode, Decode, Continuation, Width;
    var before := EncodeAll(cs[..k]);
    var after := Around(cs, k);
    DecodeUndoesEncode(cs[k], before, after + [0]);
    assert Terminated(cs) == before + Encode(cs[k]) + (after + [0]);
    if k + 1 == |cs| { assert cs[..k + 1] == cs; }
  }

  /** No code point starts with a continuation byte, and neither does the terminator look like one. */
  lemma StartsClean(cs: seq<CodePoint>, k: nat)
    requires k <= |cs| && AllFit(cs)
    ensures Offset(cs, k) < |Terminated(cs)| && !Continuation(Terminated(cs)[Offset(cs, k)])
  {
    if k < |cs| {
      hide Decode;
      CodePointAt(cs, k);
    } else {
      assert cs[..k] == cs;
    }
  }

  /** `*` yields the code points, `++` moves to the next one and `--` undoes it. */
  lemma Iterates(cs: seq<CodePoint>, k: nat)
    requires k < |cs| && AllFit(cs)
    ensures var v, o, e := Terminated(cs), Offset(cs, k), Offset(cs, k + 1);
            && o < e < |v| && o + Width(v[o]) <= |v|
            && Decode(v, o) == cs[k] && Next(v, o) == e && Prev(v, e) == o
  {
    hide Encode, Decode, Continuation, Width, EncodeAll;
    var v, o, e := Terminated(cs), Offset(cs, k), Offset(cs, k + 1);
    CodePointAt(cs, k);
    StartsClean(cs, k + 1);
    SkipTo(v, o + 1, e);
    SkipBackTo(v, o, e - 1);
  }

  /** `length`: the bytes that start a code point. */
  function Leads(bs: seq<bv8>): nat {
    if bs == [] then 0 else Leads(bs[..|bs| - 1]) + if Continuation(bs[|bs| - 1]) then 0 else 1
  }

  lemma {:induction false} LeadsOfSum(a: seq<bv8>, b: seq<bv8>)
    ensures Leads(a + b) == Leads(a) + Leads(b)
    decreases |b|
  {
    hide Continuation;
    if b == [] {
      assert a + b == a;
    } else {
      var n := |b| - 1;
      assert (a + b)[..|a| + n] == a + b[..n];
      LeadsOfSum(a, b[..n]);
    }
  }

  lemma OneLead(c: CodePoint)
    requires c <= LIMIT
    ensures Leads(Encode(c)) == 1
  {
    hide Continuation, Encode;
    var e := Encode(c);
    DecodeUndoesEncode(c, [], []);
    assert [] + e + [] == e;
    FirstOnly(e);
  }

  lemma {:induction false} FirstOnly(e: seq<bv8>)
    requires e != [] && !Continuation(e[0]) && forall i :: 0 < i < |e| ==> Continuation(e[i])
    ensures Leads(e) == 1
    decreases |e|
  {
    if |e| == 1 {
      assert Leads(e[..0]) == 0;
    } else {
      FirstOnly(e[..|e| - 1]);
    }
  }

  /** `length` counts the code points. */
  lemma {:induction false} LengthCounts(cs: seq<CodePoint>)
    requires AllFit(cs)
    ensures Leads(EncodeAll(cs)) == |cs|
    decreases |cs|
  {
    hide Encode, Continuation;
    if cs != [] {
      var n := |cs| - 1;
      LengthCounts(cs[..n]);
      OneLead(cs[n]);
      LeadsOfSum(EncodeAll(cs[..n]), Encode(cs[n]));
    }
  }

  lemma NextOffset(cs: seq<CodePoint>, k: nat)
    requires k < |cs|
    ensures Offset(cs, k) + |Encode(cs[k])| == Offset(cs, k + 1) <= |EncodeAll(cs)|
    ensures cs[..k + 1] == cs[..k] + [cs[k]]
  {
    hide Encode;
    var after := Around(cs, k);
  }

  lemma Ends(cs: seq<CodePoint>)
    ensures Offset(cs, 0) == 0 && cs[..|cs|] == cs && Offset(cs, |cs|) == |EncodeAll(cs)|
  {
  }

  // ---------------------------------------------------------------- the string class

  const LOCAL: nat := 30               // how much a string holds inside itself

  /** What `push_back` asks for when the capacity is not enough, and what `reserve` does: it makes the new
      capacity the size as well. */
  function Grown(capacity: nat): nat { capacity + capacity / (if capacity >= 240 then 2 else 1) }

  datatype Extent = Extent(size: nat, capacity: nat)

  function Reserved(e: Extent, newSize: nat): Extent {
    if newSize <= e.capacity then e else Extent(newSize, newSize)
  }

  /** The string's extent when `push_back` of `added` bytes starts to store. */
  function Prepared(e: Extent, added: nat): Extent {
    if e.capacity < e.size + added then Reserved(e, Grown(e.capacity)) else e
  }

  /** The bytes and the terminator that `push_back` stores are inside the storage exactly if they were within
      the capacity to begin with; growing never makes room. */
  lemma FitsExactly(e: Extent, added: nat)
    requires e.size <= e.capacity && e.capacity >= LOCAL && 1 <= added <= 4
    ensures Prepared(e, added).size + added <= Prepared(e, added).capacity <==> e.size + added <= e.capacity
    ensures var grown := if e.capacity < 240 then 2 * e.capacity else e.capacity + e.capacity / 2;
            Prepared(e, added) == if e.size + added <= e.capacity then e else Extent(grown, grown)
  {
  }

  class String {
    const localStorage: array<bv8>     // byte 0 is the size of a local string, 127 otherwise
    var storage: array<bv8>            // the fields of a string on the heap
    var heapSize: nat
    var heapCapacity: nat
    ghost var codePoints: seq<CodePoint>

    predicate IsLocal()
      requires localStorage.Length > 0
      reads localStorage
    {
      localStorage[0] <= 30
    }

    function Size(): nat
      requires localStorage.Length > 0
      reads this, localStorage
    {
      if IsLocal() then localStorage[0] as nat else heapSize
    }

    function Capacity(): nat
      requires localStorage.Length > 0
      reads this, localStorage
    {
      if IsLocal() then LOCAL else heapCapacity
    }

    /** What `getByte` returns for the offsets 0, 1, 2, ...: of a local string, the storage from its size byte on. */
    function View(): seq<bv8>
      requires localStorage.Length > 0 && (!IsLocal() ==> heapSize < storage.Length)
      reads this, localStorage, storage
    {
      if IsLocal() then localStorage[..] else storage[..heapSize + 1]
    }

    /** The bytes that `data` points to, without the terminator. */
    function Data(): seq<bv8>
      requires Sized()
      reads this, localStorage, storage
    {
      if IsLocal() then localStorage[1..1 + Size()] else storage[..heapSize]
    }

    predicate Sized()
      reads this, localStorage, storage
    {
      && localStorage.Length == 32 && localStorage != storage
      && (!IsLocal() ==> heapSize <= heapCapacity && storage.Length == heapCapacity + 1 && storage[heapSize] == 0)
      && (IsLocal() ==> localStorage[0] as nat <= LOCAL && localStorage[1 + localStorage[0] as nat] == 0)
    }

    ghost predicate Valid()
      reads this, localStorage, storage
    {
      Sized() && Data() == EncodeAll(codePoints)
    }

    /** The empty string, which is local. */
    constructor ()
      ensures Valid() && codePoints == [] && IsLocal() && fresh(localStorage) && fresh(storage)
    {
      localStorage := new bv8[32](_ => 0);
      storage := new bv8[0];
      heapSize, heapCapacity, codePoints := 0, 0, [];
    }

    /** `assign` to a fresh string: more than 30 bytes go to the heap, with no room to spare. */
    constructor FromBytes(bytes: seq<bv8>, ghost cs: seq<CodePoint>)
      requires bytes == EncodeAll(cs)
      ensures Valid() && codePoints == cs && IsLocal() == (|bytes| <= LOCAL) && Size() == |bytes|
      ensures fresh(localStorage) && fresh(storage)
    {
      hide EncodeAll;
      var local, heap;
      if |bytes| <= LOCAL {
        local := LocalStorage(bytes);
        heap := new bv8[1](_ => 0);
      } else {
        local := new bv8[32](_ => 127);
        heap := HeapStorage(bytes);
      }
      localStorage, storage := local, heap;
      heapSize, heapCapacity, codePoints := |bytes|, |bytes|, cs;
    }

    /** `clear`: the storage, and so the capacity, stays. */
    method Clear()
      requires Valid()
      modifies this`heapSize, this`codePoints, localStorage, storage
      ensures Valid() && codePoints == [] && Size() == 0 && IsLocal() == old(IsLocal())
      ensures Capacity() == old(Capacity()) && storage == old(storage)
    {
      if IsLocal() {
        localStorage[1] := 0;
        localStorage[0] := 0;
      } else {
        storage[0] := 0;
        heapSize := 0;
      }
      codePoints := [];
    }

    /** What iteration needs: the string is on the heap, and its code points are ones that four bytes hold. */
    ghost predicate Iterable()
      reads this, localStorage, storage
    {
      Valid() && !IsLocal() && AllFit(codePoints)
    }

    lemma ViewIsTerminated()
      requires Valid() && !IsLocal()
      ensures View() == Terminated(codePoints) && Size() == |EncodeAll(codePoints)|
    {
    }

    /** `push_back`, when the code point's bytes fit. */
    method PushBack(wchar: CodePoint)
      requires Valid() && Size() + |Encode(wchar)| <= Capacity()
      modifies this`heapSize, this`codePoints, localStorage, storage
      ensures Valid() && codePoints == old(codePoints) + [wchar]
      ensures Size() == old(Size()) + |Encode(wchar)| && IsLocal() == old(IsLocal()) && Capacity() == old(Capacity())
      ensures storage == old(storage)
    {
      hide Encode, EncodeAll;
      var bytesAdded := if wchar <= 0x7F then 1 else if wchar <= 0x7FF then 2 else if wchar <= 0xFFFF then 3 else 4;
      EncodedSize(wchar);
      OneMore(codePoints, wchar);
      if IsLocal() { PushLocal(wchar, bytesAdded); } else { PushHeap(wchar, bytesAdded); }
      codePoints := codePoints + [wchar];
    }

    /** The stores of `push_back` and its `setSize`, inside the string. */
    method PushLocal(wchar: CodePoint, bytesAdded: nat)
      requires Sized() && IsLocal() && bytesAdded == |Encode(wchar)| && Size() + bytesAdded <= LOCAL
      modifies localStorage
      ensures Sized() && IsLocal() && Size() == old(Size()) + bytesAdded
      ensures Data() == old(Data()) + Encode(wchar)
    {
      hide Encode;
      var size := Size();
      ghost var before := localStorage[..];
      PutBytes(localStorage, 1 + size, wchar, bytesAdded);
      StoredSlice(before, localStorage[..], 1 + size, Encode(wchar), 1);
      SmallSize(size + bytesAdded);
      ghost var data := localStorage[1..1 + size + bytesAdded];
      localStorage[0] := (size + bytesAdded) as bv8;
      assert localStorage[1..1 + size + bytesAdded] == data;
    }

    /** The same on the heap. */
    method PushHeap(wchar: CodePoint, bytesAdded: nat)
      requires Sized() && !IsLocal() && bytesAdded == |Encode(wchar)| && heapSize + bytesAdded <= heapCapacity
      modifies this`heapSize, storage
      ensures Sized() && !IsLocal() && Size() == old(Size()) + bytesAdded
      ensures Data() == old(Data()) + Encode(wchar)
    {
      hide Encode;
      ghost var before := storage[..];
      PutBytes(storage, heapSize, wchar, bytesAdded);
      StoredSlice(before, storage[..], heapSize, Encode(wchar), 0);
      heapSize := heapSize + bytesAdded;
    }

    /** `length` */
    method Length() returns (len: nat)
      requires Valid() && AllFit(codePoints)
      ensures len == |codePoints|
    {
      hide EncodeAll;
      LengthCounts(codePoints);
      var data := Data();
      len := 0;
      for offset := 0 to Size()
        invariant len == Leads(data[..offset])
      {
        assert data[..offset + 1][..offset] == data[..offset];
        if data[offset] & 0xC0 != 0x80 { len := len + 1; }
      }
      assert data[..Size()] == data;
    }
  }

  /** The storage of a local string. */
  method LocalStorage(bytes: seq<bv8>) returns (local: array<bv8>)
    requires |bytes| <= LOCAL
    ensures fresh(local) && local.Length == 32 && local[0] <= 30 && local[0] as nat == |bytes|
    ensures local[1..1 + |bytes|] == bytes && local[1 + |bytes|] == 0
  {
    local := new bv8[32](_ => 0);
    SmallSize(|bytes|);
    Fill(local, 1, bytes);
    ghost var filled := local[1..1 + |bytes|];
    local[0] := |bytes| as bv8;
    assert local[1..1 + |bytes|] == filled;
  }

  /** The storage of a string on the heap. */
  method HeapStorage(bytes: seq<bv8>) returns (heap: array<bv8>)
    ensures fresh(heap) && heap.Length == |bytes| + 1 && heap[..|bytes|] == bytes && heap[|bytes|] == 0
  {
    heap := new bv8[|bytes| + 1](_ => 0);
    Fill(heap, 0, bytes);
    assert heap[0..|bytes|] == heap[..|bytes|];
  }

  /** The copy in `assign`, and the terminator. */
  method Fill(target: array<bv8>, at: nat, bytes: seq<bv8>)
    requires at + |bytes| < target.Length
    modifies target
    ensures target[at..at + |bytes|] == bytes && target[at + |bytes|] == 0
    ensures forall i :: 0 <= i < at ==> target[i] == old(target[i])
  {
    for i := 0 to |bytes|
      invariant target[at..at + i] == bytes[..i] && forall k :: 0 <= k < at ==> target[k] == old(target[k])
    {
      target[at + i] := bytes[i];
    }
    target[at + |bytes|] := 0;
  }

  lemma EncodedSize(c: CodePoint)
    ensures |Encode(c)| == if c <= 0x7F then 1 else if c <= 0x7FF then 2 else if c <= 0xFFFF then 3 else 4
  {
  }

  lemma OneMore(cs: seq<CodePoint>, c: CodePoint)
    ensures EncodeAll(cs + [c]) == EncodeAll(cs) + Encode(c)
  {
  }

  lemma SmallSize(n: nat)
    requires n <= LOCAL
    ensures (n as bv8) as nat == n && n as bv8 <= 30
  {
  }

  /** `s'` is `s` with the bytes `e` and a terminator written at `at`. */
  ghost predicate Stored(s: seq<bv8>, s': seq<bv8>, at: nat, e: seq<bv8>) {
    && |s'| == |s| && at + |e| < |s| && s'[at + |e|] == 0
    && (forall i :: 0 <= i < |e| ==> s'[at + i] == e[i])
    && forall i :: 0 <= i < |s| && !(at <= i <= at + |e|) ==> s'[i] == s[i]
  }

  lemma StoredSlice(s: seq<bv8>, s': seq<bv8>, at: nat, e: seq<bv8>, from: nat)
    requires Stored(s, s', at, e) && from <= at
    ensures s'[from..at + |e|] == s[from..at] + e
  {
  }

  /** The terminator and the bytes of a code point, stored at `at`. */
  method PutBytes(target: array<bv8>, at: nat, wchar: CodePoint, bytesAdded: nat)
    requires bytesAdded == |Encode(wchar)| && at + bytesAdded < target.Length
    modifies target
    ensures Stored(old(target[..]), target[..], at, Encode(wchar))
  {
    hide Lead2, Lead3, Lead4, Tail12, Tail6, Tail0;
    EncodedSize(wchar);
    target[at + bytesAdded] := 0;
    if bytesAdded == 1 {
      target[at] := wchar as bv8;
    } else if bytesAdded == 2 {
      target[at], target[at + 1] := Lead2(wchar), Tail0(wchar);
    } else if bytesAdded == 3 {
      target[at], target[at + 1], target[at + 2] := Lead3(wchar), Tail6(wchar), Tail0(wchar);
    } else {
      target[at], target[at + 1] := Lead4(wchar), Tail12(wchar);
      target[at + 2], target[at + 3] := Tail6(wchar), Tail0(wchar);
    }
  }

  /** `const_iterator`: a place in a string. */
  class ConstIterator {
    const str: String
    var offset: nat

    constructor (str: String, offset: nat)
      ensures this.str == str && this.offset == offset
    {
      this.str, this.offset := str, offset;
    }

    /** `getByte`: for a local string it reads from the size byte on. */
    function ByteAt(o: nat): bv8
      requires str.Sized() && o < |str.View()|
      reads this, str, str.localStorage, str.storage
    {
      if str.IsLocal() then str.localStorage[o] else str.storage[o]
    }

    /** The iterator stands at code point `k`. */
    ghost predicate At(k: nat)
      reads this, str, str.localStorage, str.storage
    {
      str.Iterable() && k <= |str.codePoints| && offset == Offset(str.codePoints, k)
    }

    /** `operator*` */
    method Deref(ghost k: nat) returns (c: CodePoint)
      requires At(k) && k < |str.codePoints|
      ensures c == str.codePoints[k]
    {
      hide EncodeAll, Join2, Join3, Join4;
      str.ViewIsTerminated();
      Iterates(str.codePoints, k);
      var v := ByteAt(offset);
      if v < 0x80 {
        c := v as bv32;
      } else if v < 0xE0 {
        c := Join2(v, ByteAt(offset + 1));
      } else if v < 0xF0 {
        c := Join3(v, ByteAt(offset + 1), ByteAt(offset + 2));
      } else {
        c := Join4(v, ByteAt(offset + 1), ByteAt(offset + 2), ByteAt(offset + 3));
      }
    }

    /** `operator++` */
    method Advance(ghost k: nat)
      requires At(k) && k < |str.codePoints|
      modifies this
      ensures At(k + 1)
    {
      hide EncodeAll, Decode;
      ghost var v := str.View();
      str.ViewIsTerminated();
      Iterates(str.codePoints, k);
      StartsClean(str.codePoints, k + 1);
      offset := offset + 1;
      while ByteAt(offset) & 0xC0 == 0x80
        invariant offset <= Offset(str.codePoints, k + 1) && Skip(v, offset) == Offset(str.codePoints, k + 1)
        decreases |v| - offset
      {
        offset := offset + 1;
      }
    }

    /** `operator--` */
    method Retreat(ghost k: nat)
      requires At(k) && k > 0
      modifies this
      ensures At(k - 1)
    {
      hide EncodeAll, Decode;
      ghost var v := str.View();
      str.ViewIsTerminated();
      Iterates(str.codePoints, k - 1);
      StartsClean(str.codePoints, k - 1);
      offset := offset - 1;
      while ByteAt(offset) & 0xC0 == 0x80
        invariant Offset(str.codePoints, k - 1) <= offset < |v| && SkipBack(v, offset) == Offset(str.codePoints, k - 1)
        decreases offset
      {
        SkipBackStops(v, offset);
        offset := offset - 1;
      }
    }
  }

  /** Going back stops at the latest at a byte that is not a continuation. */
  lemma SkipBackStops(v: seq<bv8>, o: nat)
    requires o < |v| && Continuation(v[o]) && !Continuation(v[SkipBack(v, o)])
    ensures o > 0 && SkipBack(v, o) == SkipBack(v, o - 1) <= o - 1
  {
  }

  /** The constructor from a pair of iterators: the code points between them are appended one by one. */
  method AppendRange(dst: String, it: ConstIterator, e: ConstIterator)
    requires it.At(0) && e.str == it.str && e.At(|it.str.codePoints|) && it != e
    requires dst.Valid() && dst != it.str
    requires dst.localStorage !in {it.str.localStorage, it.str.storage}
    requires dst.storage !in {it.str.localStorage, it.str.storage}
    requires dst.Size() + |EncodeAll(it.str.codePoints)| <= dst.Capacity()
    modifies it, dst, dst.localStorage, dst.storage
    ensures dst.Valid() && dst.codePoints == old(dst.codePoints) + it.str.codePoints
  {
    hide Encode, EncodeAll, String.Data;
    ghost var k, cs := 0, it.str.codePoints;
    Ends(cs);
    while it.offset != e.offset
      invariant it.At(k) && e.At(|cs|) && dst.Valid() && it.str.codePoints == cs
      invariant dst.codePoints == old(dst.codePoints) + cs[..k]
      invariant dst.Size() == old(dst.Size()) + Offset(cs, k) && dst.Capacity() == old(dst.Capacity())
      invariant dst.storage == old(dst.storage)
      decreases |cs| - k
    {
      NextOffset(cs, k);
      var c := it.Deref(k);
      dst.PushBack(c);
      it.Advance(k);
      k := k + 1;
    }
    if k < |cs| { NextOffset(cs, k); }
  }

  // ---------------------------------------------------------------- local strings

  /** `operator*` at offset `o` yields `c`. */
  predicate ReadsAs(v: seq<bv8>, o: nat, c: CodePoint) {
    o < |v| && o + Width(v[o]) <= |v| && Decode(v, o) == c
  }

  /** As long as every code point is the size byte, the iterator reads that byte at every offset. */
  lemma {:induction false} SizeByteRun(v: seq<bv8>, cs: seq<CodePoint>, k: nat)
    requires |v| == 32 && v[0] <= 30 && |EncodeAll(cs)| <= 30
    requires forall i :: 0 <= i < |EncodeAll(cs)| ==> v[1 + i] == EncodeAll(cs)[i]
    requires k <= |cs| && forall j :: 0 <= j < k ==> cs[j] == v[0] as bv32
    ensures Offset(cs, k) == k <= |EncodeAll(cs)| && v[k] == v[0]
  {
    hide EncodeAll;
    Ends(cs);
    if k > 0 {
      SizeByteRun(v, cs, k - 1);
      OneByteAt(v, cs, k - 1);
    }
  }

  lemma OneByteAt(v: seq<bv8>, cs: seq<CodePoint>, k: nat)
    requires |v| == 32 && v[0] <= 30 && |EncodeAll(cs)| <= 30
    requires forall i :: 0 <= i < |EncodeAll(cs)| ==> v[1 + i] == EncodeAll(cs)[i]
    requires k < |cs| && cs[k] == v[0] as bv32 && Offset(cs, k) == k
    ensures Offset(cs, k + 1) == k + 1 <= |EncodeAll(cs)| && v[k + 1] == v[0]
  {
    hide EncodeAll, Encode;
    NextOffset(cs, k);
    OneByte(cs[k]);
    var after := Around(cs, k);
    assert EncodeAll(cs)[k] == Encode(cs[k])[0];
  }

  /** A byte like the size byte reads as the code point that is the size. */
  lemma SizeByteReads(v: seq<bv8>, k: nat, c: CodePoint)
    requires k < |v| && v[0] <= 30 && v[k] == v[0]
    ensures ReadsAs(v, k, c) <==> c == v[0] as bv32
  {
  }

  /** Iterators read a local string one byte too early, from its size byte on: every code point is read
      right exactly if each of them is equal to the size of the string. */
  lemma LocalReadsRight(str: String)
    requires str.Valid() && str.IsLocal() && AllFit(str.codePoints)
    ensures var cs := str.codePoints;
            (forall k: nat :: k < |cs| ==> ReadsAs(str.View(), Offset(cs, k), cs[k]))
            <==> forall k: nat :: k < |cs| ==> cs[k] == str.localStorage[0] as bv32
  {
    hide EncodeAll, ReadsAs;
    var v, cs := str.View(), str.codePoints;
    if forall k: nat :: k < |cs| ==> cs[k] == v[0] as bv32 {
      forall k: nat | k < |cs| ensures ReadsAs(v, Offset(cs, k), cs[k]) {
        SizeByteRun(v, cs, k);
        SizeByteReads(v, k, cs[k]);
      }
    } else {
      var j: nat :| j < |cs| && cs[j] != v[0] as bv32;
      var k := FirstOther(cs, v[0] as bv32, j);
      SizeByteRun(v, cs, k);
      SizeByteReads(v, k, cs[k]);
      assert !ReadsAs(v, Offset(cs, k), cs[k]);
    }
  }

  lemma {:induction false} FirstOther(cs: seq<CodePoint>, c: CodePoint, j: nat) returns (k: nat)
    requires j < |cs| && cs[j] != c
    ensures k < |cs| && cs[k] != c && forall i :: 0 <= i < k ==> cs[i] == c
    decreases j
  {
    if i: nat :| i < j && cs[i] != c {
      k := FirstOther(cs, c, i);
    } else {
      k := j;
    }
  }

  /** The local string "A" reads as code point 1. */
  lemma LocalStringMisread(v: seq<bv8>)
    requires |v| == 32 && v[0] == 1 && v[1] == 0x41 && v[2] == 0
    ensures EncodeAll([0x41]) == [0x41]
    ensures ReadsAs(v, 0, 1) && !ReadsAs(v, 0, 0x41) && Next(v, 0) == 1
  {
  }
}
