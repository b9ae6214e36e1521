/** Taking a HID report apart (kernel/src/usb/UsbHid.cpp, `HandleReport`): the bits of every field, as an
    unsigned number or in two's complement, recorded under the field's usage. */
module HidReport {
  import opened Words
  import opened Numbers
  import opened FlatMap
  import opened Hid

  // ---------------------------------------------------------------- reports as numbers

  /** A report as one number, its first byte the lowest. */
  function LittleEndian(r: seq<byte>): nat {
    if r == [] then 0 else LittleEndian(r[..|r| - 1]) + r[|r| - 1] * Pow2(8 * (|r| - 1))
  }

  /** The `len` bits from bit `off` on. */
  function FieldValue(r: seq<byte>, off: nat, len: nat): nat { LittleEndian(r) / Pow2(off) % Pow2(len) }

  lemma {:induction false} LittleEndianBound(r: seq<byte>)
    ensures LittleEndian(r) < Pow2(8 * |r|)
    decreases |r|
  {
    if r != [] {
      var n := |r| - 1;
      LittleEndianBound(r[..n]);
      Pow2Add(8 * n, 8);
      assert Pow2(8) == 256;
      ByteBound(r[n], Pow2(8 * n));
    }
  }

  lemma ByteBound(b: byte, p: nat)
    ensures b * p + p <= p * 256
  {
  }

  lemma {:induction false} LittleEndianSplit(r: seq<byte>, k: nat)
    requires k <= |r|
    ensures LittleEndian(r) == LittleEndian(r[..k]) + Pow2(8 * k) * LittleEndian(r[k..])
    decreases |r|
  {
    hide LittleEndian, Pow2;
    if k == |r| {
      EmptyNumber();
      assert r[..k] == r && r[k..] == [];
    } else {
      var n := |r| - 1;
      TopByte(r, n);
      TopByte(r[k..], n - k);
      LittleEndianSplit(r[..n], k);
      assert r[..n][..k] == r[..k];
      var high := r[k..];
      assert high[..n - k] == r[..n][k..] && high[n - k] == r[n];
      Pow2Add(8 * k, 8 * (n - k));
      Attach(LittleEndian(r[..n]), LittleEndian(r[..k]), Pow2(8 * k), LittleEndian(r[..n][k..]), r[n],
             Pow2(8 * (n - k)), Pow2(8 * n), LittleEndian(high));
    }
  }

  lemma TopByte(r: seq<byte>, n: nat)
    requires |r| == n + 1
    ensures LittleEndian(r) == LittleEndian(r[..n]) + r[n] * Pow2(8 * n)
  {
  }

  lemma Attach(rest: nat, low: nat, p: nat, x: nat, b: nat, q: nat, pq: nat, high: nat)
    requires rest == low + p * x && pq == p * q && high == x + b * q
    ensures rest + b * pq == low + p * high
  {
  }

  /** The bytes from `first` to `last` alone determine a field that lies within them. */
  lemma MiddleBytes(r: seq<byte>, off: nat, len: nat, first: nat, end: nat)
    requires first == off / 8 && first <= end <= |r| && off + len <= 8 * end
    ensures LittleEndian(r[first..end]) / Pow2(off % 8) % Pow2(len) == FieldValue(r, off, len)
  {
    hide Pow2, LittleEndian;
    var upper := r[first..];
    var m, high := LittleEndian(r[first..end]), LittleEndian(upper[end - first..]);
    LittleEndianSplit(r, first);
    LittleEndianBound(r[..first]);
    LittleEndianSplit(upper, end - first);
    assert upper[..end - first] == r[first..end];
    DropLow(LittleEndian(r), LittleEndian(r[..first]), LittleEndian(upper), first, off % 8);
    DropHigh(m, high, off % 8, len, 8 * (end - first));
  }

  lemma DropLow(n: nat, low: nat, upper: nat, first: nat, r: nat)
    requires n == low + Pow2(8 * first) * upper && low < Pow2(8 * first)
    ensures n / Pow2(8 * first + r) == upper / Pow2(r)
  {
    hide Pow2;
    Pow2Add(8 * first, r);
    DivDiv(n, Pow2(8 * first), Pow2(r));
    assert n == upper * Pow2(8 * first) + low;
    DivUnique(n, Pow2(8 * first), upper, low);
  }

  lemma DropHigh(m: nat, high: nat, r: nat, len: nat, bits: nat)
    requires r + len <= bits
    ensures (m + Pow2(bits) * high) / Pow2(r) % Pow2(len) == m / Pow2(r) % Pow2(len)
  {
    hide Pow2;
    var rest := bits - r - len;
    Pow2Add(r + len, rest);
    Pow2Add(r, len);
    DropMultiple(m, Pow2(r), Pow2(len), Pow2(rest), high);
  }

  lemma DropMultiple(m: nat, a: nat, b: nat, c: nat, high: nat)
    requires a > 0 && b > 0
    ensures (m + a * b * c * high) / a % b == m / a % b
  {
    var h := c * high;
    Associate(a, b, c, high);
    DivModAdd(m, b * h, a);
    Commute(b, h);
    DivModAdd(m / a, h, b);
  }

  lemma Associate(a: nat, b: nat, c: nat, d: nat)
    ensures a * b * c * d == b * (c * d) * a
  {
  }

  // ---------------------------------------------------------------- extraction

  lemma {:induction false} LittleEndianOn(r: seq<byte>, first: nat, n: nat)
    requires first <= n < |r|
    ensures LittleEndian(r[first..n + 1]) == LittleEndian(r[first..n]) + r[n] * Pow2(8 * (n - first))
  {
    var s := r[first..n + 1];
    assert s[..|s| - 1] == r[first..n];
  }

  /** The last byte of a field, the counter's start for a field of no bits included. */
  function LastByte(off: nat, len: nat): nat { if off + len == 0 then 0 else (off + len - 1) / 8 }

  /** `report[firstByte] << shift` is a 32-bit `int`. Shifted by 24, a byte from 128 on is negative, and
      widening it to 64 bits fills the upper half. */
  function Shifted(b: byte, shift: nat): nat {
    (if shift == 24 && b >= 128 then b + 0xFF_FFFF_FF00 else b) * Pow2(shift)
  }

  /** The `int` arithmetic is defined for shifts below 32, that is for at most four bytes, and for masks of
      at most 30 bits; the loop ends unless the last byte is 255 in 8 bits. */
  predicate Defined(off: nat, len: nat) {
    var first, last := off / 8 % 256, LastByte(off, len) % 256;
    last != 255 && last <= first + 3 && len <= 30
  }

  /** The field lies within a report of `n` bytes. */
  predicate Within(off: nat, len: nat, n: nat) { off + len <= 8 * n && n > 0 }

  /** The bytes that the loop puts together; its counters have 8 bits. */
  function Gathered(r: seq<byte>, first: nat, last: nat): nat
    requires last < |r|
  {
    if first > last then 0
    else LittleEndian(r[first..last + 1]) + if last == first + 3 && r[last] >= 128 then 0xFFFF_FFFF * Pow2(32) else 0
  }

  /** What `HandleReport` makes of a field. */
  datatype Outcome = NeverEnds | Undefined | Value(v: nat)

  function Collected(report: seq<byte>, off: nat, len: nat): Outcome
    requires Within(off, len, |report|)
  {
    if LastByte(off, len) % 256 == 255 then NeverEnds
    else if !Defined(off, len) then Undefined
    else Value(Gathered(report, off / 8 % 256, LastByte(off, len) % 256) / Pow2(off % 8) % Pow2(len))
  }

  /** The part of `HandleReport` that collects the bits of a field, when it ends and is defined. */
  method Extract(report: seq<byte>, off: half, len: byte) returns (val: nat)
    requires Within(off, len, |report|) && Defined(off, len)
    ensures Collected(report, off, len) == Value(val)
  {
    hide Pow2, LittleEndian, Gathered;
    assert off - off / 8 * 8 == off % 8;
    val := Gather(report, off / 8 % 256, LastByte(off, len) % 256);
    val := val / Pow2(off - off / 8 * 8);
    val := val % Pow2(len);
  }

  /** The loop. */
  method Gather(report: seq<byte>, first: nat, last: nat) returns (val: nat)
    requires first < 256 && last < 255 && last < |report| && last <= first + 3
    ensures val == Gathered(report, first, last)
  {
    hide Pow2, LittleEndian, Or, Shifted;
    var firstByte, lastByte := first, last;
    val := 0;
    var shift := 0;
    EmptyNumber();
    if first <= last { assert report[first..first] == []; }
    while firstByte <= lastByte
      invariant first <= firstByte && (first <= last ==> firstByte <= last + 1) && shift == 8 * (firstByte - first)
      invariant firstByte == first || first <= last
      invariant firstByte <= last ==> val == LittleEndian(report[first..firstByte])
      invariant firstByte > last ==> val == Gathered(report, first, last)
      decreases 256 - firstByte
    {
      OneMoreByte(report, first, firstByte, last);
      val := Or(val, Shifted(report[firstByte], shift));
      shift := (shift + 8) % 256;
      firstByte := (firstByte + 1) % 256;
    }
  }

  /** One turn of the loop; only the last of four bytes can be widened. */
  lemma OneMoreByte(r: seq<byte>, first: nat, n: nat, last: nat)
    requires first <= n <= last < |r| && last <= first + 3
    ensures var val := Or(LittleEndian(r[first..n]), Shifted(r[n], 8 * (n - first)));
            if n < last then val == LittleEndian(r[first..n + 1]) else val == Gathered(r, first, last)
  {
    hide Pow2, LittleEndian, Or;
    var p, b: nat := Pow2(8 * (n - first)), r[n];
    LittleEndianOn(r, first, n);
    LittleEndianBound(r[first..n]);
    if n == first + 3 && r[n] >= 128 {
      OrAdds(LittleEndian(r[first..n]), b + 0xFF_FFFF_FF00, 24);
      Pow2Add(24, 8);
      assert Pow2(8) == 256 by { Pow2Eight(); }
      assert (b + 0xFF_FFFF_FF00) * p == b * p + 0xFFFF_FFFF * Pow2(32);
    } else {
      OrAdds(LittleEndian(r[first..n]), b, 8 * (n - first));
    }
  }

  /** The fields that are read as they were laid out: those that end before byte 255, have at most 30 bits
      and touch at most four bytes. A field of no bits only has to let the loop end. */
  predicate ReadsRight(off: nat, len: nat) {
    if len == 0 then LastByte(off, len) % 256 != 255
    else LastByte(off, len) < 255 && len <= 30 && off % 8 + len <= 32
  }

  /** Such a field is collected as its value. */
  lemma CollectsValue(report: seq<byte>, off: nat, len: nat)
    requires Within(off, len, |report|) && ReadsRight(off, len)
    ensures Collected(report, off, len) == Value(FieldValue(report, off, len))
  {
    hide Pow2, LittleEndian, FieldValue, LastByte;
    FieldBytes(off, len);
    LastWithin(off, len, |report|);
    var first, last := off / 8, LastByte(off, len);
    if len == 0 {
      NoBits(Gathered(report, off / 8 % 256, last % 256), off % 8);
      NoBitsField(report, off);
    } else {
      MiddleBytes(report, off, len, first, last + 1);
      if last == first + 3 && report[last] >= 128 {
        DropHigh(LittleEndian(report[first..last + 1]), 0xFFFF_FFFF, off % 8, len, 32);
        Commute(0xFFFF_FFFF, Pow2(32));
      }
    }
  }

  /** The byte counters have 8 bits: of any other field for which the loop ends and the arithmetic is defined, the
      bits that lie a multiple of 2048 lower are collected, or none if the field reaches over such a boundary. */
  lemma CollectsModulo(report: seq<byte>, off: nat, len: nat)
    requires Within(off, len, |report|) && Defined(off, len)
    ensures Collected(report, off, len) == Value(if len == 0 || off / 2048 != (off + len - 1) / 2048 then 0
                                                 else FieldValue(report, off % 2048, len))
  {
    hide Pow2, LittleEndian, FieldValue, Gathered, LastByte;
    LastWithin(off, len, |report|);
    var first, last := off / 8 % 256, LastByte(off, len) % 256;
    if len == 0 {
      NoBits(Gathered(report, first, last), off % 8);
    } else if off / 2048 != (off + len - 1) / 2048 {
      CrossesBoundary(off, len);
      NoBytes(report, first, last);
      DivUnique(0, Pow2(off % 8), 0, 0);
      DivUnique(0, Pow2(len), 0, 0);
    } else {
      LowerBytes(off, len);
      FieldBytes(off % 2048, len);
      CollectsValue(report, off % 2048, len);
    }
  }

  lemma NoBytes(r: seq<byte>, first: nat, last: nat)
    requires last < first && last < |r|
    ensures Gathered(r, first, last) == 0
  {
  }

  lemma CrossesBoundary(off: nat, len: nat)
    requires 1 <= len <= 30 && off / 2048 != (off + len - 1) / 2048
    ensures LastByte(off, len) % 256 < off / 8 % 256
  {
    var lap, low := off / 2048, off % 2048;
    DivUnique(off / 8, 256, lap, low / 8);
    DivUnique((off + len - 1) / 8, 256, lap + 1, (low + len - 1 - 2048) / 8);
  }

  /** 2048 bits lower the counters say the same. */
  lemma LowerBytes(off: nat, len: nat)
    requires 1 <= len && off / 2048 == (off + len - 1) / 2048
    ensures off % 2048 / 8 == off / 8 % 256 < 256 && off % 2048 % 8 == off % 8
    ensures LastByte(off % 2048, len) == LastByte(off, len) % 256
  {
    var lap, low := off / 2048, off % 2048;
    DivUnique(off / 8, 256, lap, low / 8);
    DivUnique((off + len - 1) / 8, 256, lap, (low + len - 1) / 8);
  }

  lemma LastWithin(off: nat, len: nat, n: nat)
    requires Within(off, len, n)
    ensures LastByte(off, len) % 256 <= LastByte(off, len) < n
  {
  }

  lemma NoBits(n: nat, r: nat)
    ensures n / Pow2(r) % Pow2(0) == 0
  {
  }

  lemma NoBitsField(r: seq<byte>, off: nat)
    ensures FieldValue(r, off, 0) == 0
  {
  }

  lemma FieldBytes(off: nat, len: nat)
    ensures len >= 1 ==> off / 8 <= LastByte(off, len) && 8 * LastByte(off, len) < off + len
    ensures len >= 1 ==> off + len <= 8 * (LastByte(off, len) + 1)
    ensures LastByte(off, len) <= off / 8 + 3 <==> off % 8 + len <= 32
    ensures LastByte(off, len) < 255 ==> off / 8 % 256 <= 255 && LastByte(off, len) % 256 == LastByte(off, len)
    ensures LastByte(off, len) < 255 && len >= 1 ==> off / 8 % 256 == off / 8
    ensures len == 0 ==> LastByte(off, len) % 256 <= off / 8 % 256 || LastByte(off, len) % 256 == 255
  {
  }

  lemma {:induction false} Zeros(r: seq<byte>)
    requires forall i :: 0 <= i < |r| ==> r[i] == 0
    ensures LittleEndian(r) == 0
    decreases |r|
  {
    if r != [] {
      Zeros(r[..|r| - 1]);
    }
  }

  /** A report with nothing but the top bit of a field. */
  function TopBitOnly(off: nat, len: nat, n: nat): (r: seq<byte>)
    ensures |r| == n
    ensures forall i :: 0 <= i < n ==> r[i] == if i == LastByte(off, len) then BitOfByte((off + len + 7) % 8) else 0
  {
    if n == 0 then []
    else TopBitOnly(off, len, n - 1) + [if n - 1 == LastByte(off, len) then BitOfByte((off + len + 7) % 8) else 0]
  }

  function BitOfByte(b: nat): byte
    requires b < 8
  {
    [1, 2, 4, 8, 16, 32, 64, 128][b]
  }

  lemma BitIsPower(b: nat)
    requires b < 8
    ensures BitOfByte(b) == Pow2(b)
  {
  }

  lemma TopBitNumber(off: nat, len: nat, n: nat)
    requires 1 <= len && off + len <= 8 * n
    ensures LittleEndian(TopBitOnly(off, len, n)) == Pow2(off + len - 1)
  {
    hide Pow2, LittleEndian, BitOfByte;
    var r, last := TopBitOnly(off, len, n), LastByte(off, len);
    LittleEndianSplit(r, last);
    Zeros(r[..last]);
    var upper := r[last..];
    LittleEndianSplit(upper, 1);
    Zeros(upper[1..]);
    assert upper[..1] == [r[last]];
    OneByteNumber(r[last]);
    BitIsPower((off + len + 7) % 8);
    Pow2Add(8 * last, (off + len + 7) % 8);
  }

  lemma OneByteNumber(b: byte)
    ensures LittleEndian([b]) == b
  {
  }

  /** A field is read right from every report exactly if it is one of those. */
  lemma ReadsRightExactly(off: nat, len: nat, n: nat)
    requires Within(off, len, n)
    ensures (forall report: seq<byte> :: |report| == n ==>
            Collected(report, off, len) == Value(FieldValue(report, off, len)))
            <==> ReadsRight(off, len)
  {
    hide Pow2, LittleEndian, Collected, FieldValue, ReadsRight, Within;
    if ReadsRight(off, len) {
      forall report: seq<byte> | |report| == n
        ensures Collected(report, off, len) == Value(FieldValue(report, off, len))
      {
        CollectsValue(report, off, len);
      }
    } else {
      var r := TopBitOnly(off, len, n);
      TopBitMissed(off, len, n);
      assert |r| == n && Collected(r, off, len) != Value(FieldValue(r, off, len));
    }
  }

  /** In the other fields the top bit is missed, if anything is read at all. */
  lemma TopBitMissed(off: nat, len: nat, n: nat)
    requires Within(off, len, n) && !ReadsRight(off, len)
    ensures Collected(TopBitOnly(off, len, n), off, len) != Value(FieldValue(TopBitOnly(off, len, n), off, len))
  {
    hide Pow2, LittleEndian, BitOfByte, FieldValue, LastByte;
    FieldBytes(off, len);
    if Defined(off, len) && len >= 1 {
      var r, first8, last8 := TopBitOnly(off, len, n), off / 8 % 256, LastByte(off, len) % 256;
      TopBitValue(off, len, n);
      if first8 <= last8 { Zeros(r[first8..last8 + 1]); }
      DivUnique(0, Pow2(off % 8), 0, 0);
      DivUnique(0, Pow2(len), 0, 0);
    }
  }

  lemma TopBitValue(off: nat, len: nat, n: nat)
    requires 1 <= len && off + len <= 8 * n
    ensures FieldValue(TopBitOnly(off, len, n), off, len) == Pow2(len - 1) > 0
  {
    hide Pow2, LittleEndian;
    TopBitNumber(off, len, n);
    Pow2Add(off, len - 1);
    Commute(Pow2(off), Pow2(len - 1));
    DivUnique(Pow2(off + len - 1), Pow2(off), Pow2(len - 1), 0);
    HalfOf(len);
    DivUnique(Pow2(len - 1), Pow2(len), 0, Pow2(len - 1));
  }

  lemma HalfOf(len: nat)
    requires len >= 1
    ensures Pow2(len - 1) < Pow2(len)
  {
  }

  lemma EmptyNumber()
    ensures LittleEndian([]) == 0
  {
  }

  /** The value of `len` bits as a signed number. */
  function Signed(v: nat, len: nat): int
    requires len >= 1
  {
    if v < Pow2(len - 1) then v else v - Pow2(len)
  }

  /** Storing a number into an `int16_t`: the number of 16 bits with sign that differs from it by a multiple
      of 2^16. */
  function Int16(x: int): (r: int)
    ensures Keeps16(r, x)
  {
    (x + 0x8000) % 0x1_0000 - 0x8000
  }

  predicate Keeps16(r: int, x: int) { -0x8000 <= r < 0x8000 && (x - r) % 0x1_0000 == 0 }

  lemma Pow2Small(len: nat)
    requires 1 <= len <= 16
    ensures Pow2(len) == 2 * Pow2(len - 1) <= 0x1_0000
    ensures len < 16 ==> Pow2(len) <= 0x8000
  {
    TwoBytes(len - 1);
  }

  lemma TwoBytes(k: nat)
    requires k < 16
    ensures Pow2(k) <= 0x8000 && (k < 15 ==> Pow2(k) <= 0x4000)
  {
    if k < 8 {
      OneByte(k);
    } else {
      OneByte(7);
      OneByte(k - 8);
      Pow2Add(8, k - 8);
    }
  }

  lemma OneByte(k: nat)
    requires k < 8
    ensures Pow2(k) <= 128 && (k < 7 ==> Pow2(k) <= 64) && Pow2(8) == 256
  {
    assert Pow2(4) == 16;
  }

  /** A number is recorded as it is exactly if it is one of 16 bits with sign. Every signed value of up to 16
      bits is; of the unsigned values of up to 16 bits only those of 16 bits can come out wrong. */
  lemma RecordedExactly(v: nat, len: nat)
    requires 1 <= len && v < Pow2(len)
    ensures Int16(Signed(v, len)) == Signed(v, len) <==> -0x8000 <= Signed(v, len) < 0x8000
    ensures Int16(v) == v <==> v < 0x8000
    ensures len <= 16 ==> -0x8000 <= Signed(v, len) < 0x8000
    ensures len < 16 ==> v < 0x8000
  {
    if len <= 16 { Pow2Small(len); }
  }

  /** What a field says: a button that is down by its number, a relative value, or an absolute value other
      than zero. */
  datatype Entry = Silent | Says(usage: nat, value: int)

  function Reading(f: HidField, v: nat): Entry
    requires f.bitLength == 0 ==> f.isIndex || !f.isRelative
  {
    if f.isIndex then (if v != 0 then Says((f.usage + v) % WORD32, 1) else Silent)
    else if f.isRelative then Says(f.usage, Int16(Signed(v, f.bitLength)))
    else if v != 0 then Says(f.usage, Int16(v)) else Silent
  }

  /** The fields for which the handler's arithmetic is defined, in a report of `n` bytes. A relative field of
      no bits has no sign to look at. */
  predicate Readable(f: HidField, n: nat) {
    && Within(f.bitOffset, f.bitLength, n) && Defined(f.bitOffset, f.bitLength)
    && (f.bitLength == 0 ==> f.isIndex || !f.isRelative)
  }

  predicate AllReadable(fields: seq<HidField>, n: nat) { forall i :: 0 <= i < |fields| ==> Readable(fields[i], n) }

  function Noted(status: map<nat, int>, e: Entry): map<nat, int> {
    match e
    case Silent => status
    case Says(usage, value) => status[usage := value]
  }

  function ReadingOf(fields: seq<HidField>, report: seq<byte>, k: nat): Entry
    requires k < |fields| && AllReadable(fields, |report|)
  {
    Reading(fields[k], Collected(report, fields[k].bitOffset, fields[k].bitLength).v)
  }

  /** The status after the first `n` fields. */
  function Status(fields: seq<HidField>, report: seq<byte>, n: nat): map<nat, int>
    requires n <= |fields| && AllReadable(fields, |report|)
  {
    if n == 0 then map[] else Noted(Status(fields, report, n - 1), ReadingOf(fields, report, n - 1))
  }

  /** `HandleReport`, up to telling the listeners. */
  method HandleReport(input: seq<HidField>, report: seq<byte>) returns (status: FlatMap<nat, int>)
    requires AllReadable(input, |report|)
    ensures status.Valid() && fresh(status) && status.Map() == Status(input, report, |input|)
  {
    hide Contents, UniqueKeys, Pow2, Collected, Int16, Defined, Within, LastByte;
    status := new FlatMap();
    for n := 0 to |input|
      invariant status.Valid() && fresh(status) && status.Map() == Status(input, report, n)
    {
      var f := input[n];
      assert Readable(f, |report|);
      var val := Extract(report, f.bitOffset, f.bitLength);
      if f.isIndex {
        if val != 0 { status.Put((f.usage + val) % WORD32, 0, 1); }
      } else if f.isRelative {
        CollectedBelow(report, f.bitOffset, f.bitLength);
        TopBit(f.bitLength, val);
        if val / Pow2(f.bitLength - 1) % 2 == 1 {
          status.Put(f.usage, 0, Int16(val - Pow2(f.bitLength)));
        } else {
          status.Put(f.usage, 0, Int16(val));
        }
      } else {
        if val != 0 { status.Put(f.usage, 0, Int16(val)); }
      }
    }
  }

  lemma CollectedBelow(report: seq<byte>, off: nat, len: nat)
    requires Within(off, len, |report|) && Defined(off, len)
    ensures Collected(report, off, len).Value? && Collected(report, off, len).v < Pow2(len)
  {
    hide LittleEndian, Pow2;
  }

  lemma TopBit(len: nat, v: nat)
    requires 1 <= len && v < Pow2(len)
    ensures v / Pow2(len - 1) % 2 == 1 <==> v >= Pow2(len - 1)
  {
    var p := Pow2(len - 1);
    assert v < 2 * p;
    if v >= p { DivUnique(v, p, 1, v - p); } else { DivUnique(v, p, 0, v); }
  }

  /** A later entry for the same usage replaces an earlier one. */
  predicate Overrules(later: Entry, earlier: Entry) { later.Says? && earlier.Says? && later.usage == earlier.usage }

  /** None of the fields behind field `i`, up to field `n`, speaks for the same usage. */
  ghost predicate HasLastWord(fields: seq<HidField>, report: seq<byte>, i: nat, n: nat)
    requires i < n <= |fields| && AllReadable(fields, |report|)
  {
    forall k: nat :: i < k < n ==> !Overrules(ReadingOf(fields, report, k), ReadingOf(fields, report, i))
  }

  /** The last field that speaks for a usage decides what is recorded for it. */
  lemma {:induction false} LastSpeaks(fields: seq<HidField>, report: seq<byte>, i: nat, n: nat)
    requires i < n <= |fields| && AllReadable(fields, |report|)
    requires ReadingOf(fields, report, i).Says? && HasLastWord(fields, report, i, n)
    ensures var e := ReadingOf(fields, report, i);
            e.usage in Status(fields, report, n) && Status(fields, report, n)[e.usage] == e.value
    decreases n
  {
    hide ReadingOf;
    if i < n - 1 {
      LastSpeaks(fields, report, i, n - 1);
      assert !Overrules(ReadingOf(fields, report, n - 1), ReadingOf(fields, report, i));
    }
  }

  /** Field `k` has something to say for usage `u`. */
  predicate Speaks(fields: seq<HidField>, report: seq<byte>, k: nat, u: nat)
    requires k < |fields| && AllReadable(fields, |report|)
  {
    ReadingOf(fields, report, k).Says? && ReadingOf(fields, report, k).usage == u
  }

  /** A usage has a status exactly if some field speaks for it: a released button and an absolute value of 0
      leave nothing behind. */
  lemma {:induction false} PresentExactly(fields: seq<HidField>, report: seq<byte>, n: nat, u: nat)
    requires n <= |fields| && AllReadable(fields, |report|)
    ensures u in Status(fields, report, n) <==> exists k: nat :: k < n && Speaks(fields, report, k, u)
  {
    hide ReadingOf;
    if n > 0 {
      PresentExactly(fields, report, n - 1, u);
      assert Speaks(fields, report, n - 1, u) || !Speaks(fields, report, n - 1, u);
    }
  }

  // ---------------------------------------------------------------- packing and unpacking

  /** Values laid out slot by slot, as one number. */
  function Pack(slots: seq<nat>, values: seq<nat>): nat
    requires |slots| == |values|
  {
    if slots == [] then 0
    else
      var n := |slots| - 1;
      Pack(slots[..n], values[..n]) + values[n] * Pow2(Sum(slots[..n]))
  }

  ghost predicate ValuesFit(slots: seq<nat>, values: seq<nat>) {
    |slots| == |values| && forall k :: 0 <= k < |slots| ==> values[k] < Pow2(slots[k])
  }

  lemma {:induction false} PackBound(slots: seq<nat>, values: seq<nat>)
    requires ValuesFit(slots, values)
    ensures Pack(slots, values) < Pow2(Sum(slots))
    decreases |slots|
  {
    if slots != [] {
      var n := |slots| - 1;
      PackBound(slots[..n], values[..n]);
      Pow2Add(Sum(slots[..n]), slots[n]);
      Fits(values[n], Pow2(slots[n]), Pow2(Sum(slots[..n])));
    }
  }

  lemma Fits(v: nat, l: nat, p: nat)
    requires v < l
    ensures v * p + p <= p * l
  {
    Times(v + 1, l, p);
  }

  /** A packed number, cut at slot `j`. */
  lemma {:induction false} PackSplit(slots: seq<nat>, values: seq<nat>, j: nat) returns (above: nat)
    requires ValuesFit(slots, values) && j < |slots|
    ensures Pack(slots, values) ==
            Pack(slots[..j], values[..j]) + (values[j] + Pow2(slots[j]) * above) * Pow2(Sum(slots[..j]))
    decreases |slots|
  {
    hide Pow2, Sum, Pack;
    var n := |slots| - 1;
    PackLast(slots, values);
    if j == n {
      above := 0;
    } else {
      var a := PackSplit(slots[..n], values[..n], j);
      assert slots[..n][..j] == slots[..j] && values[..n][..j] == values[..j];
      SumGrows(slots[..n], j, j + 1);
      NextSum(slots[..n], j);
      var gap := Sum(slots[..n]) - Sum(slots[..j]) - slots[j];
      Pow2Add(Sum(slots[..j]), slots[j]);
      Pow2Add(Sum(slots[..j]) + slots[j], gap);
      above := a + values[n] * Pow2(gap);
      Assemble(Pack(slots[..n], values[..n]), Pack(slots[..j], values[..j]),
               values[j], Pow2(slots[j]), a, values[n], Pow2(gap), Pow2(Sum(slots[..j])));
    }
  }

  lemma PackLast(slots: seq<nat>, values: seq<nat>)
    requires |slots| == |values| > 0
    ensures var n := |slots| - 1;
            Pack(slots, values) == Pack(slots[..n], values[..n]) + values[n] * Pow2(Sum(slots[..n]))
  {
  }

  lemma Assemble(total: nat, low: nat, v: nat, l: nat, a: nat, w: nat, g: nat, p: nat)
    requires total == low + (v + l * a) * p
    ensures total + w * (p * l * g) == low + (v + l * (a + w * g)) * p
  {
  }

  lemma NextSum(ls: seq<nat>, j: nat)
    requires j < |ls|
    ensures Sum(ls[..j]) + ls[j] == Sum(ls[..j + 1])
  {
    assert ls[..j + 1][..j] == ls[..j];
  }

  /** The low bits of the number are the packed values; anything may follow. */
  predicate Carries(number: nat, slots: seq<nat>, values: seq<nat>, junk: nat) {
    |slots| == |values| && number == Pack(slots, values) + Pow2(Sum(slots)) * junk
  }

  /** Slot `j` of a packed number is the value packed there, whatever follows the packed bits. */
  lemma UnpackPacked(slots: seq<nat>, values: seq<nat>, j: nat, number: nat, junk: nat)
    requires ValuesFit(slots, values) && j < |slots| && Carries(number, slots, values, junk)
    ensures number / Pow2(Sum(slots[..j])) % Pow2(slots[j]) == values[j]
  {
    hide Pow2, Sum, Pack;
    var above := PackSplit(slots, values, j);
    var s := Sum(slots[..j]);
    NextSum(slots, j);
    SumGrows(slots, j + 1, |slots|);
    var gap := Sum(slots) - s - slots[j];
    assert slots[..|slots|] == slots;
    Pow2Add(s, slots[j]);
    Pow2Add(s + slots[j], gap);
    PrefixFits(slots, values, j);
    PackBound(slots[..j], values[..j]);
    var v, l, g, p, low := values[j], Pow2(slots[j]), Pow2(gap), Pow2(s), Pack(slots[..j], values[..j]);
    Assemble(Pack(slots, values), low, v, l, above, junk, g, p);
    Commute(p * l * g, junk);
    Middle(number, p, low, v, l, above + junk * g);
  }

  lemma Middle(number: nat, p: nat, low: nat, v: nat, l: nat, above: nat)
    requires number == low + (v + l * above) * p && low < p && v < l
    ensures number / p % l == v
  {
    DivUnique(number, p, v + l * above, low);
    Commute(l, above);
    DivModAdd(v, above, l);
    DivUnique(v, l, 0, v);
  }

  lemma PrefixFits(slots: seq<nat>, values: seq<nat>, j: nat)
    requires ValuesFit(slots, values) && j <= |slots|
    ensures ValuesFit(slots[..j], values[..j])
  {
  }

  lemma ByDefinition(report: seq<byte>, off: nat, len: nat)
    ensures FieldValue(report, off, len) == LittleEndian(report) / Pow2(off) % Pow2(len)
  {
  }

  /** Below 2^16 bits a field starts where the slots before it add up to. */
  lemma StartsAt(side: Side, i: nat)
    requires LaidOut(side) && Sum(side.slots) < WORD16 && i < |side.fields|
    ensures side.fields[i].bitLength == side.slots[side.at[i]]
    ensures side.fields[i].bitOffset == Sum(side.slots[..side.at[i]])
  {
    hide Sum;
    assert FieldFits(side, i);
    SumGrows(side.slots, side.at[i], |side.slots|);
    assert side.slots[..|side.slots|] == side.slots;
  }

  /** A report packed along the layout of a descriptor is read back: the bits of every field are the value
      packed into its slot, as long as the whole report has fewer than 2^16 bits. */
  lemma ReportRoundTrip(items: seq<Item>, values: seq<nat>, report: seq<byte>, junk: nat, i: nat)
    requires var side := Parse(items).input;
             && ValuesFit(side.slots, values) && Sum(side.slots) < WORD16
             && Carries(LittleEndian(report), side.slots, values, junk)
             && i < |side.fields|
    ensures var side := Parse(items).input;
            && LaidOut(side) && side.at[i] < |side.slots| == |values|
            && FieldValue(report, side.fields[i].bitOffset, side.fields[i].bitLength) == values[side.at[i]]
  {
    hide Parse, Sum, Pow2, Pack, LittleEndian, Carries, FieldValue, FieldFits;
    ParseLaysOut(items);
    var side := Parse(items).input;
    var j := side.at[i];
    StartsAt(side, i);
    UnpackPacked(side.slots, values, j, LittleEndian(report), junk);
    ByDefinition(report, Sum(side.slots[..j]), side.slots[j]);
  }

  /** End to end: what the handler records for field `i` of a packed report, unless a later field speaks for
      the same usage. A released button and an absolute value of 0 say nothing; a button that is down is
      recorded as 1 under its own usage; a relative value is recorded in two's complement exactly if 16 bits
      hold it, an absolute one as it is exactly if it is below 2^15. */
  lemma PackedIsRecorded(items: seq<Item>, values: seq<nat>, report: seq<byte>, junk: nat, i: nat)
    requires var side := Parse(items).input;
             && ValuesFit(side.slots, values) && Sum(side.slots) < WORD16
             && Carries(LittleEndian(report), side.slots, values, junk)
             && AllReadable(side.fields, |report|)
             && i < |side.fields| && ReadsRight(side.fields[i].bitOffset, side.fields[i].bitLength)
    ensures var side := Parse(items).input;
            && LaidOut(side) && side.at[i] < |side.slots| == |values|
            && var f, v, status := side.fields[i], values[side.at[i]], Status(side.fields, report, |side.fields|);
               if v == 0 && (f.isIndex || !f.isRelative) then ReadingOf(side.fields, report, i).Silent?
               else HasLastWord(side.fields, report, i, |side.fields|) ==>
                 if f.isIndex then (f.usage + v) % WORD32 in status && status[(f.usage + v) % WORD32] == 1
                 else if f.isRelative then
                   && f.bitLength >= 1 && f.usage in status
                   && Keeps16(status[f.usage], Signed(v, f.bitLength))
                   && (status[f.usage] == Signed(v, f.bitLength) <==> -0x8000 <= Signed(v, f.bitLength) < 0x8000)
                   && (f.bitLength <= 16 ==> status[f.usage] == Signed(v, f.bitLength))
                 else f.usage in status && Keeps16(status[f.usage], v) && (status[f.usage] == v <==> v < 0x8000)
  {
    hide Parse, Sum, Pow2, Pack, LittleEndian, Carries, FieldValue, Collected, ReadsRight, Status, HasLastWord;
    var side := Parse(items).input;
    var f := side.fields[i];
    ReportRoundTrip(items, values, report, junk, i);
    assert Readable(f, |report|);
    CollectsValue(report, f.bitOffset, f.bitLength);
    FieldBelow(report, f.bitOffset, f.bitLength);
    if ReadingOf(side.fields, report, i).Says? && HasLastWord(side.fields, report, i, |side.fields|) {
      LastSpeaks(side.fields, report, i, |side.fields|);
    }
    if f.bitLength >= 1 { RecordedExactly(values[side.at[i]], f.bitLength); }
  }

  lemma FieldBelow(report: seq<byte>, off: nat, len: nat)
    ensures FieldValue(report, off, len) < Pow2(len) && (len == 0 ==> Pow2(len) == 1)
  {
    hide LittleEndian;
  }
}
