/** Reading UTF-16 (cpp/src/string.cpp), in either byte order, into a string. */
module Utf16 {
  import opened Utf8

  const REPLACEMENT: CodePoint := 0xFFFD

  // ---------------------------------------------------------------- units and scalar values

  predicate High(u: bv16) { 0xD800 <= u <= 0xDBFF }

  predicate Low(u: bv16) { 0xDC00 <= u <= 0xDFFF }

  /** A Unicode scalar value: any code point but a surrogate. */
  predicate Scalar(c: CodePoint) { c <= 0x10FFFF && !(0xD800 <= c <= 0xDFFF) }

  predicate Scalars(cs: seq<CodePoint>) { forall k :: 0 <= k < |cs| ==> Scalar(cs[k]) }

  /** UTF-16 of one scalar value (RFC 2781, section 2.1). */
  function EncodeScalar(c: CodePoint): (us: seq<bv16>)
    requires Scalar(c)
    ensures 1 <= |us| <= 2
  {
    if c < 0x10000 then [c as bv16]
    else [HighOf(c), LowOf(c)]
  }

  function HighOf(c: CodePoint): bv16
    requires 0x10000 <= c <= 0x10FFFF
  {
    (0xD800 | ((c - 0x10000) >> 10)) as bv16
  }

  function LowOf(c: CodePoint): bv16
  {
    (0xDC00 | ((c - 0x10000) & 0x3FF)) as bv16
  }

  function EncodeUnits(cs: seq<CodePoint>): seq<bv16>
    requires Scalars(cs)
  {
    if cs == [] then [] else EncodeScalar(cs[0]) + EncodeUnits(cs[1..])
  }

  /** What the code makes of a pair of surrogates. */
  function Pair(v1: bv16, v2: bv16): CodePoint {
    ((((v1 as bv32) << 10) & 0xFFC00) | (v2 as bv32 & 0x3FF)) + 0x10000
  }

  /** What the units at the front decode to, and how many of them are used up: a pair its value, an unpaired
      surrogate U+FFFD, any other unit itself. */
  ghost predicate Reads(us: seq<bv16>, c: CodePoint, used: nat) {
    us != [] &&
    if 0xD800 <= us[0] <= 0xDBFF && |us| > 1 && 0xDC00 <= us[1] <= 0xDFFF then
      used == 2 && c == 0x10000 + (((us[0] - 0xD800) as bv32) << 10) + (us[1] - 0xDC00) as bv32
    else
      used == 1 && c == if 0xD800 <= us[0] <= 0xDFFF then 0xFFFD else us[0] as bv32
  }

  /** Decoding a sequence of units: an unpaired surrogate becomes the replacement character, and the unit
      after an unpaired high surrogate is read again. */
  function DecodeUnits(us: seq<bv16>): seq<CodePoint> {
    if us == [] then []
    else if High(us[0]) && |us| > 1 && Low(us[1]) then [Pair(us[0], us[1])] + DecodeUnits(us[2..])
    else [if High(us[0]) || Low(us[0]) then REPLACEMENT else us[0] as bv32] + DecodeUnits(us[1..])
  }

  /** A pair stands for 0x10000 and ten bits from each surrogate, the first one's above the second one's
      (RFC 2781, section 2.2). */
  lemma PairValue(v1: bv16, v2: bv16)
    requires High(v1) && Low(v2)
    ensures Pair(v1, v2) == 0x10000 + (((v1 - 0xD800) as bv32) << 10) + (v2 - 0xDC00) as bv32
  {
  }

  lemma DecodePair(us: seq<bv16>)
    requires |us| > 1 && High(us[0]) && Low(us[1])
    ensures DecodeUnits(us) == [Pair(us[0], us[1])] + DecodeUnits(us[2..])
  {
  }

  lemma DecodeOne(us: seq<bv16>)
    requires us != [] && !(High(us[0]) && |us| > 1 && Low(us[1]))
    ensures DecodeUnits(us) == [if High(us[0]) || Low(us[0]) then REPLACEMENT else us[0] as bv32] + DecodeUnits(us[1..])
  {
  }

  /** A pair at the front. */
  lemma ReadsPair(us: seq<bv16>)
    requires |us| > 1 && High(us[0]) && Low(us[1])
    ensures var c := Pair(us[0], us[1]); Reads(us, c, 2) && DecodeUnits(us) == [c] + DecodeUnits(us[2..])
  {
    hide Pair;
    PairValue(us[0], us[1]);
    DecodePair(us);
  }

  /** An unpaired surrogate at the front. */
  lemma ReadsReplaced(us: seq<bv16>)
    requires us != [] && if High(us[0]) then |us| == 1 || !Low(us[1]) else Low(us[0])
    ensures Reads(us, REPLACEMENT, 1) && DecodeUnits(us) == [REPLACEMENT] + DecodeUnits(us[1..])
  {
    DecodeOne(us);
  }

  /** Any other unit at the front. */
  lemma ReadsUnit(us: seq<bv16>)
    requires us != [] && !High(us[0]) && !Low(us[0])
    ensures Reads(us, us[0] as bv32, 1) && DecodeUnits(us) == [us[0] as bv32] + DecodeUnits(us[1..])
  {
    DecodeOne(us);
  }

  lemma PairIsScalar(v1: bv16, v2: bv16)
    requires High(v1) && Low(v2)
    ensures Scalar(Pair(v1, v2)) && Pair(v1, v2) >= 0x10000
  {
  }

  lemma PairUndoesSplit(c: CodePoint)
    requires 0x10000 <= c <= 0x10FFFF
    ensures High(HighOf(c)) && Low(LowOf(c)) && Pair(HighOf(c), LowOf(c)) == c
  {
    var d := c - 0x10000;
    assert d <= 0xF_FFFF;
    SplitBits(d);
    assert d + 0x10000 == c;
  }

  lemma SplitBits(d: bv32)
    requires d <= 0xF_FFFF
    ensures var h, l := 0xD800 | (d >> 10), 0xDC00 | (d & 0x3FF);
            && 0xD800 <= h <= 0xDBFF && 0xDC00 <= l <= 0xDFFF
            && 0xD800 <= h as bv16 <= 0xDBFF && 0xDC00 <= l as bv16 <= 0xDFFF
            && ((((h as bv16) as bv32 << 10) & 0xFFC00) | ((l as bv16) as bv32 & 0x3FF)) == d
  {
  }

  lemma UnitIsScalar(u: bv16)
    requires !High(u) && !Low(u)
    ensures Scalar(u as bv32)
  {
  }

  /** Whatever the input, only scalar values come out. */
  lemma {:induction false} OnlyScalars(us: seq<bv16>)
    ensures Scalars(DecodeUnits(us))
    decreases |us|
  {
    hide Scalar, Pair, High, Low;
    assert Scalar(REPLACEMENT) by { ReplacementIsScalar(); }
    if us != [] {
      if High(us[0]) && |us| > 1 && Low(us[1]) {
        PairIsScalar(us[0], us[1]);
        OnlyScalars(us[2..]);
      } else {
        if !High(us[0]) && !Low(us[0]) { UnitIsScalar(us[0]); }
        OnlyScalars(us[1..]);
      }
    }
  }

  lemma ReplacementIsScalar()
    ensures Scalar(REPLACEMENT)
  {
  }

  /** Decoding inverts encoding. */
  lemma {:induction false} DecodeInvertsEncode(cs: seq<CodePoint>)
    requires Scalars(cs)
    ensures DecodeUnits(EncodeUnits(cs)) == cs
    decreases |cs|
  {
    hide Pair, HighOf, LowOf, Scalar, High, Low, DecodeUnits, EncodeScalar;
    if cs == [] {
      assert DecodeUnits([]) == [] by { DecodeNone(); }
    } else {
      var us, rest := EncodeUnits(cs), EncodeUnits(cs[1..]);
      DecodeInvertsEncode(cs[1..]);
      EncodedAs(cs[0]);
      if cs[0] < 0x10000 {
        assert us[1..] == rest;
        DecodeOne(us);
      } else {
        PairUndoesSplit(cs[0]);
        assert us[2..] == rest;
        DecodePair(us);
      }
    }
  }

  lemma DecodeNone()
    ensures DecodeUnits([]) == []
  {
  }

  lemma EncodedAs(c: CodePoint)
    requires Scalar(c)
    ensures c < 0x10000 ==> EncodeScalar(c) == [c as bv16] && (c as bv16) as bv32 == c
    ensures c < 0x10000 ==> !High(c as bv16) && !Low(c as bv16)
    ensures c >= 0x10000 ==> c <= 0x10FFFF && EncodeScalar(c) == [HighOf(c), LowOf(c)]
  {
    hide High, Low, HighOf, LowOf;
    if c < 0x10000 { BasicUnit(c); }
  }

  lemma BasicUnit(c: CodePoint)
    requires Scalar(c) && c < 0x10000
    ensures (c as bv16) as bv32 == c && !High(c as bv16) && !Low(c as bv16)
  {
  }

  lemma AstralBound(c: CodePoint)
    requires Scalar(c)
    ensures c <= 0x10FFFF
  {
  }

  // ---------------------------------------------------------------- bytes

  /** `getValue`, the unit at byte `p`. */
  function UnitAt(data: seq<bv8>, p: nat, littleEndian: bool): bv16
    requires p + 2 <= |data|
  {
    if littleEndian then ((data[p + 1] as bv16) << 8) | data[p] as bv16
    else ((data[p] as bv16) << 8) | data[p + 1] as bv16
  }

  function Units(data: seq<bv8>, littleEndian: bool): (us: seq<bv16>)
    ensures |us| == |data| / 2
  {
    seq(|data| / 2, i requires 0 <= i < |data| / 2 => UnitAt(data, 2 * i, littleEndian))
  }

  /** The bytes of units, in either order. */
  function Bytes(us: seq<bv16>, littleEndian: bool): (data: seq<bv8>)
    ensures |data| == 2 * |us|
  {
    seq(2 * |us|, i requires 0 <= i < 2 * |us| => ByteOf(us[i / 2], (i % 2 == 0) == littleEndian))
  }

  function ByteOf(u: bv16, low: bool): bv8 { if low then (u & 0xFF) as bv8 else (u >> 8) as bv8 }

  lemma UnitsOfBytes(us: seq<bv16>, littleEndian: bool)
    ensures Units(Bytes(us, littleEndian), littleEndian) == us
  {
  }

  // ---------------------------------------------------------------- the reader

  predicate InOrder(value: bv16, low: bv8, high: bv8) { value & 0xFF == low as bv16 && value >> 8 == high as bv16 }

  /** `getValue`; the pointer moves past the unit. */
  method GetValue(data: seq<bv8>, p: nat, littleEndian: bool) returns (value: bv16, p': nat)
    requires p + 2 <= |data|
    ensures value == UnitAt(data, p, littleEndian) && p' == p + 2
    ensures if littleEndian then InOrder(value, data[p], data[p + 1]) else InOrder(value, data[p + 1], data[p])
  {
    if littleEndian {
      value := ((data[p + 1] as bv16) << 8) | data[p] as bv16;
    } else {
      value := ((data[p] as bv16) << 8) | data[p + 1] as bv16;
    }
    p' := p + 2;
  }

  /** The front of the remaining units, at byte `p`, was read as `c`, up to byte `p'`. */
  ghost predicate ReadOff(data: seq<bv8>, littleEndian: bool, p: nat, c: CodePoint, p': nat) {
    && p < p' <= |data| && p % 2 == 0 && p' % 2 == 0
    && Reads(Units(data, littleEndian)[p / 2..], c, (p' - p) / 2)
    && DecodeUnits(Units(data, littleEndian)[p / 2..]) == [c] + DecodeUnits(Units(data, littleEndian)[p' / 2..])
  }

  /** `getUtf16Char`: one code point off the front of the remaining units; the pointer always moves, never
      past the end, and never over the unit behind an unpaired high surrogate. */
  method GetUtf16Char(data: seq<bv8>, p: nat, littleEndian: bool, lastEntry: bool) returns (c: CodePoint, p': nat)
    requires |data| % 2 == 0 && p % 2 == 0 && p < |data| && lastEntry == (p == |data| - 2)
    ensures ReadOff(data, littleEndian, p, c, p')
  {
    hide UnitAt, Pair, DecodeUnits, Reads, InOrder, ReadOff;
    var v1;
    v1, p' := GetValue(data, p, littleEndian);
    if v1 >= 0xD800 && v1 <= 0xDBFF {
      if lastEntry {
        FrontReplaced(data, littleEndian, p, v1);
        return REPLACEMENT, p';
      }
      var v2;
      v2, p' := GetValue(data, p', littleEndian);
      FrontPair(data, littleEndian, p, v1, v2);
      if v2 >= 0xDC00 && v2 <= 0xDFFF {
        c := PairOf(v1, v2);
      } else {
        p' := p' - 2;
        c := REPLACEMENT;
      }
    } else if v1 >= 0xDC00 && v1 <= 0xDFFF {
      FrontReplaced(data, littleEndian, p, v1);
      c := REPLACEMENT;
    } else {
      FrontUnit(data, littleEndian, p, v1);
      c := v1 as bv32;
    }
  }

  /** A low surrogate at the front, or a high one that is the last unit. */
  lemma FrontReplaced(data: seq<bv8>, littleEndian: bool, p: nat, v1: bv16)
    requires |data| % 2 == 0 && p % 2 == 0 && p < |data| && v1 == UnitAt(data, p, littleEndian)
    requires (0xD800 <= v1 <= 0xDBFF && p == |data| - 2) || 0xDC00 <= v1 <= 0xDFFF
    ensures ReadOff(data, littleEndian, p, REPLACEMENT, p + 2)
  {
    hide UnitAt, Pair, DecodeUnits, Reads;
    var all := Units(data, littleEndian);
    assert all[p / 2..][1..] == all[p / 2 + 1..];
    ReadsReplaced(all[p / 2..]);
  }

  /** Any other unit. */
  lemma FrontUnit(data: seq<bv8>, littleEndian: bool, p: nat, v1: bv16)
    requires |data| % 2 == 0 && p % 2 == 0 && p < |data| && v1 == UnitAt(data, p, littleEndian)
    requires !(0xD800 <= v1 <= 0xDFFF)
    ensures ReadOff(data, littleEndian, p, v1 as bv32, p + 2)
  {
    hide UnitAt, Pair, DecodeUnits, Reads, High, Low;
    RestOfUnits(data, littleEndian, p);
    hide Units;
    NoSurrogate(v1);
    ReadsUnit(Units(data, littleEndian)[p / 2..]);
  }

  /** The units from byte `p` on. */
  lemma RestOfUnits(data: seq<bv8>, littleEndian: bool, p: nat)
    requires |data| % 2 == 0 && p % 2 == 0 && p < |data|
    ensures var all := Units(data, littleEndian);
            && p / 2 < |all| && |all[p / 2..]| == (|data| - p) / 2 && all[p / 2..][0] == UnitAt(data, p, littleEndian)
            && all[p / 2..][1..] == all[(p + 2) / 2..]
  {
    hide UnitAt;
  }

  lemma NoSurrogate(u: bv16)
    requires !(0xD800 <= u <= 0xDFFF)
    ensures !High(u) && !Low(u)
  {
  }

  /** What a high surrogate is read as, depending on the unit behind it. */
  lemma FrontPair(data: seq<bv8>, littleEndian: bool, p: nat, v1: bv16, v2: bv16)
    requires |data| % 2 == 0 && p % 2 == 0 && p + 4 <= |data| && 0xD800 <= v1 <= 0xDBFF
    requires v1 == UnitAt(data, p, littleEndian) && v2 == UnitAt(data, p + 2, littleEndian)
    ensures if 0xDC00 <= v2 <= 0xDFFF then ReadOff(data, littleEndian, p, Pair(v1, v2), p + 4)
            else ReadOff(data, littleEndian, p, REPLACEMENT, p + 2)
  {
    hide UnitAt, Pair, DecodeUnits, Reads;
    var all := Units(data, littleEndian);
    var us := all[p / 2..];
    assert us[1..] == all[p / 2 + 1..] && us[2..] == all[p / 2 + 2..];
    if 0xDC00 <= v2 <= 0xDFFF { ReadsPair(us); } else { ReadsReplaced(us); }
  }

  /** The arithmetic on a pair, as the code does it. */
  method PairOf(v1: bv16, v2: bv16) returns (val: CodePoint)
    ensures val == Pair(v1, v2)
  {
    val := ((v1 as bv32) << 10) & 0xFFC00;
    val := val | (v2 as bv32 & 0x3FF);
    val := val + 0x10000;
  }

  /** The loop of `from_utf16`, onto the end of any string with room for the result. */
  method AppendUtf16(s: String, data: seq<bv8>, littleEndian: bool)
    requires |data| % 2 == 0 && s.Valid()
    requires s.Size() + |EncodeAll(DecodeUnits(Units(data, littleEndian)))| <= s.Capacity()
    modifies s, s.localStorage, s.storage
    ensures s.Valid() && s.codePoints == old(s.codePoints) + DecodeUnits(Units(data, littleEndian))
    ensures s.IsLocal() == old(s.IsLocal())
  {
    hide EncodeAll, Encode, String.Data, Units;
    ghost var us := Units(data, littleEndian);
    ghost var all := DecodeUnits(us);
    ghost var done: seq<CodePoint> := [];
    var p := 0;
    Ends(all);
    while p != |data|
      invariant p <= |data| && p % 2 == 0 && s.Valid() && s.storage == old(s.storage)
      invariant done + DecodeUnits(us[p / 2..]) == all && s.codePoints == old(s.codePoints) + done
      invariant s.Size() == old(s.Size()) + |EncodeAll(done)| && s.Capacity() == old(s.Capacity())
      invariant s.IsLocal() == old(s.IsLocal())
      decreases |data| - p
    {
      ghost var rest := DecodeUnits(us[p / 2..]);
      var c;
      c, p := GetUtf16Char(data, p, littleEndian, p == |data| - 2);
      Room(all, done, c, rest);
      s.PushBack(c);
      done := done + [c];
    }
  }

  lemma Room(all: seq<CodePoint>, done: seq<CodePoint>, c: CodePoint, rest: seq<CodePoint>)
    requires all == done + rest && rest != [] && rest[0] == c
    ensures |EncodeAll(done + [c])| == |EncodeAll(done)| + |Encode(c)| <= |EncodeAll(all)|
  {
    hide EncodeAll, Encode;
    NextOffset(all, |done|);
    assert all[..|done|] == done;
  }

  /** `from_utf16`: the result is local, so it must fit 30 bytes. */
  method FromUtf16(data: seq<bv8>, littleEndian: bool) returns (s: String)
    requires |data| % 2 == 0 && |EncodeAll(DecodeUnits(Units(data, littleEndian)))| <= LOCAL
    ensures s.Valid() && s.codePoints == DecodeUnits(Units(data, littleEndian))
  {
    s := new String();
    AppendUtf16(s, data, littleEndian);
  }

  /** Scalar values written as UTF-16 bytes, in either order, and read back. */
  lemma TranscodingKeepsScalars(cs: seq<CodePoint>, littleEndian: bool)
    requires Scalars(cs)
    ensures var data := Bytes(EncodeUnits(cs), littleEndian);
            |data| % 2 == 0 && DecodeUnits(Units(data, littleEndian)) == cs && AllFit(cs)
  {
    hide Units, Bytes, EncodeUnits, DecodeUnits;
    UnitsOfBytes(EncodeUnits(cs), littleEndian);
    DecodeInvertsEncode(cs);
    forall k | 0 <= k < |cs| ensures cs[k] <= LIMIT {
      AstralBound(cs[k]);
    }
  }
}
