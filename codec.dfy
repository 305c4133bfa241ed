/**
 * The byte encodings of the Custom package
 * (src/github.com/AlasdairF/Custom/custom.go): what each Write* method of
 * Writer and Buffer appends, and what the matching BytesReader.Read* method
 * decodes from the bytes at its cursor, as functions on byte sequences.
 *
 * A right shift is a division, byte(x) is x % 256, and an OR of disjoint bit
 * fields is a sum; the bit tests of the boolean and nibble packings use bv8.
 */
module CustomCodec {
  import opened Words

  type u16 = x: int | 0 <= x < 0x1_0000
  type u32 = x: int | 0 <= x < 0x1_0000_0000
  type int16 = x: int | -0x8000 <= x < 0x8000
  type int32 = x: int | -0x8000_0000 <= x < 0x8000_0000

  function Min(a: int, b: int): int
  {
    if a <= b then a else b
  }

  lemma Pow256Table()
    ensures Pow256(1) == 0x100 && Pow256(2) == 0x1_0000 && Pow256(3) == 0x100_0000
    ensures Pow256(4) == 0x1_0000_0000 && Pow256(5) == 0x100_0000_0000
    ensures Pow256(6) == 0x1_0000_0000_0000 && Pow256(7) == 0x100_0000_0000_0000
    ensures Pow256(8) == TwoTo64
  {
  }

  // ---------------------------------------------------------------- fixed width

  /** The n low bytes of v, least significant first: byte(v), byte(v >> 8), ... */
  function LE(v: nat, n: nat): (s: seq<byte>)
    ensures |s| == n
  {
    if n == 0 then [] else [v % 256] + LE(v / 256, n - 1)
  }

  /** The number a little-endian byte string stands for. */
  function ValueLE(s: seq<byte>): (v: nat)
    ensures v < Pow256(|s|)
  {
    if |s| == 0 then 0 else s[0] + 256 * ValueLE(s[1..])
  }

  lemma MulBounds(k: int, d: int)
    requires d > 0
    ensures k >= 1 ==> k * d >= d
    ensures k <= -1 ==> k * d <= -d
  {
  }

  /** Euclidean division is unique. */
  lemma DivModUnique(v: int, d: int, q: int, r: int)
    requires 0 < d && 0 <= r < d && v == q * d + r
    ensures v / d == q && v % d == r
  {
    var q0, r0 := v / d, v % d;
    assert (q - q0) * d == r0 - r;
    MulBounds(q - q0, d);
  }

  /** Taking v apart into a low byte and the rest commutes with reduction modulo 256 * p. */
  lemma ModSplit(v: nat, p: nat)
    requires p >= 1
    ensures v % (256 * p) == v % 256 + 256 * ((v / 256) % p)
  {
    var q, r := v / 256, v % 256;
    var a, b := q / p, q % p;
    assert q == p * a + b;
    assert v == (256 * p) * a + (256 * b + r) by {
      assert v == 256 * q + r;
      assert 256 * q == 256 * (p * a) + 256 * b;
    }
    DivModUnique(v, 256 * p, a, 256 * b + r);
  }

  /**
   * WriteUint16/24/32/48/64 and ReadUint16/24/32/48/64: reading back the n
   * bytes written gives v reduced to n bytes, so v itself when it fits.
   */
  lemma {:induction false} LERoundTrip(v: nat, n: nat)
    ensures ValueLE(LE(v, n)) == v % Pow256(n)
  {
    if n > 0 {
      LERoundTrip(v / 256, n - 1);
      assert LE(v, n)[1..] == LE(v / 256, n - 1);
      ModSplit(v, Pow256(n - 1));
    }
  }

  /** Every byte string is the encoding of its own value. */
  lemma {:induction false} ValueLERoundTrip(s: seq<byte>)
    ensures LE(ValueLE(s), |s|) == s
  {
    if |s| > 0 {
      ValueLERoundTrip(s[1..]);
      var v := ValueLE(s);
      assert v % 256 == s[0] && v / 256 == ValueLE(s[1..]) by {
        Div256(v, ValueLE(s[1..]), s[0]);
      }
    }
  }

  /** A value that fits in n bytes reads back unchanged. */
  lemma LEExact(v: nat, n: nat)
    requires v < Pow256(n)
    ensures ValueLE(LE(v, n)) == v
  {
    LERoundTrip(v, n);
    DivModUnique(v, Pow256(n), 0, v);
  }

  /** The bytes a reader takes at the cursor after an n-byte write decode to v. */
  lemma FixedRoundTrip(v: nat, n: nat, rest: seq<byte>)
    requires v < Pow256(n)
    ensures ValueLE((LE(v, n) + rest)[..n]) == v
  {
    assert (LE(v, n) + rest)[..n] == LE(v, n);
    LEExact(v, n);
  }

  /** The n bytes of v, found after pre and followed by anything, decode to v. */
  lemma DecodeAt(pre: seq<byte>, v: nat, n: nat, rest: seq<byte>)
    requires v < Pow256(n)
    ensures |pre| + n <= |pre + LE(v, n) + rest|
    ensures ValueLE((pre + LE(v, n) + rest)[|pre|..|pre| + n]) == v
  {
    assert (pre + LE(v, n) + rest)[|pre|..|pre| + n] == LE(v, n);
    LEExact(v, n);
  }

  // ---------------------------------------------------------------- numbytes

  /** numbytes(v): how many bytes WriteUint64Variable spends on v (see NumBytesLeast). */
  function NumBytes(v: u64): (n: nat)
    ensures n <= 8
    ensures n == 0 <==> v == 0
    ensures v < Pow256(n)
  {
    Pow256Table();
    if v == 0 then 0
    else if v < 256 then 1
    else if v < 65536 then 2
    else if v < 16777216 then 3
    else if v < 4294967296 then 4
    else if v < 1099511627776 then 5
    else if v < 281474976710655 then 6
    else if v < 72057594037927936 then 7
    else 8
  }

  /**
   * numbytes(v) is the least n with v < 256^n, except at 2^48 - 1, where the
   * bound compared against is one too small and 7 is returned.
   */
  lemma NumBytesLeast(v: u64)
    ensures 0 < NumBytes(v) && v != 0xFFFF_FFFF_FFFF ==> Pow256(NumBytes(v) - 1) <= v
    ensures v == 0xFFFF_FFFF_FFFF ==> NumBytes(v) == 7
  {
    Pow256Table();
  }

  // ---------------------------------------------------------------- variable width

  /** The n value bytes of the variable-width encoding, as written: the fourth of eight is byte(v >> 25). */
  function BodyAsWritten(v: u64, n: nat): (s: seq<byte>)
    ensures |s| == n
  {
    if n < 8 then LE(v, n)
    else LE(v, 3) + [(v / 0x200_0000) % 256] + LE(v / 0x1_0000_0000, n - 4)
  }

  /** WriteUint64Variable as written: numbytes(v), then the value bytes of BodyAsWritten. */
  function VarintAsWritten(v: u64): (s: seq<byte>)
    ensures |s| == 1 + NumBytes(v) && s[0] == NumBytes(v)
  {
    [NumBytes(v)] + BodyAsWritten(v, NumBytes(v))
  }

  /** WriteUint64Variable, corrected: numbytes(v), then v in that many little-endian bytes. */
  function Varint(v: u64): (s: seq<byte>)
    ensures |s| == 1 + NumBytes(v) && s[0] == NumBytes(v)
  {
    [NumBytes(v)] + LE(v, NumBytes(v))
  }

  /** Go panics when a length byte between 1 and 8 asks for more bytes than there are. */
  predicate Readable(s: seq<byte>, at: nat, k: nat)
  {
    1 <= k <= 8 ==> at + k <= |s|
  }

  /** One case of the switch on a length byte: k bytes from at, or 0 outside 1..8. */
  function Field(s: seq<byte>, at: nat, k: nat): (v: u64)
    requires Readable(s, at, k)
    ensures 1 <= k <= 8 ==> v == ValueLE(s[at..at + k])
    ensures !(1 <= k <= 8) ==> v == 0
  {
    if 1 <= k <= 8 then
      Pow256Mono(k, 8);
      Pow256Eight();
      ValueLE(s[at..at + k])
    else 0
  }

  /** A field read from a suffix is the field read at the shifted position. */
  lemma FieldShift(s: seq<byte>, c: nat, at: nat, k: nat)
    requires c <= |s| && Readable(s[c..], at, k)
    ensures Readable(s, c + at, k) && Field(s[c..], at, k) == Field(s, c + at, k)
  {
    if 1 <= k <= 8 {
      assert s[c..][at..at + k] == s[c + at..c + at + k];
    }
  }

  /**
   * BytesReader.ReadUint64Variable on the bytes from the cursor: the value and
   * how far the cursor moves (a length byte above 8 reads nothing but still
   * moves the cursor).
   */
  function DecodeVarint(s: seq<byte>): (r: (u64, nat))
    requires |s| >= 1 && Readable(s, 1, s[0])
    ensures r.1 == 1 + s[0] as int
  {
    (Field(s, 1, s[0]), 1 + s[0] as int)
  }

  /** WriteUint64Variable then ReadUint64Variable gives v back, whatever follows. */
  lemma VarintRoundTrip(v: u64, rest: seq<byte>)
    ensures |Varint(v) + rest| >= 1 && Readable(Varint(v) + rest, 1, NumBytes(v))
    ensures DecodeVarint(Varint(v) + rest) == (v, |Varint(v)|)
  {
    var n := NumBytes(v);
    var s := Varint(v) + rest;
    assert Field(s, 1, n) == v by {
      DecodeAt([n], v, n, rest);
    }
  }

  /** Below 2^56 the encoding as written is the corrected one. */
  lemma BodyAsWrittenSmall(v: u64, n: nat)
    requires n < 8
    ensures BodyAsWritten(v, n) == LE(v, n)
  {
  }

  lemma VarintAsWrittenSmall(v: u64)
    requires v < 0x100_0000_0000_0000
    ensures VarintAsWritten(v) == Varint(v)
  {
    Pow256Table();
    NumBytesLeast(v);
  }

  /**
   * The 9-byte case as written loses bit 24: 2^56 + 2^24 is written with a
   * zero fourth value byte and reads back as 2^56.
   */
  lemma VarintAsWrittenCorrupts()
    ensures DecodeVarint(VarintAsWritten(0x100_0000_0100_0000)).0 == 0x100_0000_0000_0000
  {
    var v := 0x100_0000_0100_0000;
    Pow256Table();
    assert NumBytes(v) == 8;
    assert VarintAsWritten(v) == [8] + LE(0x100_0000_0000_0000, 8) + [];
    DecodeAt([8], 0x100_0000_0000_0000, 8, []);
  }

  /** Write2Uint64sVariable, corrected: a header 16 * numbytes(v1) + numbytes(v2), then both values. */
  function Varint2(v1: u64, v2: u64): (s: seq<byte>)
    ensures |s| == 1 + NumBytes(v1) + NumBytes(v2)
    ensures s[0] / 16 == NumBytes(v1) && s[0] % 16 == NumBytes(v2)
  {
    [16 * NumBytes(v1) + NumBytes(v2)] + LE(v1, NumBytes(v1)) + LE(v2, NumBytes(v2))
  }

  /** Write2Uint64sVariable as written, with the same byte(v >> 25) for either value. */
  function Varint2AsWritten(v1: u64, v2: u64): (s: seq<byte>)
    ensures |s| == 1 + NumBytes(v1) + NumBytes(v2)
  {
    [16 * NumBytes(v1) + NumBytes(v2)] + BodyAsWritten(v1, NumBytes(v1)) + BodyAsWritten(v2, NumBytes(v2))
  }

  /** BytesReader.Read2Uint64sVariable: both values and how far the cursor moves. */
  function DecodeVarint2(s: seq<byte>): (r: (u64, u64, nat))
    requires |s| >= 1 && Readable(s, 1, s[0] / 16) && Readable(s, 1 + s[0] / 16, s[0] % 16)
    ensures r.2 == 1 + s[0] as int / 16 + s[0] as int % 16
  {
    var s1, s2 := s[0] as int / 16, s[0] as int % 16;
    (Field(s, 1, s1), Field(s, 1 + s1, s2), 1 + s1 + s2)
  }

  /** The first value of a two-value encoding sits right after the header. */
  lemma Varint2First(v1: u64, v2: u64, rest: seq<byte>)
    ensures Readable(Varint2(v1, v2) + rest, 1, NumBytes(v1))
    ensures Field(Varint2(v1, v2) + rest, 1, NumBytes(v1)) == v1
  {
    var n1, n2 := NumBytes(v1), NumBytes(v2);
    var h := 16 * n1 + n2;
    assert Varint2(v1, v2) + rest == [h] + LE(v1, n1) + (LE(v2, n2) + rest);
    DecodeAt([h], v1, n1, LE(v2, n2) + rest);
  }

  /** The second value follows the first. */
  lemma Varint2Second(v1: u64, v2: u64, rest: seq<byte>)
    ensures Readable(Varint2(v1, v2) + rest, 1 + NumBytes(v1), NumBytes(v2))
    ensures Field(Varint2(v1, v2) + rest, 1 + NumBytes(v1), NumBytes(v2)) == v2
  {
    var n1, n2 := NumBytes(v1), NumBytes(v2);
    var h := 16 * n1 + n2;
    assert Varint2(v1, v2) + rest == ([h] + LE(v1, n1)) + LE(v2, n2) + rest;
    DecodeAt([h] + LE(v1, n1), v2, n2, rest);
  }

  /** Decoding two values from position c of s reads the fields of s after c. */
  lemma DecodeVarint2Shift(s: seq<byte>, c: nat)
    requires c < |s|
    requires Readable(s[c..], 1, s[c] / 16) && Readable(s[c..], 1 + s[c] / 16, s[c] % 16)
    ensures Readable(s, c + 1, s[c] / 16) && Readable(s, c + 1 + s[c] / 16, s[c] % 16)
    ensures DecodeVarint2(s[c..]) == (Field(s, c + 1, s[c] / 16), Field(s, c + 1 + s[c] / 16, s[c] % 16), 1 + s[c] / 16 + s[c] % 16)
  {
    var s1, s2 := s[c] / 16, s[c] % 16;
    assert s[c..][0] == s[c];
    FieldShift(s, c, 1, s1);
    FieldShift(s, c, 1 + s1, s2);
  }

  lemma Varint2RoundTrip(v1: u64, v2: u64, rest: seq<byte>)
    ensures |Varint2(v1, v2) + rest| >= 1
    ensures Readable(Varint2(v1, v2) + rest, 1, NumBytes(v1))
    ensures Readable(Varint2(v1, v2) + rest, 1 + NumBytes(v1), NumBytes(v2))
    ensures DecodeVarint2(Varint2(v1, v2) + rest) == (v1, v2, |Varint2(v1, v2)|)
  {
    Varint2First(v1, v2, rest);
    Varint2Second(v1, v2, rest);
    var s := Varint2(v1, v2) + rest;
    assert s[0] / 16 == NumBytes(v1) && s[0] % 16 == NumBytes(v2);
  }

  // ---------------------------------------------------------------- 16-bit variable

  /** WriteUint16Variable: one byte below 255, otherwise 255 and two bytes. */
  function Uint16Var(v: u16): (s: seq<byte>)
    ensures |s| == (if v < 255 then 1 else 3)
  {
    if v < 255 then [v] else [255] + LE(v, 2)
  }

  /** ReadUint16Variable: the value and the bytes consumed. */
  function DecodeUint16Var(s: seq<byte>): (r: (u16, nat))
    requires |s| >= 1 && (s[0] == 255 ==> |s| >= 3)
    ensures r.1 == (if s[0] < 255 then 1 else 3)
  {
    Pow256Table();
    if s[0] < 255 then (s[0], 1) else (ValueLE(s[1..3]), 3)
  }

  lemma Uint16VarRoundTrip(v: u16, rest: seq<byte>)
    ensures |Uint16Var(v) + rest| >= 1 && ((Uint16Var(v) + rest)[0] == 255 ==> |Uint16Var(v) + rest| >= 3)
    ensures DecodeUint16Var(Uint16Var(v) + rest) == (v, |Uint16Var(v)|)
  {
    if v >= 255 {
      Pow256Table();
      FixedRoundTrip(v, 2, rest);
      assert (Uint16Var(v) + rest)[1..3] == (LE(v, 2) + rest)[..2];
    }
  }

  /** int16(x) for the two bytes of a uint16. */
  function Signed16(x: u16): (r: int16)
    ensures r % 0x1_0000 == x
  {
    if x >= 0x8000 then x - 0x1_0000 else x
  }

  /** WriteInt16Variable: v + 127 in one byte for -128 < v < 128, otherwise 255 and uint16(v). */
  function Int16Var(v: int16): (s: seq<byte>)
    ensures |s| == (if -128 < v < 128 then 1 else 3)
  {
    if -128 < v < 128 then [v + 127] else [255] + LE(v % 0x1_0000, 2)
  }

  /** ReadInt16Variable: a byte below 255 less 127, otherwise the next two bytes as an int16. */
  function DecodeInt16Var(s: seq<byte>): (r: (int16, nat))
    requires |s| >= 1 && (s[0] == 255 ==> |s| >= 3)
    ensures r.1 == (if s[0] < 255 then 1 else 3)
  {
    Pow256Table();
    if s[0] < 255 then (s[0] as int - 127, 1) else (Signed16(ValueLE(s[1..3])), 3)
  }

  lemma Int16VarRoundTrip(v: int16, rest: seq<byte>)
    ensures |Int16Var(v) + rest| >= 1 && ((Int16Var(v) + rest)[0] == 255 ==> |Int16Var(v) + rest| >= 3)
    ensures DecodeInt16Var(Int16Var(v) + rest) == (v, |Int16Var(v)|)
  {
    if !(-128 < v < 128) {
      Pow256Table();
      FixedRoundTrip(v % 0x1_0000, 2, rest);
      assert (Int16Var(v) + rest)[1..3] == (LE(v % 0x1_0000, 2) + rest)[..2];
    }
  }

  // ---------------------------------------------------------------- bits

  /** WriteBool: 1 for true, 0 for false; ReadBool: any byte above 0 is true. */
  function BoolByte(v: bool): (b: byte)
    ensures (b > 0) == v
  {
    if v then 1 else 0
  }

  /** Write2Bools: bit 0 is v1 and bit 1 is v2. */
  function Pack2Bools(v1: bool, v2: bool): (b: byte)
    ensures b < 4
  {
    (if v1 then 1 else 0) + (if v2 then 2 else 0)
  }

  /** Read2Bools: the bytes 1, 2 and 3 set b1, b2 and both; any other byte sets neither. */
  function Unpack2Bools(c: byte): (r: (bool, bool))
    ensures c >= 4 ==> r == (false, false)
  {
    match c
    case 1 => (true, false)
    case 2 => (false, true)
    case 3 => (true, true)
    case _ => (false, false)
  }

  lemma Bools2RoundTrip(v1: bool, v2: bool)
    ensures Unpack2Bools(Pack2Bools(v1, v2)) == (v1, v2)
  {
  }

  function Flag(v: bool, mask: bv8): bv8
  {
    if v then mask else 0
  }

  /** Write8Bools: bit k is the (k+1)-th argument. */
  function Pack8Bools(v1: bool, v2: bool, v3: bool, v4: bool, v5: bool, v6: bool, v7: bool, v8: bool): (b: bv8)
    ensures v8 <==> b >= 128
  {
    Flag(v1, 1) | Flag(v2, 2) | Flag(v3, 4) | Flag(v4, 8)
      | Flag(v5, 16) | Flag(v6, 32) | Flag(v7, 64) | Flag(v8, 128)
  }

  /** Read8Bools: the eight tests c & mask > 0, from bit 0 up. */
  function Unpack8Bools(c: bv8): (r: seq<bool>)
    ensures |r| == 8
    ensures r[7] <==> c >= 128
  {
    [c & 1 != 0, c & 2 != 0, c & 4 != 0, c & 8 != 0, c & 16 != 0, c & 32 != 0, c & 64 != 0, c & 128 != 0]
  }

  lemma Bools8RoundTrip(v1: bool, v2: bool, v3: bool, v4: bool, v5: bool, v6: bool, v7: bool, v8: bool)
    ensures Unpack8Bools(Pack8Bools(v1, v2, v3, v4, v5, v6, v7, v8)) == [v1, v2, v3, v4, v5, v6, v7, v8]
  {
  }

  /** A byte keeps its value through bv8. */
  lemma ByteBits(b: bv8)
    ensures (b as int) as bv8 == b
  {
  }

  /** Write2Uint4s: v1 | v2 << 4 in one byte (the shift drops v2's high nibble). */
  function Pack2Uint4s(v1: bv8, v2: bv8): (b: bv8)
    ensures b & 15 == v1 & 15
  {
    v1 | (v2 << 4)
  }

  /** Read2Uint4s: the low and the high nibble. */
  function Unpack2Uint4s(c: bv8): (r: (bv8, bv8))
    ensures r.0 < 16 && r.1 < 16
    ensures c == r.0 | (r.1 << 4)
  {
    (c & 15, c >> 4)
  }

  /** The pair survives exactly when both values fit in four bits. */
  lemma Uint4sRoundTrip(v1: bv8, v2: bv8)
    ensures Unpack2Uint4s(Pack2Uint4s(v1, v2)) == (v1, v2) <==> v1 <= 15 && v2 <= 15
  {
  }

  // ---------------------------------------------------------------- length-prefixed

  /** The longest length a w-byte prefix can state, applied to n. */
  function Cap(n: nat, w: nat): (m: nat)
    ensures m <= n && m < Pow256(w)
    ensures m == n || m == Pow256(w) - 1
  {
    Min(n, Pow256(w) - 1)
  }

  /**
   * WriteBytes8/16/32 and WriteString8/16/32 with a w-byte length: the length
   * capped at 256^w - 1, then that many bytes of s.
   */
  function Prefixed(s: seq<byte>, w: nat): (e: seq<byte>)
    ensures |e| == w + Cap(|s|, w)
  {
    LE(Cap(|s|, w), w) + s[..Cap(|s|, w)]
  }

  /** The w-byte length at the start of s and the bytes it counts are all present. */
  predicate PrefixReadable(s: seq<byte>, w: nat)
  {
    w <= |s| && w + ValueLE(s[..w]) <= |s|
  }

  /** ReadBytes8/16/32 and ReadString8/16/32: the bytes after the length, and the bytes consumed. */
  function DecodePrefixed(s: seq<byte>, w: nat): (r: (seq<byte>, nat))
    requires PrefixReadable(s, w)
    ensures r.1 == w + |r.0|
  {
    var m := ValueLE(s[..w]);
    (s[w..w + m], w + m)
  }

  /** Reading back a length-prefixed string gives the string cut to the largest length the prefix can hold. */
  lemma PrefixedRoundTrip(s: seq<byte>, w: nat, rest: seq<byte>)
    ensures w <= |Prefixed(s, w) + rest|
    ensures ValueLE((Prefixed(s, w) + rest)[..w]) == Cap(|s|, w)
    ensures PrefixReadable(Prefixed(s, w) + rest, w)
    ensures DecodePrefixed(Prefixed(s, w) + rest, w) == (s[..Cap(|s|, w)], |Prefixed(s, w)|)
  {
    var m := Cap(|s|, w);
    var e := Prefixed(s, w) + rest;
    assert e == LE(m, w) + s[..m] + rest;
    assert e[..w] == LE(m, w);
    LEExact(m, w);
    assert e[w..w + m] == s[..m];
  }

  // ---------------------------------------------------------------- UTF-8

  /** A Unicode scalar value: a code point that is not a surrogate. */
  predicate Scalar(r: int)
  {
    0 <= r <= 0x10FFFF && !(0xD800 <= r <= 0xDFFF)
  }

  /** The three-byte form, used both for U+0800..U+FFFF and for the replacement character. */
  function Three(i: int): (s: seq<byte>)
    requires 0 <= i <= 0xFFFF
  {
    [0xE0 + i / 4096, 0x80 + (i / 64) % 64, 0x80 + i % 64]
  }

  /**
   * WriteRune: the UTF-8 form of section 3 of RFC 3629, switching on
   * uint32(r); surrogates and values above U+10FFFF (negative runes among
   * them) are written as U+FFFD.
   */
  function EncodeRune(r: int32): (s: seq<byte>)
    ensures 1 <= |s| <= 4
  {
    var i := r % 0x1_0000_0000;
    if i <= 0x7F then [i]
    else if i <= 0x7FF then [0xC0 + i / 64, 0x80 + i % 64]
    else if i > 0x10FFFF || 0xD800 <= i <= 0xDFFF then Three(0xFFFD)
    else if i <= 0xFFFF then Three(i)
    else [0xF0 + i / 0x4_0000, 0x80 + (i / 4096) % 64, 0x80 + (i / 64) % 64, 0x80 + i % 64]
  }

  predicate Cont(b: byte)
  {
    0x80 <= b <= 0xBF
  }

  /**
   * utf8.DecodeRune (the rune only): the scalar value a well-formed UTF-8
   * sequence at the head of s encodes (section 4 of RFC 3629), or U+FFFD.
   */
  function DecodeRune(s: seq<byte>): (r: int)
    ensures Scalar(r)
  {
    if |s| == 0 then 0xFFFD
    else if s[0] < 0x80 then s[0]
    else if 0xC2 <= s[0] <= 0xDF then
      if |s| >= 2 && Cont(s[1]) then (s[0] as int - 0xC0) * 64 + (s[1] as int - 0x80) else 0xFFFD
    else if 0xE0 <= s[0] <= 0xEF then
      if |s| >= 3 && Cont(s[1]) && Cont(s[2]) then
        var v := (s[0] as int - 0xE0) * 4096 + (s[1] as int - 0x80) * 64 + (s[2] as int - 0x80);
        if 0x800 <= v && !(0xD800 <= v <= 0xDFFF) then v else 0xFFFD
      else 0xFFFD
    else if 0xF0 <= s[0] <= 0xF4 then
      if |s| >= 4 && Cont(s[1]) && Cont(s[2]) && Cont(s[3]) then
        var v := (s[0] as int - 0xF0) * 0x4_0000 + (s[1] as int - 0x80) * 4096 + (s[2] as int - 0x80) * 64 + (s[3] as int - 0x80);
        if 0x1_0000 <= v <= 0x10FFFF then v else 0xFFFD
      else 0xFFFD
    else 0xFFFD
  }

  /** How many bytes ReadRune, ReadUTF8 and ReadUTF8Raw take, as written: 1, 2 or 3. */
  function RuneLengthAsWritten(b: byte): (n: nat)
    ensures 1 <= n <= 3
  {
    if b < 128 then 1 else if (b / 32) % 2 == 0 then 2 else 3
  }

  /** The corrected length: a lead byte 11110xxx starts a four-byte sequence. */
  function RuneLength(b: byte): (n: nat)
    ensures 1 <= n <= 4
    ensures n != 4 ==> n == RuneLengthAsWritten(b)
  {
    if b < 128 then 1 else if (b / 32) % 2 == 0 then 2 else if (b / 16) % 2 == 0 then 3 else 4
  }

  /** The two-byte form of 0x80 <= i <= 0x7FF decodes to i. */
  lemma TwoBytes(i: int)
    requires 0x80 <= i <= 0x7FF
    ensures DecodeRune([0xC0 + i / 64, 0x80 + i % 64]) == i
    ensures RuneLength(0xC0 + i / 64) == 2
  {
    var b := 0xC0 + i / 64;
    assert 0xC2 <= b <= 0xDF;
    assert (b / 32) % 2 == 0;
  }

  lemma ThreeBytes(i: int)
    requires 0x800 <= i <= 0xFFFF && !(0xD800 <= i <= 0xDFFF)
    ensures DecodeRune(Three(i)) == i
    ensures RuneLength(Three(i)[0]) == 3
  {
    var d0, c1 := i % 64, i / 64;
    var d1, d2 := c1 % 64, c1 / 64;
    assert i / 4096 == d2 by {
      DivModUnique(i, 4096, d2, d0 + 64 * d1);
    }
    var b := Three(i)[0];
    assert 0xE0 <= b <= 0xEF;
    assert (b / 32) % 2 == 1 && (b / 16) % 2 == 0;
  }

  lemma FourBytes(i: int)
    requires 0x1_0000 <= i <= 0x10FFFF
    ensures var s := [0xF0 + i / 0x4_0000, 0x80 + (i / 4096) % 64, 0x80 + (i / 64) % 64, 0x80 + i % 64];
      DecodeRune(s) == i && RuneLength(s[0]) == 4
  {
    var d0, c1 := i % 64, i / 64;
    var d1, c2 := c1 % 64, c1 / 64;
    var d2, d3 := c2 % 64, c2 / 64;
    assert i / 4096 == c2 by {
      DivModUnique(i, 4096, c2, d0 + 64 * d1);
    }
    assert i / 0x4_0000 == d3 by {
      DivModUnique(i, 0x4_0000, d3, d0 + 64 * d1 + 4096 * d2);
    }
    var b := 0xF0 + d3;
    assert 0xF0 <= b <= 0xF4;
    assert (b / 32) % 2 == 1 && (b / 16) % 2 == 1;
  }

  /**
   * WriteRune then a (corrected) ReadRune: the bytes read are exactly the
   * bytes written, and they decode to r when r is a scalar value and to
   * U+FFFD otherwise.
   */
  lemma RuneRoundTrip(r: int32)
    ensures RuneLength(EncodeRune(r)[0]) == |EncodeRune(r)|
    ensures DecodeRune(EncodeRune(r)) == if Scalar(r) then r else 0xFFFD
  {
    var i := r % 0x1_0000_0000;
    assert Scalar(r) ==> i == r;
    assert !Scalar(r) ==> i > 0x10FFFF || 0xD800 <= i <= 0xDFFF;
    var e := EncodeRune(r);
    if i <= 0x7F {
      assert e == [i];
    } else if i <= 0x7FF {
      assert e == [0xC0 + i / 64, 0x80 + i % 64];
      TwoBytes(i);
    } else if i > 0x10FFFF || 0xD800 <= i <= 0xDFFF {
      assert e == Three(0xFFFD);
      ThreeBytes(0xFFFD);
    } else if i <= 0xFFFF {
      assert e == Three(i);
      ThreeBytes(i);
    } else {
      assert e == [0xF0 + i / 0x4_0000, 0x80 + (i / 4096) % 64, 0x80 + (i / 64) % 64, 0x80 + i % 64];
      FourBytes(i);
    }
  }

  /** The lengths of section 3 of RFC 3629: 1 byte to U+007F, 2 to U+07FF, 3 to U+FFFF, else 4. */
  lemma RuneLengths(r: int32)
    requires Scalar(r)
    ensures |EncodeRune(r)| == if r <= 0x7F then 1 else if r <= 0x7FF then 2 else if r <= 0xFFFF then 3 else 4
  {
  }

  /**
   * The reader as written takes three bytes of a four-byte sequence: U+1F600
   * is written as F0 9F 98 80, read back as U+FFFD, and the cursor is left
   * on the last byte.
   */
  lemma ReadRuneAsWrittenLoses()
    ensures |EncodeRune(0x1F600)| == 4
    ensures RuneLengthAsWritten(EncodeRune(0x1F600)[0]) == 3
    ensures DecodeRune(EncodeRune(0x1F600)[..3]) == 0xFFFD
  {
    assert EncodeRune(0x1F600) == [0xF0, 0x9F, 0x98, 0x80];
  }
}
