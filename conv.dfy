/**
 * Decimal conversions (src/github.com/AlasdairF/Conv/conv.go): int to
 * decimal bytes with optional zero padding, decimal bytes back to int or
 * uint, the scanner that pulls the numbers (and page ranges) out of a byte
 * string, the numeric-character test and thousands grouping.
 *
 * Go's int and uint are 64 bits wide here and wrap around; the wrap is
 * written out with S64 and U64. Byte subtraction wraps modulo 256 (Digit).
 */
module Conv {
  import opened Words

  const TwoTo63: int := 0x8000_0000_0000_0000

  type int64 = x: int | -TwoTo63 <= x < TwoTo63

  const MinInt64: int := -TwoTo63

  /** x and y are equal modulo 2^64. */
  predicate Cong(x: int, y: int)
  {
    (x - y) % TwoTo64 == 0
  }

  /** The uint64 a Go computation wraps x to. */
  function U64(x: int): (r: u64)
    ensures Cong(r, x)
    ensures 0 <= x < TwoTo64 ==> r == x
  {
    x % TwoTo64
  }

  /** The int64 a Go computation wraps x to. */
  function S64(x: int): (r: int64)
    ensures Cong(r, x)
    ensures -TwoTo63 <= x < TwoTo63 ==> r == x
  {
    var u := x % TwoTo64;
    if u >= TwoTo63 then u - TwoTo64 else u
  }

  /** Wrapping depends only on the value modulo 2^64. */
  lemma S64Cong(x: int, y: int)
    requires Cong(x, y)
    ensures S64(x) == S64(y)
  {
    ModCong(x, y);
  }

  lemma U64Cong(x: int, y: int)
    requires Cong(x, y)
    ensures U64(x) == U64(y)
  {
    ModCong(x, y);
  }

  lemma ModCong(x: int, y: int)
    requires Cong(x, y)
    ensures x % TwoTo64 == y % TwoTo64
  {
    var k := (x - y) / TwoTo64;
    assert x == y + k * TwoTo64;
  }

  lemma CongTrans(x: int, y: int, z: int)
    requires Cong(x, y) && Cong(y, z)
    ensures Cong(x, z)
  {
    SumMultiple(x - y, y - z);
  }

  lemma CongAdd(a: int, b: int, c: int, d: int)
    requires Cong(a, b) && Cong(c, d)
    ensures Cong(a + c, b + d)
  {
    SumMultiple(a - b, c - d);
  }

  /** Multiplying both sides by d keeps a congruence. */
  lemma CongMul(d: int, m: int, p: int)
    requires Cong(m, p)
    ensures Cong(d * m, d * p)
  {
    var q := (m - p) / TwoTo64;
    assert m - p == q * TwoTo64;
    assert d * m - d * p == d * (m - p) == (d * q) * TwoTo64;
  }

  lemma SumMultiple(a: int, b: int)
    requires a % TwoTo64 == 0 && b % TwoTo64 == 0
    ensures (a + b) % TwoTo64 == 0
  {
    assert a == (a / TwoTo64) * TwoTo64;
    assert b == (b / TwoTo64) * TwoTo64;
    assert a + b == (a / TwoTo64 + b / TwoTo64) * TwoTo64;
  }

  function Pow10(k: nat): (p: nat)
    ensures 0 < p
  {
    if k == 0 then 1 else 10 * Pow10(k - 1)
  }

  /** 10^19 exceeds every int64. */
  lemma Pow10Nineteen()
    ensures Pow10(19) == 10_000_000_000_000_000_000
  {
    assert Pow10(1) == 10;
    assert Pow10(4) == 10000;
    assert Pow10(7) == 10000000;
    assert Pow10(10) == 10000000000;
    assert Pow10(13) == 10000000000000;
    assert Pow10(16) == 10000000000000000;
    assert Pow10(19) == 10000000000000000000;
  }

  /** No int64 has more than 19 digits. */
  lemma Int64Digits(u: nat)
    requires u < TwoTo63
    ensures |Decimal(u)| <= 19
  {
    Pow10Nineteen();
    DecimalLength(u, 19);
  }

  /** The digits table pair: digits01[j] and digits10[j] are the last and first digit of j. */
  function Digits01(j: int): byte
    requires 0 <= j < 100
  {
    48 + j % 10
  }

  function Digits10(j: int): byte
    requires 0 <= j < 100
  {
    48 + j / 10
  }

  /** The decimal digits of n, without leading zeros ("0" for zero). */
  function Decimal(n: nat): (d: seq<byte>)
    ensures 1 <= |d|
    ensures 10 <= n ==> 2 <= |d|
    ensures 100 <= n ==> 3 <= |d|
    ensures forall k :: 0 <= k < |d| ==> 48 <= d[k] <= 57
  {
    if n < 10 then [48 + n] else Decimal(n / 10) + [48 + n % 10]
  }

  /** A number below 10^k has at most k digits. */
  lemma {:induction false} DecimalLength(n: nat, k: nat)
    requires 1 <= k && n < Pow10(k)
    ensures |Decimal(n)| <= k
  {
    if n >= 10 {
      DecimalLength(n / 10, k - 1);
    }
  }

  /** The two-digit steps of format. */
  lemma DecimalTwo(u: nat)
    requires 100 <= u
    ensures Decimal(u) == Decimal(u / 100) + [Digits10(u % 100), Digits01(u % 100)]
  {
    assert (u / 10) / 10 == u / 100;
    assert (u / 10) % 10 == (u % 100) / 10;
  }

  /** n zero characters. */
  function Zeros(n: nat): (z: seq<byte>)
    ensures |z| == n && forall k :: 0 <= k < n ==> z[k] == 48
  {
    seq(n, k => 48)
  }

  function Abs(u: int): nat
  {
    if u < 0 then -u else u
  }

  /**
   * The text format and formatString produce: a minus sign for negative u,
   * then the digits of |u|, zero-filled on the left (after the sign) so that
   * the whole is at least `padding` characters wide.
   */
  function Formatted(u: int64, padding: int): (f: seq<byte>)
    ensures var n := (if u < 0 then 1 else 0) + |Decimal(Abs(u))|; |f| == if padding > n then padding else n
  {
    var d := Decimal(Abs(u));
    (if u < 0 then [45] else []) + Zeros(PadCount(u < 0, padding, |d|)) + d
  }

  /** How many zeros pad n digits to `padding` characters, the sign included. */
  function PadCount(neg: bool, padding: int, n: int): nat
  {
    var w := if neg then padding - 1 else padding;
    if w > n then w - n else 0
  }

  /**
   * format (Bytes, BytesPad): writes the digits two at a time from the right
   * into a 20-byte buffer, then the padding and the sign. It panics (an
   * index out of range) for the smallest int, whose negation is itself, and
   * for a padding above 20, which would run off the buffer.
   */
  method Format(u0: int64, padding: int) returns (r: seq<byte>)
    requires u0 != MinInt64 && padding <= 20
    ensures r == Formatted(u0, padding)
  {
    var u: int := u0;
    var neg := false;
    if u < 0 {
      neg := true;
      u := -u;
    } else {
      if u < 10 && padding == 0 {
        return [48 + u];
      }
    }
    var a := new byte[20](k => 0);
    Int64Digits(u);
    var i := PutDigits(a, u);
    var j := PadAndSign(a, i, neg, padding);
    return a[j..];
  }

  /**
   * The end of format: zero padding up to `padding` characters, then the
   * minus sign, in front of the digits at [i, 20).
   */
  method PadAndSign(a: array<byte>, i0: int, neg: bool, padding0: int) returns (i: int)
    requires a.Length == 20 && 1 <= i0 <= 20 && padding0 <= 20
    modifies a
    ensures 0 <= i <= i0
    ensures a[i..] == (if neg then [45] else []) + Zeros(PadCount(neg, padding0, 20 - i0)) + old(a[i0..])
  {
    i := i0;
    if padding0 != 0 {
      var padding := if neg then 21 - padding0 else 20 - padding0;
      i := PadZeros(a, i0, padding);
    }
    if neg {
      i := PutByte(a, i, 45);
    }
  }

  /** format's padding loop: zeros in front of [i0, 20) until position `padding`. */
  method PadZeros(a: array<byte>, i0: int, padding: int) returns (i: int)
    requires 0 <= i0 <= a.Length && 0 <= padding
    modifies a
    ensures i == if padding < i0 then padding else i0
    ensures a[i..] == Zeros(i0 - i) + old(a[i0..])
  {
    ghost var target := if padding < i0 then padding else i0;
    ghost var d := a[i0..];
    i := i0;
    while i > padding
      invariant target <= i <= i0
      invariant a[i..] == Zeros(i0 - i) + d
    {
      i := PutByte(a, i, 48);
      ZerosCons(i0 - i - 1, d);
    }
  }

  lemma ZerosCons(n: nat, d: seq<byte>)
    ensures [48] + (Zeros(n) + d) == Zeros(n + 1) + d
  {
  }

  /** Writes c just before position i. */
  method PutByte(a: array<byte>, i: int, c: byte) returns (j: int)
    requires 1 <= i <= a.Length
    modifies a
    ensures j == i - 1 && a[j..] == [c] + old(a[i..])
  {
    j := i - 1;
    a[j] := c;
  }

  /**
   * format's digit loops: the digits of u, two at a time from the right,
   * end at the buffer's end and start at i.
   */
  method PutDigits(a: array<byte>, u0: nat) returns (i: int)
    requires a.Length == 20 && |Decimal(u0)| <= 19
    modifies a
    ensures 1 <= i <= 20 && a[i..] == Decimal(u0)
  {
    var u := u0;
    i := 20;
    while u >= 100
      invariant 0 <= u && 0 <= i <= 20 && Decimal(u) + a[i..] == Decimal(u0)
    {
      i, u := PutPair(a, i, u);
    }
    i := PutLast(a, i, u);
  }

  /** One round of format's loop: the last two digits of u, from the table pair. */
  method PutPair(a: array<byte>, i0: int, u0: nat) returns (i: int, u: nat)
    requires 100 <= u0 && 0 <= i0 <= a.Length && |Decimal(u0)| + (a.Length - i0) <= 19 && a.Length == 20
    modifies a
    ensures i == i0 - 2 && u == u0 / 100
    ensures Decimal(u) + a[i..] == Decimal(u0) + old(a[i0..])
  {
    DecimalTwo(u0);
    var q := u0 / 100;
    var j := u0 - q * 100;
    i := PutByte(a, i0, Digits01(j));
    i := PutByte(a, i, Digits10(j));
    u := q;
  }

  /** format's code after the loop: the one or two digits of u below 100. */
  method PutLast(a: array<byte>, i0: int, u0: nat) returns (i: int)
    requires u0 < 100 && 0 <= i0 <= a.Length && |Decimal(u0)| + (a.Length - i0) <= 19 && a.Length == 20
    modifies a
    ensures 1 <= i <= i0 && a[i..] == Decimal(u0) + old(a[i0..])
  {
    var u := u0;
    i := i0;
    if u >= 10 {
      var q := u / 10;
      DecimalOne(u);
      i := PutByte(a, i, Digits01(u - q * 10));
      u := q;
    }
    i := PutByte(a, i, Digits01(u));
  }

  /** The one-digit step of format. */
  lemma DecimalOne(u: nat)
    requires 10 <= u
    ensures Decimal(u) == Decimal(u / 10) + [Digits01(u - u / 10 * 10)]
  {
  }

  /** The digit a byte stands for, with Go's wrapping byte subtraction c - '0'. */
  function Digit(c: byte): (d: byte)
    ensures 48 <= c <= 57 ==> d == c - 48
  {
    (c - 48) % 256
  }

  /** The exact value the loops of Int and Uint add up: digit k weighs 10^(|s| - 1 - k). */
  function Value(s: seq<byte>): (v: nat)
  {
    if s == [] then 0 else Digit(s[0]) * Pow10(|s| - 1) + Value(s[1..])
  }

  /** Appending a digit multiplies the value by ten and adds the digit. */
  lemma {:induction false} ValueSnoc(s: seq<byte>, c: byte)
    ensures Value(s + [c]) == Value(s) * 10 + Digit(c)
  {
    if s != [] {
      var t := s + [c];
      assert t[1..] == s[1..] + [c];
      ValueSnoc(s[1..], c);
      var d: int := Digit(s[0]);
      var p := Pow10(|s| - 1);
      assert Pow10(|t| - 1) == p * 10;
      MulTen(d, p, Value(s[1..]));
    }
  }

  lemma MulTen(d: int, p: int, v: int)
    ensures d * (p * 10) + v * 10 == (d * p + v) * 10
  {
  }

  /** Reading the digits of n back gives n. */
  lemma {:induction false} DecimalValue(n: nat)
    ensures Value(Decimal(n)) == n
  {
    if n < 10 {
    } else {
      DecimalValue(n / 10);
      ValueSnoc(Decimal(n / 10), 48 + n % 10);
    }
  }

  /** Leading zeros do not change the value. */
  lemma {:induction false} ValueZeros(k: nat, s: seq<byte>)
    ensures Value(Zeros(k) + s) == Value(s)
    decreases k
  {
    var z := Zeros(k) + s;
    if k > 0 {
      assert z[0] == 48 && z[1..] == Zeros(k - 1) + s;
      ValueCons(z);
      assert Digit(z[0]) == 0;
      ValueZeros(k - 1, s);
    } else {
      assert z == s;
    }
  }

  /**
   * The result of Int on a: the value of the digits, negated when a starts
   * with '-' (which Int reads as '0'), wrapped to 64 bits.
   */
  function IntOf(a: seq<byte>): int64
  {
    if |a| == 0 then 0
    else if a[0] == 45 then S64(-(Value([48] + a[1..]) as int))
    else S64(Value(a))
  }

  /** The result of Uint on a: the value of the digits, wrapped to 64 bits. */
  function UintOf(a: seq<byte>): u64
  {
    U64(Value(a))
  }

  /**
   * Int(a[lo:hi]): adds up the digits from the right with a running power
   * of ten, both wrapping at 64 bits. A leading '-' is overwritten in the
   * caller's buffer with '0' and negates the result.
   */
  method Int(a: array<byte>, lo: int, hi: int) returns (result: int64)
    requires 0 <= lo <= hi <= a.Length
    modifies a
    ensures result == IntOf(old(a[lo..hi]))
    ensures lo < hi && old(a[lo]) == 45 ==> a[..] == old(a[..])[lo := 48]
    ensures !(lo < hi && old(a[lo]) == 45) ==> a[..] == old(a[..])
  {
    if hi - lo == 0 {
      return 0;
    }
    var neg := false;
    if a[lo] == 45 {
      neg := true;
      a[lo] := 48;
      assert a[lo..hi] == [48] + old(a[lo..hi])[1..];
    }
    var v := SumDigits(a, lo, hi);
    result := v;
    if neg {
      CongMul(-1, v, Value(a[lo..hi]));
      S64Cong(-(v as int), -(Value(a[lo..hi]) as int));
      result := S64(-(result as int));
    }
  }

  /** The loop of Int: the digits of a[lo:hi] summed from the right, in int64 arithmetic. */
  method SumDigits(a: array<byte>, lo: int, hi: int) returns (result: int64)
    requires 0 <= lo <= hi <= a.Length
    ensures result == S64(Value(a[lo..hi]))
  {
    ghost var s := a[..];
    var m: int64 := 1;
    result := 0;
    var i := hi - 1;
    while i >= lo
      invariant lo - 1 <= i < hi
      invariant result == S64(Value(s[i + 1..hi]))
      invariant m == S64(Pow10(hi - 1 - i))
    {
      var d: int := Digit(a[i]);
      DigitRoundS64(s, i, hi);
      result := S64(result + S64(d * m));
      m := S64(m * 10);
      i := i - 1;
    }
    assert s[lo..hi] == a[lo..hi];
  }

  /** A round of Int's loop in int64 arithmetic, from the exact values of its state. */
  lemma DigitRoundS64(s: seq<byte>, i: int, hi: int)
    requires 0 <= i < hi <= |s|
    ensures var m := S64(Pow10(hi - 1 - i));
      S64(S64(Value(s[i + 1..hi])) + S64(Digit(s[i]) * m)) == S64(Value(s[i..hi])) &&
      S64(m * 10) == S64(Pow10(hi - 1 - (i - 1)))
  {
    var r: int := S64(Value(s[i + 1..hi]));
    var m: int := S64(Pow10(hi - 1 - i));
    var dm: int := S64(Digit(s[i]) * m);
    DigitRound(s, i, hi, r, m, dm, S64(r + dm), S64(m * 10));
    S64Cong(S64(r + dm), Value(s[i..hi]));
    S64Cong(S64(m * 10), Pow10(hi - 1 - (i - 1)));
  }

  /** A round of Uint's loop in uint64 arithmetic, from the exact values of its state. */
  lemma DigitRoundU64(s: seq<byte>, i: int, hi: int)
    requires 0 <= i < hi <= |s|
    ensures var m := U64(Pow10(hi - 1 - i));
      U64(U64(Value(s[i + 1..hi])) + U64(Digit(s[i]) * m)) == U64(Value(s[i..hi])) &&
      U64(m * 10) == U64(Pow10(hi - 1 - (i - 1)))
  {
    var r: int := U64(Value(s[i + 1..hi]));
    var m: int := U64(Pow10(hi - 1 - i));
    var dm: int := U64(Digit(s[i]) * m);
    DigitRound(s, i, hi, r, m, dm, U64(r + dm), U64(m * 10));
    U64Cong(U64(r + dm), Value(s[i..hi]));
    U64Cong(U64(m * 10), Pow10(hi - 1 - (i - 1)));
  }

  /**
   * One round of the loops of Int and Uint, on digit i: whether the product
   * dm, the sum r' and the next power m' are wrapped to int64 or to uint64,
   * they stay congruent to the exact value and power of ten.
   */
  lemma DigitRound(s: seq<byte>, i: int, hi: int, r: int, m: int, dm: int, r': int, m': int)
    requires 0 <= i < hi <= |s|
    requires Cong(r, Value(s[i + 1..hi])) && Cong(m, Pow10(hi - 1 - i))
    requires Cong(dm, Digit(s[i]) * m) && Cong(r', r + dm) && Cong(m', m * 10)
    ensures Cong(r', Value(s[i..hi])) && Cong(m', Pow10(hi - 1 - (i - 1)))
  {
    var k := hi - 1 - i;
    SliceValue(s, i, hi, k);
    AccStep(r, Digit(s[i]), m, Value(s[i + 1..hi]), Pow10(k), dm, r');
    PowStep(m, k, m');
  }

  /** Value of a slice, split at its first digit (of weight 10^k). */
  lemma SliceValue(s: seq<byte>, i: int, hi: int, k: int)
    requires 0 <= i < hi <= |s| && k == hi - 1 - i
    ensures Value(s[i..hi]) == Digit(s[i]) * Pow10(k) + Value(s[i + 1..hi])
    ensures hi - 1 - (i - 1) == k + 1
  {
    assert s[i..hi][1..] == s[i + 1..hi];
  }

  /** The sum of one round stays congruent to the exact value. */
  lemma AccStep(r: int, d: int, m: int, vt: int, p: int, dm: int, r': int)
    requires Cong(r, vt) && Cong(m, p)
    requires Cong(dm, d * m) && Cong(r', r + dm)
    ensures Cong(r', d * p + vt)
  {
    CongMul(d, m, p);
    CongTrans(dm, d * m, d * p);
    CongAdd(r, vt, dm, d * p);
    CongTrans(r', r + dm, vt + d * p);
  }

  /** The first digit of s weighs 10^(|s| - 1). */
  lemma ValueCons(s: seq<byte>)
    requires s != []
    ensures Value(s) == Digit(s[0]) * Pow10(|s| - 1) + Value(s[1..])
  {
  }

  /** The running power of ten, wrapped, times ten is the next one, wrapped. */
  lemma PowStep(m: int, k: nat, m': int)
    requires Cong(m, Pow10(k)) && Cong(m', m * 10)
    ensures Cong(m', Pow10(k + 1))
  {
    CongMul(10, m, Pow10(k));
    CongTrans(m', m * 10, Pow10(k + 1));
  }

  /** Uint(a): the loop of Int in uint64 arithmetic, with no sign handling. */
  method Uint(a: seq<byte>) returns (result: u64)
    ensures result == UintOf(a)
  {
    if |a| == 0 {
      return 0;
    }
    var hi := |a|;
    var m: u64 := 1;
    result := 0;
    var i := hi - 1;
    while i >= 0
      invariant -1 <= i < hi
      invariant result == U64(Value(a[i + 1..hi]))
      invariant m == U64(Pow10(hi - 1 - i))
    {
      var d: int := Digit(a[i]);
      DigitRoundU64(a, i, hi);
      result := U64(result + U64(d * m));
      m := U64(m * 10);
      i := i - 1;
    }
    assert a[0..hi] == a;
  }

  /** Int reads back every int format writes, whatever the padding. */
  lemma FormatIntRoundTrip(u: int64, padding: int)
    requires u != MinInt64
    ensures IntOf(Formatted(u, padding)) == u
  {
    var d := Decimal(Abs(u));
    var n := PadCount(u < 0, padding, |d|);
    DecimalValue(Abs(u));
    if u < 0 {
      FormattedNegative(u, padding);
      ValueZeros(n + 1, d);
    } else {
      FormattedNonNegative(u, padding);
      ValueZeros(n, d);
    }
  }

  /** A negative number's text, with its sign read as '0' the way Int reads it. */
  lemma FormattedNegative(u: int64, padding: int)
    requires u < 0
    ensures var d := Decimal(Abs(u)); var f := Formatted(u, padding);
      f != [] && f[0] == 45 && [48] + f[1..] == Zeros(PadCount(true, padding, |d|) + 1) + d
  {
  }

  /** A non-negative number's text: zeros and digits, so not starting with '-'. */
  lemma FormattedNonNegative(u: int64, padding: int)
    requires u >= 0
    ensures var d := Decimal(Abs(u)); var f := Formatted(u, padding);
      f != [] && f[0] != 45 && f == Zeros(PadCount(false, padding, |d|)) + d
  {
    var d := Decimal(Abs(u));
    var z := Zeros(PadCount(false, padding, |d|));
    assert Formatted(u, padding) == z + d by {
      assert [] + z == z;
    }
    if z == [] {
      assert (z + d)[0] == d[0] && 48 <= d[0];
    } else {
      assert (z + d)[0] == z[0] == 48;
    }
  }

  /** Uint reads back the decimal digits of every uint64. */
  lemma DecimalUintRoundTrip(n: u64)
    ensures UintOf(Decimal(n)) == n
  {
    DecimalValue(n);
  }

  /** Bytes: the plain decimal text of u, with a minus sign when negative. */
  method Bytes(u: int64) returns (r: seq<byte>)
    requires u != MinInt64
    ensures r == (if u < 0 then [45] else []) + Decimal(Abs(u))
  {
    r := Format(u, 0);
    assert Zeros(0) == [];
  }

  /** The table numeric: true for '-' and the ten digits, false for every other byte. */
  predicate Numeric(b: int)
  {
    b == 45 || 48 <= b <= 57
  }

  /** IsNumeric: every byte of p is a digit or '-'. */
  method IsNumeric(p: seq<byte>) returns (r: bool)
    ensures r <==> forall k :: 0 <= k < |p| ==> Numeric(p[k])
  {
    for k := 0 to |p|
      invariant forall j :: 0 <= j < k ==> Numeric(p[j])
    {
      if !Numeric(p[k]) {
        return false;
      }
    }
    return true;
  }

  /**
   * IsNumericString: the same test over the runes of a string; a rune
   * outside the byte range is never numeric.
   */
  method IsNumericString(p: seq<int>) returns (r: bool)
    ensures r <==> forall k :: 0 <= k < |p| ==> Numeric(p[k])
  {
    for k := 0 to |p|
      invariant forall j :: 0 <= j < k ==> Numeric(p[j])
    {
      var b := p[k];
      if b > 255 || b < 0 {
        return false;
      }
      if !Numeric(b) {
        return false;
      }
    }
    return true;
  }

  /** format's output always passes IsNumeric. */
  lemma FormatNumeric(u: int64, padding: int)
    ensures forall k :: 0 <= k < |Formatted(u, padding)| ==> Numeric(Formatted(u, padding)[k])
  {
    var d := Decimal(Abs(u));
    var z := Zeros(PadCount(u < 0, padding, |d|));
    var sign: seq<byte> := if u < 0 then [45] else [];
    assert Formatted(u, padding) == sign + z + d;
    forall k | 0 <= k < |sign + z + d|
      ensures Numeric((sign + z + d)[k])
    {
      if k < |sign| {
      } else if k < |sign| + |z| {
        assert (sign + z + d)[k] == z[k - |sign|];
      } else {
        assert (sign + z + d)[k] == d[k - |sign| - |z|];
      }
    }
  }

  // Thousands grouping

  /** num split into groups of three from the right, with mark between the groups. */
  function Grouped(num: seq<byte>, mark: byte): (g: seq<byte>)
    ensures |num| <= |g|
    decreases |num|
  {
    if |num| <= 3 then num
    else Grouped(num[..|num| - 3], mark) + [mark] + num[|num| - 3..]
  }

  /** One mark per full group of three after the first byte. */
  lemma {:induction false} GroupedLength(num: seq<byte>, mark: byte)
    ensures |Grouped(num, mark)| == |num| + (if |num| == 0 then 0 else (|num| - 1) / 3)
    decreases |num|
  {
    if |num| > 3 {
      GroupedLength(num[..|num| - 3], mark);
    }
  }

  /** A suffix of num takes no more room grouped than num does. */
  lemma GroupedSuffix(num: seq<byte>, l: int, mark: byte)
    requires 0 <= l <= |num|
    ensures |Grouped(num[l..], mark)| <= |Grouped(num, mark)|
  {
    GroupedLength(num[l..], mark);
    GroupedLength(num, mark);
  }

  /**
   * Grouping from the right, one byte c at the front: a mark follows c
   * exactly when the rest is a non-empty multiple of three long.
   */
  lemma {:induction false} GroupedCons(c: byte, t: seq<byte>, mark: byte)
    ensures Grouped([c] + t, mark) ==
      if |t| > 0 && |t| % 3 == 0 then [c] + ([mark] + Grouped(t, mark)) else [c] + Grouped(t, mark)
    decreases |t|
  {
    var s := [c] + t;
    if |t| > 3 {
      var t' := t[..|t| - 3];
      assert s[..|s| - 3] == [c] + t' && s[|s| - 3..] == t[|t| - 3..];
      GroupedCons(c, t', mark);
    } else if |t| == 3 {
      assert s[..|s| - 3] == [c] && s[|s| - 3..] == t;
    }
  }

  /** s with every occurrence of c removed. */
  function Without(s: seq<byte>, c: byte): (r: seq<byte>)
    ensures |r| <= |s|
  {
    if s == [] then [] else (if s[0] == c then [] else [s[0]]) + Without(s[1..], c)
  }

  lemma {:induction false} WithoutConcat(s: seq<byte>, t: seq<byte>, c: byte)
    ensures Without(s + t, c) == Without(s, c) + Without(t, c)
  {
    if s == [] {
      assert s + t == t;
    } else {
      assert (s + t)[0] == s[0] && (s + t)[1..] == s[1..] + t;
      WithoutConcat(s[1..], t, c);
    }
  }

  lemma {:induction false} WithoutAbsent(s: seq<byte>, c: byte)
    requires forall k :: 0 <= k < |s| ==> s[k] != c
    ensures Without(s, c) == s
  {
    if s != [] {
      WithoutAbsent(s[1..], c);
    }
  }

  /** Removing marks across a mark joins what is left on both sides. */
  lemma WithoutMark(g: seq<byte>, l: seq<byte>, mark: byte)
    ensures Without(g + [mark] + l, mark) == Without(g, mark) + Without(l, mark)
  {
    WithoutConcat(g + [mark], l, mark);
    WithoutConcat(g, [mark], mark);
    assert [mark][1..] == [];
    assert Without([mark], mark) == [];
    assert Without(g, mark) + [] == Without(g, mark);
  }

  /** Removing the marks gives back the digits, when the mark is not one of them. */
  lemma {:induction false} GroupedWithout(num: seq<byte>, mark: byte)
    requires forall k :: 0 <= k < |num| ==> num[k] != mark
    ensures Without(Grouped(num, mark), mark) == num
    decreases |num|
  {
    if |num| <= 3 {
      WithoutAbsent(num, mark);
    } else {
      var h := num[..|num| - 3];
      var l := num[|num| - 3..];
      var g := Grouped(h, mark);
      assert Without(g, mark) == h by {
        GroupedWithout(h, mark);
      }
      assert Without(l, mark) == l by {
        WithoutAbsent(l, mark);
      }
      assert Without(g + [mark] + l, mark) == Without(g, mark) + Without(l, mark) by {
        WithoutMark(g, l, mark);
      }
      assert h + l == num;
    }
  }

  /**
   * FormatThousands: copies num into a buffer from the right, putting mark
   * before every fourth byte. Go's (l - 1) / 3 truncates, so an empty num
   * gives an empty buffer. Here l2 is one past the index Go's l2 holds.
   */
  method FormatThousands(num: seq<byte>, mark: byte) returns (r: seq<byte>)
    ensures r == Grouped(num, mark)
  {
    var l := |num|;
    var l2 := l + (if l == 0 then 0 else (l - 1) / 3);
    var newar := new byte[l2];
    GroupedLength(num, mark);
    var i := 0;
    l := l - 1;
    ghost var k: nat := 0;
    while l >= 0
      invariant -1 <= l < |num|
      invariant 0 <= l2 <= newar.Length == |Grouped(num, mark)|
      invariant newar[l2..] == Grouped(num[l + 1..], mark)
      invariant k == |num| - 1 - l && i == GroupCount(k)
    {
      i, l2 := ThousandsStep(newar, num, mark, l, l2, i, k);
      l := l - 1;
      k := k + 1;
    }
    assert num[0..] == num;
    assert l2 == 0 && newar[..] == newar[l2..];
    return newar[..];
  }

  /**
   * The counter i of FormatThousands after k bytes: the size of the group
   * being filled, starting again at 1 after a full group of three.
   */
  function GroupCount(k: nat): (i: int)
    ensures 0 <= i <= 3
  {
    if k == 0 then 0 else if GroupCount(k - 1) == 3 then 1 else GroupCount(k - 1) + 1
  }

  /** The counter is the position in the current group of three. */
  lemma {:induction false} GroupCountMod(k: nat)
    ensures GroupCount(k) == if k == 0 then 0 else (k - 1) % 3 + 1
  {
    if k > 0 {
      GroupCountMod(k - 1);
    }
  }

  /** The counter shows a full group exactly after a non-zero multiple of three. */
  lemma GroupFull(k: nat)
    ensures GroupCount(k) == 3 <==> k > 0 && k % 3 == 0
  {
    GroupCountMod(k);
    if k > 0 {
      assert k == (k - 1) / 3 * 3 + (k - 1) % 3 + 1;
    }
  }

  /** One round of the loop of FormatThousands: the byte num[l], after a mark when a group is full. */
  method ThousandsStep(newar: array<byte>, num: seq<byte>, mark: byte, l: int, l20: int, i0: int, ghost k: nat)
    returns (i: int, l2: int)
    requires 0 <= l < |num| && k == |num| - 1 - l && newar.Length == |Grouped(num, mark)|
    requires 0 <= l20 <= newar.Length && newar[l20..] == Grouped(num[l + 1..], mark)
    requires i0 == GroupCount(k)
    modifies newar
    ensures 0 <= l2 <= newar.Length && newar[l2..] == Grouped(num[l..], mark)
    ensures i == GroupCount(k + 1)
  {
    var t := num[l + 1..];
    assert |t| == k && num[l..] == [num[l]] + t;
    GroupedSuffix(num, l, mark);
    i, l2 := i0 + 1, l20;
    if i == 4 {
      GroupedConsMark(num[l], t, mark);
      l2 := PutByte(newar, l2, mark);
      i := 1;
      l2 := PutByte(newar, l2, num[l]);
    } else {
      GroupedConsPlain(num[l], t, mark);
      l2 := PutByte(newar, l2, num[l]);
    }
  }

  /** After a full group, the next byte goes in front of a mark. */
  lemma GroupedConsMark(c: byte, t: seq<byte>, mark: byte)
    requires GroupCount(|t|) == 3
    ensures Grouped([c] + t, mark) == [c] + ([mark] + Grouped(t, mark))
  {
    GroupFull(|t|);
    GroupedCons(c, t, mark);
  }

  /** Within a group, the next byte goes straight in front. */
  lemma GroupedConsPlain(c: byte, t: seq<byte>, mark: byte)
    requires GroupCount(|t|) != 3
    ensures Grouped([c] + t, mark) == [c] + Grouped(t, mark)
  {
    GroupFull(|t|);
    GroupedCons(c, t, mark);
  }

  // The number scanner of Ints and Uints

  predicate IsDigit(b: byte)
  {
    48 <= b <= 57
  }

  /**
   * The texts of the numbers the scanner of Ints and Uints finds in s, given
   * its state before s: whether it is inside a number (inn), whether the
   * byte before was a hyphen, and the text of the current number so far
   * (cur). A number is a run of digits, with the hyphen just before it when
   * there is one; it ends at a hyphen, at any other byte or at the end.
   */
  function Tokens(s: seq<byte>, inn: bool, hyphen: bool, cur: seq<byte>): seq<seq<byte>>
    decreases |s|
  {
    var done := if inn && !hyphen then [cur] else [];
    if s == [] then done
    else if IsDigit(s[0]) then Tokens(s[1..], true, false, (if inn then cur else []) + [s[0]])
    else if s[0] == 45 then done + Tokens(s[1..], true, true, [45])
    else done + Tokens(s[1..], false, false, [])
  }

  /** The texts of the numbers in s, from the scanner's initial state. */
  function Numbers(s: seq<byte>): seq<seq<byte>>
  {
    Tokens(s, false, false, [])
  }

  /** The scan of a[i..] at a digit: the digit joins the current number. */
  lemma TokensDigit(a: seq<byte>, i: int, inn: bool, hyphen: bool, cur: seq<byte>)
    requires 0 <= i < |a| && IsDigit(a[i])
    ensures Tokens(a[i..], inn, hyphen, cur) == Tokens(a[i + 1..], true, false, (if inn then cur else []) + [a[i]])
  {
    assert a[i..][0] == a[i] && a[i..][1..] == a[i + 1..];
  }

  /** The scan of a[i..] at a hyphen: the current number ends and a new one starts. */
  lemma TokensHyphen(a: seq<byte>, i: int, inn: bool, hyphen: bool, cur: seq<byte>)
    requires 0 <= i < |a| && a[i] == 45
    ensures Tokens(a[i..], inn, hyphen, cur) == (if inn && !hyphen then [cur] else []) + Tokens(a[i + 1..], true, true, [45])
  {
    assert a[i..][0] == a[i] && a[i..][1..] == a[i + 1..];
  }

  /** The scan of a[i..] at any other byte: the current number ends. */
  lemma TokensOther(a: seq<byte>, i: int, inn: bool, hyphen: bool, cur: seq<byte>)
    requires 0 <= i < |a| && !IsDigit(a[i]) && a[i] != 45
    ensures Tokens(a[i..], inn, hyphen, cur) == (if inn && !hyphen then [cur] else []) + Tokens(a[i + 1..], false, false, [])
  {
    assert a[i..][0] == a[i] && a[i..][1..] == a[i + 1..];
  }

  /** A byte that is neither a digit nor '-' separates: the scan splits there. */
  lemma {:induction false} TokensSeparator(s: seq<byte>, o: byte, t: seq<byte>, inn: bool, hyphen: bool, cur: seq<byte>)
    requires !IsDigit(o) && o != 45
    ensures Tokens(s + [o] + t, inn, hyphen, cur) == Tokens(s, inn, hyphen, cur) + Numbers(t)
    decreases |s|
  {
    var u := s + [o] + t;
    if s == [] {
      assert u[1..] == t;
    } else {
      assert u[1..] == s[1..] + [o] + t;
      if IsDigit(s[0]) {
        TokensSeparator(s[1..], o, t, true, false, (if inn then cur else []) + [s[0]]);
      } else if s[0] == 45 {
        TokensSeparator(s[1..], o, t, true, true, [45]);
      } else {
        TokensSeparator(s[1..], o, t, false, false, []);
      }
    }
  }

  /** The numbers of s, a separator, t: those of s, then those of t. */
  lemma NumbersSeparator(s: seq<byte>, o: byte, t: seq<byte>)
    requires !IsDigit(o) && o != 45
    ensures Numbers(s + [o] + t) == Numbers(s) + Numbers(t)
  {
    TokensSeparator(s, o, t, false, false, []);
  }

  predicate AllDigits(d: seq<byte>)
  {
    forall k :: 0 <= k < |d| ==> IsDigit(d[k])
  }

  /** A run of digits extends the current number (or starts one). */
  lemma {:induction false} TokensDigits(d: seq<byte>, t: seq<byte>, inn: bool, hyphen: bool, cur: seq<byte>)
    requires d != [] && AllDigits(d)
    ensures Tokens(d + t, inn, hyphen, cur) == Tokens(t, true, false, (if inn then cur else []) + d)
    decreases |d|
  {
    var u := d + t;
    var c := (if inn then cur else []) + [d[0]];
    assert u[0] == d[0] && u[1..] == d[1..] + t;
    if |d| > 1 {
      TokensDigits(d[1..], t, true, false, c);
      assert c + d[1..] == (if inn then cur else []) + d;
    } else {
      assert d[1..] + t == t && c == (if inn then cur else []) + d;
    }
  }

  /**
   * A page range x-y holds two numbers, the second with its hyphen: Ints
   * reads x and -y, Uints reads x and y with '-' counted as digit 253.
   */
  lemma NumbersRange(x: seq<byte>, y: seq<byte>)
    requires x != [] && AllDigits(x) && y != [] && AllDigits(y)
    ensures Numbers(x + [45] + y) == [x, [45] + y]
  {
    var u := [45] + y;
    assert x + [45] + y == x + u && [] + x == x;
    TokensDigits(x, u, false, false, []);
    assert u[0] == 45 && u[1..] == y + [];
    TokensDigits(y, [], true, true, [45]);
    assert Tokens(u, true, false, x) == [x] + Tokens(y + [], true, true, [45]);
    assert Tokens([], true, false, [45] + y) == [u];
  }

  /** A lone number, with or without a hyphen in front, is the only one. */
  lemma NumbersSingle(x: seq<byte>)
    requires x != [] && AllDigits(x)
    ensures Numbers(x) == [x]
    ensures Numbers([45] + x) == [[45] + x]
  {
    assert x + [] == x && [] + x == x;
    TokensDigits(x, [], false, false, []);
    assert Tokens([], true, false, [] + x) == [x];
    var u := [45] + x;
    assert u[0] == 45 && u[1..] == x + [];
    TokensDigits(x, [], true, true, [45]);
    assert Tokens([], true, false, [45] + x) == [u];
  }

  /** The text of a number: digits, ending in a digit, with at most a hyphen in front. */
  predicate NumberText(t: seq<byte>)
  {
    t != [] && IsDigit(t[|t| - 1]) && forall k :: 0 <= k < |t| ==> IsDigit(t[k]) || (k == 0 && t[k] == 45)
  }

  /** What the scanner keeps as the current number is a number text, or a lone hyphen. */
  predicate CurText(inn: bool, hyphen: bool, cur: seq<byte>)
  {
    inn ==> if hyphen then cur == [45] else NumberText(cur)
  }

  /** Every number the scanner finds has the shape of a number. */
  lemma {:induction false} TokensShape(s: seq<byte>, inn: bool, hyphen: bool, cur: seq<byte>)
    requires CurText(inn, hyphen, cur)
    ensures forall k :: 0 <= k < |Tokens(s, inn, hyphen, cur)| ==> NumberText(Tokens(s, inn, hyphen, cur)[k])
    decreases |s|
  {
    if s != [] {
      if IsDigit(s[0]) {
        var c := (if inn then cur else []) + [s[0]];
        assert NumberText(c);
        TokensShape(s[1..], true, false, c);
      } else if s[0] == 45 {
        TokensShape(s[1..], true, true, [45]);
      } else {
        TokensShape(s[1..], false, false, []);
      }
    }
  }

  /** Uints: the numbers of a, each read with Uint. */
  method Uints(a: seq<byte>) returns (pages: seq<u64>)
    ensures |pages| == |Numbers(a)|
    ensures forall k :: 0 <= k < |pages| ==> pages[k] == UintOf(Numbers(a)[k])
  {
    pages := [];
    var inn, hyphen := false, false;
    var last := 0;
    ghost var cur: seq<byte> := [];
    ghost var toks: seq<seq<byte>> := [];
    for i := 0 to |a|
      invariant inn ==> 0 <= last < i && cur == a[last..i]
      invariant !inn ==> cur == []
      invariant Numbers(a) == toks + Tokens(a[i..], inn, inn && hyphen, cur)
      invariant |pages| == |toks| && forall k :: 0 <= k < |pages| ==> pages[k] == UintOf(toks[k])
    {
      pages, toks, inn, hyphen, last, cur := UintsStep(a, i, pages, toks, inn, hyphen, last, cur);
    }
    assert a[|a|..] == [];
    if inn && !hyphen {
      assert a[last..] == cur;
      var v := Uint(a[last..]);
      pages := pages + [v];
      toks := toks + [cur];
    }
  }

  /** One round of the loop of Uints, on the byte a[i]. */
  method UintsStep(a: seq<byte>, i: int, pages0: seq<u64>, ghost toks0: seq<seq<byte>>, inn0: bool, hyphen0: bool, last0: int, ghost cur0: seq<byte>)
    returns (pages: seq<u64>, ghost toks: seq<seq<byte>>, inn: bool, hyphen: bool, last: int, ghost cur: seq<byte>)
    requires 0 <= i < |a|
    requires inn0 ==> 0 <= last0 < i && cur0 == a[last0..i]
    requires !inn0 ==> cur0 == []
    requires |pages0| == |toks0| && forall k :: 0 <= k < |pages0| ==> pages0[k] == UintOf(toks0[k])
    ensures inn ==> 0 <= last < i + 1 && cur == a[last..i + 1]
    ensures !inn ==> cur == []
    ensures toks0 + Tokens(a[i..], inn0, inn0 && hyphen0, cur0) == toks + Tokens(a[i + 1..], inn, inn && hyphen, cur)
    ensures |pages| == |toks| && forall k :: 0 <= k < |pages| ==> pages[k] == UintOf(toks[k])
  {
    pages, toks, inn, hyphen, last, cur := pages0, toks0, inn0, hyphen0, last0, cur0;
    var b := a[i];
    if 48 <= b <= 57 {
      TokensDigit(a, i, inn0, inn0 && hyphen0, cur0);
      if !inn {
        inn := true;
        last := i;
      }
      hyphen := false;
      cur := (if inn0 then cur0 else []) + [b];
      assert a[last..i + 1] == a[last..i] + [b];
      assert Tokens(a[i..], inn0, inn0 && hyphen0, cur0) == Tokens(a[i + 1..], inn, inn && hyphen, cur);
    } else if b == 45 {
      TokensHyphen(a, i, inn0, inn0 && hyphen0, cur0);
      if inn {
        if !hyphen {
          var v := Uint(a[last..i]);
          pages := pages + [v];
          toks := toks + [cur0];
        }
        last := i;
        hyphen := true;
      } else {
        inn := true;
        last := i;
        hyphen := true;
      }
      cur := [45];
      assert a[last..i + 1] == [b];
      assert toks == toks0 + (if inn0 && !(inn0 && hyphen0) then [cur0] else []);
      assert Tokens(a[i..], inn0, inn0 && hyphen0, cur0) == (if inn0 && !(inn0 && hyphen0) then [cur0] else []) + Tokens(a[i + 1..], inn, inn && hyphen, cur);
    } else {
      TokensOther(a, i, inn0, inn0 && hyphen0, cur0);
      if inn {
        if !hyphen {
          var v := Uint(a[last..i]);
          pages := pages + [v];
          toks := toks + [cur0];
        }
        inn := false;
      }
      cur := [];
      assert toks == toks0 + (if inn0 && !(inn0 && hyphen0) then [cur0] else []);
      assert Tokens(a[i..], inn0, inn0 && hyphen0, cur0) == (if inn0 && !(inn0 && hyphen0) then [cur0] else []) + Tokens(a[i + 1..], inn, inn && hyphen, cur);
    }
  }

  /**
   * s with the hyphen of each number that starts before position b read as
   * '0': what Int leaves in the caller's buffer.
   */
  function Signless(s: seq<byte>, b: int): (r: seq<byte>)
    ensures |r| == |s|
  {
    seq(|s|, k requires 0 <= k < |s| => if k < b && s[k] == 45 && k + 1 < |s| && IsDigit(s[k + 1]) then 48 else s[k])
  }

  /** Position b holds no hyphen of a number, so moving the bound past it changes nothing. */
  lemma SignlessSkip(s: seq<byte>, b: int)
    requires 0 <= b < |s| && !(s[b] == 45 && b + 1 < |s| && IsDigit(s[b + 1]))
    ensures Signless(s, b) == Signless(s, b + 1)
  {
  }

  /** Nothing from position b on has been touched. */
  lemma SignlessFrom(s: seq<byte>, b: int, lo: int, hi: int)
    requires 0 <= b <= lo <= hi <= |s|
    ensures Signless(s, b)[lo..hi] == s[lo..hi]
  {
  }

  /**
   * Reading the number s[last..i] with Int moves the bound from last to i:
   * its hyphen, if any, turns into '0'.
   */
  lemma SignlessNumber(s: seq<byte>, last: int, i: int)
    requires 0 <= last < i <= |s| && NumberText(s[last..i])
    ensures s[last] == 45 ==> Signless(s, last)[last := 48] == Signless(s, i)
    ensures s[last] != 45 ==> Signless(s, last) == Signless(s, i)
  {
    var t := s[last..i];
    assert t[0] == s[last];
    if s[last] == 45 {
      assert |t| >= 2 && IsDigit(t[1]) && t[1] == s[last + 1];
    }
    forall k | last < k < i
      ensures IsDigit(s[k])
    {
      assert s[k] == t[k - last];
    }
  }

  /** Ints: the numbers of a, each read with Int, which zeroes their hyphens in a. */
  method Ints(a: array<byte>) returns (pages: seq<int64>)
    modifies a
    ensures |pages| == |Numbers(old(a[..]))|
    ensures forall k :: 0 <= k < |pages| ==> pages[k] == IntOf(Numbers(old(a[..]))[k])
    ensures a[..] == Signless(old(a[..]), a.Length)
  {
    ghost var orig := a[..];
    pages := [];
    var inn, hyphen := false, false;
    var last := 0;
    ghost var cur: seq<byte> := [];
    ghost var toks: seq<seq<byte>> := [];
    assert a[..] == Signless(orig, 0);
    for i := 0 to a.Length
      invariant inn ==> 0 <= last < i && cur == orig[last..i]
      invariant !inn ==> cur == []
      invariant CurText(inn, hyphen, cur)
      invariant Numbers(orig) == toks + Tokens(orig[i..], inn, inn && hyphen, cur)
      invariant |pages| == |toks| && forall k :: 0 <= k < |pages| ==> pages[k] == IntOf(toks[k])
      invariant a[..] == Signless(orig, if inn then last else i)
    {
      pages, toks, inn, hyphen, last, cur := IntsStep(a, orig, i, pages, toks, inn, hyphen, last, cur);
    }
    assert orig[a.Length..] == [];
    if inn && !hyphen {
      pages, toks := AppendInt(a, orig, last, a.Length, pages, toks);
    } else if inn {
      SignlessSkip(orig, last);
    }
  }

  /** One round of the loop of Ints, on the byte a[i]. */
  method IntsStep(a: array<byte>, ghost orig: seq<byte>, i: int, pages0: seq<int64>, ghost toks0: seq<seq<byte>>,
                  inn0: bool, hyphen0: bool, last0: int, ghost cur0: seq<byte>)
    returns (pages: seq<int64>, ghost toks: seq<seq<byte>>, inn: bool, hyphen: bool, last: int, ghost cur: seq<byte>)
    requires a.Length == |orig| && 0 <= i < |orig|
    requires inn0 ==> 0 <= last0 < i && cur0 == orig[last0..i]
    requires !inn0 ==> cur0 == []
    requires CurText(inn0, hyphen0, cur0)
    requires |pages0| == |toks0| && forall k :: 0 <= k < |pages0| ==> pages0[k] == IntOf(toks0[k])
    requires a[..] == Signless(orig, if inn0 then last0 else i)
    modifies a
    ensures inn ==> 0 <= last < i + 1 && cur == orig[last..i + 1]
    ensures !inn ==> cur == []
    ensures CurText(inn, hyphen, cur)
    ensures toks0 + Tokens(orig[i..], inn0, inn0 && hyphen0, cur0) == toks + Tokens(orig[i + 1..], inn, inn && hyphen, cur)
    ensures |pages| == |toks| && forall k :: 0 <= k < |pages| ==> pages[k] == IntOf(toks[k])
    ensures a[..] == Signless(orig, if inn then last else i + 1)
  {
    pages, toks, inn, hyphen, last, cur := pages0, toks0, inn0, hyphen0, last0, cur0;
    var b := a[i];
    assert b == orig[i];
    if 48 <= b <= 57 {
      TokensDigit(orig, i, inn0, inn0 && hyphen0, cur0);
      if !inn {
        inn := true;
        last := i;
      }
      hyphen := false;
      cur := (if inn0 then cur0 else []) + [b];
      assert orig[last..i + 1] == orig[last..i] + [b];
      assert Tokens(orig[i..], inn0, inn0 && hyphen0, cur0) == Tokens(orig[i + 1..], inn, inn && hyphen, cur);
    } else if b == 45 {
      TokensHyphen(orig, i, inn0, inn0 && hyphen0, cur0);
      if inn {
        if !hyphen {
          pages, toks := AppendInt(a, orig, last, i, pages, toks);
        } else {
          SignlessSkip(orig, last);
        }
        last := i;
        hyphen := true;
      } else {
        inn := true;
        last := i;
        hyphen := true;
      }
      cur := [45];
      assert orig[last..i + 1] == [b];
      assert toks == toks0 + (if inn0 && !(inn0 && hyphen0) then [cur0] else []);
      assert Tokens(orig[i..], inn0, inn0 && hyphen0, cur0) == (if inn0 && !(inn0 && hyphen0) then [cur0] else []) + Tokens(orig[i + 1..], inn, inn && hyphen, cur);
    } else {
      TokensOther(orig, i, inn0, inn0 && hyphen0, cur0);
      if inn {
        if !hyphen {
          pages, toks := AppendInt(a, orig, last, i, pages, toks);
        } else {
          SignlessSkip(orig, last);
        }
        inn := false;
      }
      SignlessSkip(orig, i);
      cur := [];
      assert toks == toks0 + (if inn0 && !(inn0 && hyphen0) then [cur0] else []);
      assert Tokens(orig[i..], inn0, inn0 && hyphen0, cur0) == (if inn0 && !(inn0 && hyphen0) then [cur0] else []) + Tokens(orig[i + 1..], inn, inn && hyphen, cur);
    }
  }

  /** append(pages, Int(a[last:i])): reads the number at [last, i), zeroing its hyphen. */
  method AppendInt(a: array<byte>, ghost orig: seq<byte>, last: int, i: int, pages0: seq<int64>, ghost toks0: seq<seq<byte>>)
    returns (pages: seq<int64>, ghost toks: seq<seq<byte>>)
    requires a.Length == |orig| && 0 <= last < i <= |orig|
    requires NumberText(orig[last..i]) && a[..] == Signless(orig, last)
    requires |pages0| == |toks0| && forall k :: 0 <= k < |pages0| ==> pages0[k] == IntOf(toks0[k])
    modifies a
    ensures toks == toks0 + [orig[last..i]]
    ensures |pages| == |toks| && forall k :: 0 <= k < |pages| ==> pages[k] == IntOf(toks[k])
    ensures a[..] == Signless(orig, i)
  {
    Emit(a, orig, last, i);
    var v := Int(a, last, i);
    pages := pages0 + [v];
    toks := toks0 + [orig[last..i]];
  }

  /** What Int needs before it reads the number at [last, i), and what it leaves. */
  lemma Emit(a: array<byte>, orig: seq<byte>, last: int, i: int)
    requires a.Length == |orig| && 0 <= last < i <= |orig|
    requires NumberText(orig[last..i]) && a[..] == Signless(orig, last)
    ensures a[last..i] == orig[last..i]
    ensures orig[last] == 45 ==> a[..][last := 48] == Signless(orig, i)
    ensures orig[last] != 45 ==> a[..] == Signless(orig, i)
    ensures a[last] == orig[last]
  {
    SignlessFrom(orig, last, last, i);
    assert a[last..i] == a[..][last..i];
    SignlessNumber(orig, last, i);
  }

  /** The io.Writer that Write sends its bytes to: everything written so far. */
  class Sink {
    var written: seq<byte>

    constructor()
      ensures written == []
    {
      written := [];
    }

    /** Write(p): appends p and reports its length. */
    method Put(p: seq<byte>) returns (n: int)
      modifies this
      ensures written == old(written) + p && n == |p|
    {
      written := written + p;
      n := |p|;
    }
  }

  /** Write: the text format produces for u, sent to w in one call. */
  method Write(w: Sink, u: int64, padding: int) returns (n: int)
    requires u != MinInt64 && padding <= 20
    modifies w
    ensures w.written == old(w.written) + Formatted(u, padding)
    ensures n == |Formatted(u, padding)|
  {
    var b := Format(u, padding);
    n := w.Put(b);
  }
}
