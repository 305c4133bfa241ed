/**
 * Machine words and the packing of byte keys into 64-bit words used by the
 * KeyBytes family of binary-search indexes (binsearch.go, lines 170-419).
 *
 * A byte is an int in [0, 256) and a uint64 an int in [0, 2^64); shifts and
 * masks are written as division and modulus.
 */
module Words {

  type byte = b: int | 0 <= b < 256
  type u64 = x: int | 0 <= x < 0x1_0000_0000_0000_0000

  const TwoTo64: int := 0x1_0000_0000_0000_0000

  /** 256^k */
  function Pow256(k: nat): (p: nat)
    ensures p >= 1
    ensures k >= 1 ==> p >= 256
  {
    if k == 0 then 1 else 256 * Pow256(k - 1)
  }

  /** (2^64)^k */
  function PowWord(k: nat): (p: nat)
    ensures p >= 1
  {
    if k == 0 then 1 else TwoTo64 * PowWord(k - 1)
  }

  /** Big-endian value of a byte string: the first byte is the most significant. */
  function BE(s: seq<byte>): (n: nat)
    ensures n < Pow256(|s|)
  {
    if |s| == 0 then 0 else BE(s[..|s| - 1]) * 256 + s[|s| - 1]
  }

  lemma Pow256Eight()
    ensures Pow256(8) == TwoTo64
  {
    assert Pow256(4) == 0x1_0000_0000;
  }

  lemma {:induction false} Pow256Mono(i: nat, j: nat)
    requires i <= j
    ensures Pow256(i) <= Pow256(j)
  {
    if i < j {
      Pow256Mono(i, j - 1);
    }
  }

  /** A byte string of length 8 or less packs into one uint64. */
  lemma BEFits(s: seq<byte>)
    requires |s| <= 8
    ensures BE(s) < TwoTo64
  {
    Pow256Mono(|s|, 8);
    Pow256Eight();
  }

  /** A leading non-zero byte makes the value non-zero. */
  lemma {:induction false} BEPositive(s: seq<byte>)
    requires |s| >= 1 && s[0] != 0
    ensures BE(s) > 0
  {
    if |s| > 1 {
      var init := s[..|s| - 1];
      assert init[0] == s[0];
      BEPositive(init);
    }
  }

  /** Euclidean division by 256 is unique. */
  lemma Div256(v: int, a: int, b: int)
    requires 0 <= b < 256 && v == a * 256 + b
    ensures v % 256 == b && v / 256 == a
  {
  }

  /**
   * bytes2uint64: the first (at most) eight bytes packed big-endian, and the
   * sub-bucket index (number of packed bytes minus one; 0 for the empty key,
   * which is sorted with the one-byte keys).
   */
  function Bytes2Uint64(word: seq<byte>): (r: (u64, int))
    ensures 0 <= r.1 < 8
    ensures |word| == 0 ==> r == (0, 0)
    ensures 1 <= |word| ==> r.1 == (if |word| >= 8 then 8 else |word|) - 1
    ensures 1 <= |word| ==> r.0 == BE(word[..r.1 + 1])
  {
    (Pack(word), SubIndex(word))
  }

  /** The word half of Bytes2Uint64. */
  function Pack(word: seq<byte>): u64
  {
    if |word| == 0 then 0
    else
      var n := if |word| >= 8 then 8 else |word|;
      BEFits(word[..n]);
      BE(word[..n])
  }

  /** The sub-bucket half of Bytes2Uint64: how many bytes were packed, minus one. */
  function SubIndex(word: seq<byte>): int
  {
    if |word| == 0 then 0 else (if |word| >= 8 then 8 else |word|) - 1
  }

  /** The k bytes of v (which fits in k bytes), most significant first. */
  function BytesOf(v: nat, k: nat): (s: seq<byte>)
    requires v < Pow256(k)
    ensures |s| == k
    ensures BE(s) == v
  {
    if k == 0 then []
    else
      var init := BytesOf(v / 256, k - 1);
      var s := init + [v % 256];
      assert s[..k - 1] == init;
      s
  }

  /** uint642bytes: all eight bytes of v, most significant first. */
  function Uint642Bytes(v: u64): (s: seq<byte>)
    ensures |s| == 8
    ensures BE(s) == v
  {
    Pow256Eight();
    BytesOf(v, 8)
  }

  /**
   * uint642bytesend: the bytes of v with the leading zero bytes dropped
   * (0 to 8 bytes).
   */
  function Uint642BytesEnd(v: nat): (s: seq<byte>)
    ensures BE(s) == v
    ensures |s| == 0 || s[0] != 0
    ensures v < Pow256(|s|)
    ensures |s| >= 1 ==> Pow256(|s| - 1) <= v
  {
    if v == 0 then []
    else
      var init := Uint642BytesEnd(v / 256);
      var s := init + [v % 256];
      assert s[..|init|] == init;
      s
  }

  /** Uint642BytesEnd never yields more than eight bytes for a uint64. */
  lemma BytesEndLength(v: u64)
    ensures |Uint642BytesEnd(v)| <= 8
  {
    var s := Uint642BytesEnd(v);
    if |s| > 8 {
      Pow256Mono(8, |s| - 1);
      Pow256Eight();
    }
  }

  /** The BE value determines a byte string of known length. */
  lemma {:induction false} BEInjective(s: seq<byte>, t: seq<byte>)
    requires |s| == |t| && BE(s) == BE(t)
    ensures s == t
  {
    if |s| > 0 {
      var n := |s| - 1;
      Div256(BE(s), BE(s[..n]), s[n]);
      Div256(BE(t), BE(t[..n]), t[n]);
      BEInjective(s[..n], t[..n]);
      assert s == s[..n] + [s[n]];
      assert t == t[..n] + [t[n]];
    }
  }

  /** BytesOf inverts BE at the string's own length. */
  lemma BytesOfBE(s: seq<byte>)
    ensures BytesOf(BE(s), |s|) == s
  {
    BEInjective(BytesOf(BE(s), |s|), s);
  }

  /**
   * Dropping the leading zero bytes of BE(s) gives s back exactly when s does
   * not itself start with a zero byte.
   */
  lemma BytesEndBE(s: seq<byte>)
    ensures Uint642BytesEnd(BE(s)) == s <==> (|s| == 0 || s[0] != 0)
  {
    if |s| >= 1 && s[0] != 0 {
      BytesEndBENonZero(s);
    }
  }

  lemma {:induction false} BytesEndBENonZero(s: seq<byte>)
    requires |s| >= 1 && s[0] != 0
    ensures Uint642BytesEnd(BE(s)) == s
  {
    var n := |s| - 1;
    var init := s[..n];
    BEPositive(s);
    Div256(BE(s), BE(init), s[n]);
    if n >= 1 {
      assert init[0] == s[0];
      BytesEndBENonZero(init);
    }
    assert s == init + [s[n]];
  }

  // ---------------------------------------------------------------------
  // Keys as word tuples

  /** Keys longer than 64 bytes are refused by every KeyBytes operation. */
  const MaxKeyLength: int := 64

  /**
   * The words a key of up to 64 bytes is stored as: one full big-endian word
   * per complete 8-byte chunk before the last chunk, then the last chunk
   * (1 to 8 bytes) packed with Bytes2Uint64. The empty key is the single word 0.
   */
  function KeyWords(key: seq<byte>): (w: seq<u64>)
    ensures |w| == (if |key| == 0 then 1 else (|key| - 1) / 8 + 1)
    decreases |key|
  {
    if |key| <= 8 then [Pack(key)]
    else [Pack(key)] + KeyWords(key[8..])
  }

  /**
   * The flat bucket index: 8 * ((len-1)/8) + sub, where Go's truncating
   * division sends the empty key to class 0 and Bytes2Uint64 sends it to sub 0.
   */
  function Flat(key: seq<byte>): (f: int)
    requires |key| <= MaxKeyLength
    ensures 0 <= f < 64
    ensures f == (if |key| == 0 then 0 else |key| - 1)
  {
    var c := if |key| == 0 then 0 else (|key| - 1) / 8;
    8 * c + SubIndex(key[8 * c..])
  }

  /** Number of words stored for a key in flat bucket f. */
  function Arity(f: int): (n: int)
    ensures f >= 0 ==> n >= 1
  {
    f / 8 + 1
  }

  lemma KeyWordsArity(key: seq<byte>)
    requires |key| <= MaxKeyLength
    ensures |KeyWords(key)| == Arity(Flat(key))
  {
  }

  /** Every word written in full, eight bytes each. */
  function Concat(w: seq<u64>): (s: seq<byte>)
    ensures |s| == 8 * |w|
  {
    if |w| == 0 then [] else Uint642Bytes(w[0]) + Concat(w[1..])
  }

  /**
   * reverse8 ... reverse64: turns stored words back into a key, writing every
   * word but the last in full and the last with its leading zero bytes
   * dropped.
   */
  function Reverse(w: seq<u64>): (key: seq<byte>)
    requires |w| >= 1
    ensures 8 * (|w| - 1) <= |key| <= 8 * |w|
    ensures key[..8 * (|w| - 1)] == Concat(w[..|w| - 1])
    ensures key[8 * (|w| - 1)..] == Uint642BytesEnd(w[|w| - 1])
  {
    BytesEndLength(w[|w| - 1]);
    Concat(w[..|w| - 1]) + Uint642BytesEnd(w[|w| - 1])
  }

  /**
   * The stored words of a key in flat bucket f: Arity(f) words whose last one
   * holds f % 8 + 1 bytes.
   */
  predicate WellFormed(f: int, w: seq<u64>)
  {
    0 <= f < 64 && |w| == Arity(f) && w[|w| - 1] < Pow256(f % 8 + 1)
  }

  /**
   * A reversal that knows the key length (flat bucket f stores keys of length
   * f + 1): the last word is written with exactly f % 8 + 1 bytes.
   */
  function ReverseExact(f: int, w: seq<u64>): (key: seq<byte>)
    requires WellFormed(f, w)
    ensures |key| == f + 1
    ensures key[..8 * (|w| - 1)] == Concat(w[..|w| - 1])
    ensures BE(key[8 * (|w| - 1)..]) == w[|w| - 1]
  {
    Concat(w[..|w| - 1]) + BytesOf(w[|w| - 1], f % 8 + 1)
  }

  /** The chunk of a key that ends up in its last word. */
  function LastChunk(key: seq<byte>): (c: seq<byte>)
    requires |key| >= 1
    ensures 1 <= |c| <= 8
  {
    key[8 * ((|key| - 1) / 8)..]
  }

  /** Writing a word in front of a tuple writes its eight bytes first. */
  lemma ConcatCons(h: u64, x: seq<u64>)
    ensures Concat([h] + x) == Uint642Bytes(h) + Concat(x)
  {
    assert ([h] + x)[0] == h;
    assert ([h] + x)[1..] == x;
  }

  /** A prefix of length a + b is the prefix of length a followed by the next b elements. */
  lemma PrefixSplit<T>(s: seq<T>, a: nat, b: nat)
    requires a + b <= |s|
    ensures s[..a + b] == s[..a] + s[a..][..b]
  {
  }

  /** A sequence is its prefix followed by the rest. */
  lemma SplitAt<T>(s: seq<T>, m: nat)
    requires m <= |s|
    ensures s == s[..m] + s[m..]
  {
  }

  /** Equal prefixes cancel. */
  lemma AppendCancel<T>(p: seq<T>, x: seq<T>, y: seq<T>)
    ensures p + x == p + y <==> x == y
  {
    if p + x == p + y {
      assert x == (p + x)[|p|..];
      assert y == (p + y)[|p|..];
    }
  }

  /** The first stored word of a key longer than eight bytes is its first eight bytes. */
  lemma HeadWord(key: seq<byte>)
    requires |key| > 8
    ensures KeyWords(key) == [BE(key[..8])] + KeyWords(key[8..])
    ensures Uint642Bytes(BE(key[..8])) == key[..8]
  {
    BytesOfBE(key[..8]);
    Pow256Eight();
  }

  /** The last chunk of a key longer than eight bytes is the last chunk of its tail. */
  lemma LastChunkTail(key: seq<byte>)
    requires |key| > 8
    ensures LastChunk(key[8..]) == LastChunk(key)
  {
    var rest := key[8..];
    assert (|key| - 1) / 8 == (|rest| - 1) / 8 + 1;
  }

  /**
   * The words of a key: all but the last spell out the bytes before the
   * last chunk, and the last one is the last chunk packed big-endian.
   */
  lemma {:induction false} KeyWordsSplit(key: seq<byte>)
    requires 1 <= |key| <= MaxKeyLength
    ensures var w := KeyWords(key);
      Concat(w[..|w| - 1]) == key[..8 * (|w| - 1)] &&
      w[|w| - 1] == BE(LastChunk(key))
    decreases |key|
  {
    var w := KeyWords(key);
    if |key| <= 8 {
      assert key[..|key|] == key;
      assert LastChunk(key) == key;
      assert w[..|w| - 1] == [];
    } else {
      var rest := key[8..];
      KeyWordsSplit(rest);
      var wr := KeyWords(rest);
      var head := BE(key[..8]);
      var n := |wr| - 1;
      HeadWord(key);
      assert w[..|w| - 1] == [head] + wr[..n];
      ConcatCons(head, wr[..n]);
      LastChunkTail(key);
      PrefixSplit(key, 8, 8 * n);
      assert 8 * (|w| - 1) == 8 + 8 * n;
    }
  }

  /** The stored words of every key of up to 64 bytes are well formed. */
  lemma KeyWordsWellFormed(key: seq<byte>)
    requires |key| <= MaxKeyLength
    ensures WellFormed(Flat(key), KeyWords(key))
  {
    var w := KeyWords(key);
    var f := Flat(key);
    if |key| >= 1 {
      KeyWordsSplit(key);
      var c := LastChunk(key);
      assert f == |key| - 1;
      assert |c| == |key| - 8 * ((|key| - 1) / 8);
      assert |c| == f % 8 + 1;
      assert w[|w| - 1] == BE(c) < Pow256(|c|);
    } else {
      assert w == [0];
    }
  }

  /**
   * Listing a key from its stored words gives the key back exactly when the
   * last chunk does not begin with a zero byte: "\x00a" is listed as "a".
   */
  lemma ReverseKeyWords(key: seq<byte>)
    requires 1 <= |key| <= MaxKeyLength
    ensures Reverse(KeyWords(key)) == key <==> LastChunk(key)[0] != 0
  {
    var w := KeyWords(key);
    var c := LastChunk(key);
    var m := 8 * (|w| - 1);
    KeyWordsSplit(key);
    var tail := Uint642BytesEnd(w[|w| - 1]);
    var r := Reverse(w);
    SplitAt(r, m);
    SplitAt(key, m);
    assert c == key[m..];
    BytesEndBE(c);
    AppendCancel(key[..m], tail, c);
  }

  /** Witness: the two-byte key 0x00 0x61 is listed as the one-byte key 0x61. */
  lemma ReverseDropsLeadingZero()
    ensures Reverse(KeyWords([0, 0x61])) == [0x61]
  {
    var key: seq<byte> := [0, 0x61];
    assert key[..2] == key;
    assert BE(key) == 0x61;
    assert KeyWords(key) == [0x61];
    var one: seq<byte> := [0x61];
    assert BE(one) == 0x61;
    BytesEndBENonZero(one);
  }

  /** The last chunk is the key after its full words, and its length is fixed by the flat bucket. */
  lemma LastChunkSuffix(key: seq<byte>)
    requires 1 <= |key| <= MaxKeyLength
    ensures 8 * (|KeyWords(key)| - 1) <= |key|
    ensures LastChunk(key) == key[8 * (|KeyWords(key)| - 1)..]
    ensures |LastChunk(key)| == Flat(key) % 8 + 1
  {
  }

  /** The last chunk read back from the stored words is the key's own. */
  lemma ReverseExactLast(key: seq<byte>)
    requires 1 <= |key| <= MaxKeyLength
    ensures WellFormed(Flat(key), KeyWords(key))
    ensures 8 * (|KeyWords(key)| - 1) <= |key|
    ensures ReverseExact(Flat(key), KeyWords(key))[8 * (|KeyWords(key)| - 1)..] == key[8 * (|KeyWords(key)| - 1)..]
  {
    KeyWordsSplit(key);
    KeyWordsWellFormed(key);
    LastChunkSuffix(key);
    var m := 8 * (|KeyWords(key)| - 1);
    BEInjective(ReverseExact(Flat(key), KeyWords(key))[m..], key[m..]);
  }

  /** The length-aware reversal restores every key of 1 to 64 bytes. */
  lemma ReverseExactKeyWords(key: seq<byte>)
    requires 1 <= |key| <= MaxKeyLength
    ensures WellFormed(Flat(key), KeyWords(key))
    ensures ReverseExact(Flat(key), KeyWords(key)) == key
  {
    KeyWordsSplit(key);
    ReverseExactLast(key);
    SameHalves(ReverseExact(Flat(key), KeyWords(key)), key, 8 * (|KeyWords(key)| - 1));
  }

  /**
   * Storing a listed key again gives back the same bucket and the same words:
   * the tuples of a bucket and the keys they list are in one-to-one
   * correspondence.
   */
  lemma {:induction false} KeyWordsReverseExact(f: int, w: seq<u64>)
    requires WellFormed(f, w)
    ensures |ReverseExact(f, w)| <= MaxKeyLength
    ensures Flat(ReverseExact(f, w)) == f && KeyWords(ReverseExact(f, w)) == w
    decreases |w|
  {
    if |w| == 1 {
      ReverseExactSingle(f, w);
    } else {
      ReverseExactCons(f, w);
      KeyWordsReverseExact(f - 8, w[1..]);
      HeadWordOf(ReverseExact(f, w), w[0], ReverseExact(f - 8, w[1..]));
      HeadSplit(w);
    }
  }

  /** A non-empty sequence is its head followed by its tail. */
  lemma HeadSplit<T>(s: seq<T>)
    requires |s| >= 1
    ensures s == [s[0]] + s[1..]
  {
  }

  /** A key made of a word's eight bytes and a non-empty rest is stored as that word, then the rest's words. */
  lemma HeadWordOf(key: seq<byte>, h: u64, rest: seq<byte>)
    requires key == Uint642Bytes(h) + rest && |rest| >= 1
    ensures KeyWords(key) == [h] + KeyWords(rest)
  {
    assert key[..8] == Uint642Bytes(h) && key[8..] == rest;
  }

  /** A one-word tuple lists as its own bytes and is stored as that one word. */
  lemma ReverseExactSingle(f: int, w: seq<u64>)
    requires WellFormed(f, w) && |w| == 1
    ensures KeyWords(ReverseExact(f, w)) == w
  {
    var key := ReverseExact(f, w);
    assert key == BytesOf(w[0], f % 8 + 1);
    assert key[..|key|] == key;
  }

  /** A tuple of two or more words lists as its first word's eight bytes, then the rest. */
  lemma ReverseExactCons(f: int, w: seq<u64>)
    requires WellFormed(f, w) && |w| >= 2
    ensures WellFormed(f - 8, w[1..])
    ensures ReverseExact(f, w) == Uint642Bytes(w[0]) + ReverseExact(f - 8, w[1..])
  {
    var n := |w|;
    var w' := w[1..];
    assert w[..n - 1] == [w[0]] + w'[..n - 2];
    ConcatCons(w[0], w'[..n - 2]);
  }

  /** The empty key is listed as "\x00", every other key as itself. */
  function Canonical(key: seq<byte>): (c: seq<byte>)
    ensures |c| >= 1
    ensures |key| >= 1 ==> c == key
  {
    if |key| == 0 then [0] else key
  }

  /** The empty key is stored as "\x00" is. */
  lemma CanonicalWords(key: seq<byte>)
    requires |key| <= MaxKeyLength
    ensures |Canonical(key)| <= MaxKeyLength
    ensures Flat(Canonical(key)) == Flat(key) && KeyWords(Canonical(key)) == KeyWords(key)
  {
    if |key| == 0 {
      EmptyKeyLikeZero();
    }
  }

  /** Storing a key and listing it again gives the key back (the empty key as "\x00"). */
  lemma StoredKey(key: seq<byte>)
    requires |key| <= MaxKeyLength
    ensures WellFormed(Flat(key), KeyWords(key))
    ensures ReverseExact(Flat(key), KeyWords(key)) == Canonical(key)
  {
    if |key| == 0 {
      EmptyKeyLikeZero();
      ReverseExactKeyWords([0]);
    } else {
      ReverseExactKeyWords(key);
    }
  }

  /** Two sequences that agree before and after a cut are equal. */
  lemma SameHalves<T>(r: seq<T>, s: seq<T>, m: nat)
    requires m <= |r| == |s| && r[..m] == s[..m] && r[m..] == s[m..]
    ensures r == s
  {
    SplitAt(r, m);
    SplitAt(s, m);
  }

  /**
   * Two non-empty keys share a bucket and stored words only if they are
   * equal.
   */
  lemma KeyWordsInjective(a: seq<byte>, b: seq<byte>)
    requires 1 <= |a| <= MaxKeyLength && 1 <= |b| <= MaxKeyLength
    ensures (Flat(a) == Flat(b) && KeyWords(a) == KeyWords(b)) <==> a == b
  {
    if Flat(a) == Flat(b) && KeyWords(a) == KeyWords(b) {
      ReverseExactKeyWords(a);
      ReverseExactKeyWords(b);
    }
  }

  /** The empty key is stored exactly like the one-byte key "\x00". */
  lemma EmptyKeyLikeZero()
    ensures Flat([]) == Flat([0]) && KeyWords([]) == KeyWords([0])
  {
    var z: seq<byte> := [0];
    assert z[..1] == z;
    assert BE(z) == 0;
  }

  // ---------------------------------------------------------------------
  // Order on word tuples

  lemma MulMono(x: int, y: int, p: int)
    requires x <= y && p >= 0
    ensures x * p <= y * p
  {
  }

  lemma MulSucc(x: int, p: int)
    ensures (x + 1) * p == x * p + p
  {
  }

  /**
   * x * p + r < y * p when x < y and 0 <= r < p: a leading digit decides the
   * comparison.
   */
  lemma LeadingDigit(x: int, y: int, p: int, r: int)
    requires 0 <= x < y && 0 <= r < p
    ensures x * p + r < y * p
  {
    MulSucc(x, p);
    MulMono(x + 1, y, p);
  }

  /** Value of a word tuple read as one big-endian number in base 2^64. */
  function Num(w: seq<u64>): (n: nat)
    ensures n < PowWord(|w|)
  {
    if |w| == 0 then 0
    else
      var p := PowWord(|w| - 1);
      var rest := Num(w[1..]);
      LeadingDigit(w[0], TwoTo64, p, rest);
      w[0] * p + rest
  }

  /** Word-by-word comparison, as the unrolled comparisons of Find and Limit56.less do it. */
  function Compare(a: seq<u64>, b: seq<u64>): (c: int)
    requires |a| == |b|
    ensures c == -1 || c == 0 || c == 1
  {
    if |a| == 0 then 0
    else if a[0] < b[0] then -1
    else if a[0] > b[0] then 1
    else Compare(a[1..], b[1..])
  }

  /** The word-by-word comparison is the numeric comparison of the tuples. */
  lemma {:induction false} CompareNum(a: seq<u64>, b: seq<u64>)
    requires |a| == |b|
    ensures Compare(a, b) < 0 <==> Num(a) < Num(b)
    ensures Compare(a, b) == 0 <==> a == b
    ensures Compare(a, b) > 0 <==> Num(a) > Num(b)
  {
    if |a| > 0 {
      var p := PowWord(|a| - 1);
      CompareNum(a[1..], b[1..]);
      assert Num(a) == a[0] * p + Num(a[1..]);
      assert Num(b) == b[0] * p + Num(b[1..]);
      if a[0] < b[0] {
        LeadingDigit(a[0], b[0], p, Num(a[1..]));
        MulMono(b[0], b[0], p);
      } else if a[0] > b[0] {
        LeadingDigit(b[0], a[0], p, Num(b[1..]));
      } else {
        if a[1..] == b[1..] {
          assert a == [a[0]] + a[1..] && b == [b[0]] + b[1..];
        }
      }
    }
  }
}
