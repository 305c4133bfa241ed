/**
 * The stored form of a KeyBytes (Write and Read of
 * vendor/github.com/AlasdairF/BinSearch/binsearch.go lines 2142-2367):
 * total as a variable-width number, the 64 entries of count likewise, then
 * every bucket in flat order as its length followed by the words of its
 * tuples, eight little-endian bytes each.
 *
 * The encoders are functions on values; the decoders take the bytes from the
 * reader's cursor and give back the value and the bytes after it, or None
 * where Go's reader would index past the end of its data and panic.
 */
module KeyBytesCodec {
  import opened Words
  import opened CustomCodec
  import opened Buckets
  import Conv
  import Custom

  datatype Option<T> = None | Some(value: T)

  /** What Write stores and Read restores: total, the count table and the buckets. */
  datatype Image = Image(total: int, count: seq<int>, buckets: seq<Tuples>)

  // ---------------------------------------------------------------- encoding

  /** WriteUint64: a word as eight little-endian bytes. */
  function WordBytes(v: u64): (s: seq<byte>)
    ensures |s| == 8
  {
    LE(v, 8)
  }

  /** WriteUint64Variable(uint64(x)) for a Go int x. */
  function IntBytes(x: int): seq<byte>
  {
    Varint(Conv.U64(x))
  }

  /** The words of one tuple, in order. */
  function TupleBytes(t: seq<u64>): seq<byte>
  {
    if |t| == 0 then [] else WordBytes(t[0]) + TupleBytes(t[1..])
  }

  /** The tuples of one bucket, in order. */
  function TuplesBytes(ts: Tuples): seq<byte>
  {
    if |ts| == 0 then [] else TupleBytes(ts[0]) + TuplesBytes(ts[1..])
  }

  /** One bucket: its length, then the words of its tuples in order. */
  function BucketBytes(bk: Tuples): seq<byte>
  {
    IntBytes(|bk|) + TuplesBytes(bk)
  }

  /** The buckets, in flat order. */
  function BucketsBytes(b: seq<Tuples>): seq<byte>
  {
    if |b| == 0 then [] else BucketBytes(b[0]) + BucketsBytes(b[1..])
  }

  /** The entries of the count table, in order. */
  function IntsBytes(c: seq<int>): seq<byte>
  {
    if |c| == 0 then [] else IntBytes(c[0]) + IntsBytes(c[1..])
  }

  /** The whole stored form of a KeyBytes with the given fields. */
  function Serial(total: int, count: seq<int>, b: seq<Tuples>): seq<byte>
  {
    IntBytes(total) + IntsBytes(count) + BucketsBytes(b)
  }

  /** Writing one more word appends its bytes. */
  lemma {:induction false} TupleSnoc(t: seq<u64>, i: int, j: int)
    requires 0 <= i < |t| && j == i + 1
    ensures TupleBytes(t[..j]) == TupleBytes(t[..i]) + WordBytes(t[i])
  {
    if i > 0 {
      assert t[..j][1..] == t[1..][..i];
      assert t[..i][1..] == t[1..][..i - 1];
      TupleSnoc(t[1..], i - 1, i);
    }
  }

  /** Writing one more tuple appends its bytes. */
  lemma {:induction false} TuplesSnoc(ts: Tuples, i: int, j: int)
    requires 0 <= i < |ts| && j == i + 1
    ensures TuplesBytes(ts[..j]) == TuplesBytes(ts[..i]) + TupleBytes(ts[i])
  {
    if i > 0 {
      assert ts[..j][1..] == ts[1..][..i];
      assert ts[..i][1..] == ts[1..][..i - 1];
      TuplesSnoc(ts[1..], i - 1, i);
    }
  }

  /** Writing one more bucket appends its bytes. */
  lemma {:induction false} BucketsSnoc(b: seq<Tuples>, i: int, j: int)
    requires 0 <= i < |b| && j == i + 1
    ensures BucketsBytes(b[..j]) == BucketsBytes(b[..i]) + BucketBytes(b[i])
  {
    if i > 0 {
      assert b[..j][1..] == b[1..][..i];
      assert b[..i][1..] == b[1..][..i - 1];
      BucketsSnoc(b[1..], i - 1, i);
    }
  }

  /** Writing one more count appends its bytes. */
  lemma {:induction false} IntsSnoc(c: seq<int>, i: int, j: int)
    requires 0 <= i < |c| && j == i + 1
    ensures IntsBytes(c[..j]) == IntsBytes(c[..i]) + IntBytes(c[i])
  {
    if i > 0 {
      assert c[..j][1..] == c[1..][..i];
      assert c[..i][1..] == c[1..][..i - 1];
      IntsSnoc(c[1..], i - 1, i);
    }
  }

  // ---------------------------------------------------------------- decoding

  /**
   * ReadUint64Variable on the bytes from the cursor. A length byte above 8
   * moves the cursor by that much without reading; past the end nothing can
   * be read any more, which the empty rest stands for.
   */
  function ReadVar(s: seq<byte>): Option<(u64, seq<byte>)>
  {
    if |s| == 0 || !Readable(s, 1, s[0]) then None
    else
      var d := DecodeVarint(s);
      Some((d.0, if d.1 <= |s| then s[d.1..] else []))
  }

  /** ReadUint64: eight little-endian bytes. */
  function ReadWord(s: seq<byte>): Option<(u64, seq<byte>)>
  {
    if |s| < 8 then None
    else
      Pow256Eight();
      Some((ValueLE(s[..8]), s[8..]))
  }

  /** k words, one after the other: one tuple of a bucket whose keys have k words. */
  function ReadTuple(s: seq<byte>, k: nat): Option<(seq<u64>, seq<byte>)>
    decreases k
  {
    if k == 0 then Some(([], s))
    else match ReadWord(s)
      case None => None
      case Some((v, s1)) =>
        match ReadTuple(s1, k - 1)
        case None => None
        case Some((t, s2)) => Some(([v] + t, s2))
  }

  /** l tuples of k words each. */
  function ReadTuples(s: seq<byte>, l: nat, k: nat): Option<(Tuples, seq<byte>)>
    decreases l
  {
    if l == 0 then Some(([], s))
    else match ReadTuple(s, k)
      case None => None
      case Some((t, s1)) =>
        match ReadTuples(s1, l - 1, k)
        case None => None
        case Some((ts, s2)) => Some(([t] + ts, s2))
  }

  /** Bucket f: its length l, then l tuples of Arity(f) words. */
  function ReadBucket(s: seq<byte>, f: nat): Option<(Tuples, seq<byte>)>
  {
    match ReadVar(s)
    case None => None
    case Some((l, s1)) => ReadTuples(s1, l, Arity(f))
  }

  /** Buckets f to 63, in order. */
  function ReadBuckets(s: seq<byte>, f: nat): Option<(seq<Tuples>, seq<byte>)>
    decreases Flats - f
  {
    if f >= Flats then Some(([], s))
    else match ReadBucket(s, f)
      case None => None
      case Some((bk, s1)) =>
        match ReadBuckets(s1, f + 1)
        case None => None
        case Some((b, s2)) => Some(([bk] + b, s2))
  }

  /** n numbers, each stored as uint64 and read back as int(x), which wraps above 2^63 - 1. */
  function ReadInts(s: seq<byte>, n: nat): Option<(seq<int>, seq<byte>)>
    decreases n
  {
    if n == 0 then Some(([], s))
    else match ReadVar(s)
      case None => None
      case Some((v, s1)) =>
        match ReadInts(s1, n - 1)
        case None => None
        case Some((c, s2)) => Some(([Conv.S64(v)] + c, s2))
  }

  /** Read: total, the 64 counts, then the 64 buckets. */
  function ReadImage(s: seq<byte>): Option<(Image, seq<byte>)>
  {
    match ReadVar(s)
    case None => None
    case Some((t, s1)) =>
      match ReadInts(s1, Flats)
      case None => None
      case Some((c, s2)) =>
        match ReadBuckets(s2, 0)
        case None => None
        case Some((b, s3)) => Some((Image(Conv.S64(t), c, b), s3))
  }

  // ---------------------------------------------------------------- round trips

  /** WriteUint64Variable then ReadUint64Variable: v back, and the reader at what follows. */
  lemma VarRoundTrip(v: u64, rest: seq<byte>)
    ensures ReadVar(Varint(v) + rest) == Some((v, rest))
  {
    VarintRoundTrip(v, rest);
    assert (Varint(v) + rest)[|Varint(v)|..] == rest;
  }

  /** WriteUint64 then ReadUint64. */
  lemma WordRoundTrip(v: u64, rest: seq<byte>)
    ensures ReadWord(WordBytes(v) + rest) == Some((v, rest))
  {
    FixedRoundTrip(v, 8, rest);
    assert (WordBytes(v) + rest)[8..] == rest;
  }

  /** The words of a tuple read back as the tuple. */
  lemma {:induction false} TupleRoundTrip(t: seq<u64>, k: nat, rest: seq<byte>)
    requires |t| == k
    ensures ReadTuple(TupleBytes(t) + rest, k) == Some((t, rest))
  {
    if |t| > 0 {
      var tail := TupleBytes(t[1..]) + rest;
      assert TupleBytes(t) + rest == WordBytes(t[0]) + tail;
      WordRoundTrip(t[0], tail);
      TupleRoundTrip(t[1..], k - 1, rest);
      assert [t[0]] + t[1..] == t;
    } else {
      assert TupleBytes(t) + rest == rest;
    }
  }

  /** Every tuple of ts has k words. */
  ghost predicate Uniform(ts: Tuples, k: int)
  {
    forall i :: 0 <= i < |ts| ==> |ts[i]| == k
  }

  /** Tuples of one width read back as themselves. */
  lemma {:induction false} TuplesRoundTrip(ts: Tuples, l: nat, k: nat, rest: seq<byte>)
    requires |ts| == l && Uniform(ts, k)
    ensures ReadTuples(TuplesBytes(ts) + rest, l, k) == Some((ts, rest))
  {
    if |ts| > 0 {
      var tail := TuplesBytes(ts[1..]) + rest;
      assert TuplesBytes(ts) + rest == TupleBytes(ts[0]) + tail;
      TupleRoundTrip(ts[0], k, tail);
      TuplesRoundTrip(ts[1..], l - 1, k, rest);
      assert [ts[0]] + ts[1..] == ts;
    } else {
      assert TuplesBytes(ts) + rest == rest;
    }
  }

  /** A bucket of fewer than 2^64 tuples of its flat's width reads back unchanged. */
  lemma BucketRoundTrip(bk: Tuples, f: nat, rest: seq<byte>)
    requires Uniform(bk, Arity(f)) && |bk| < TwoTo64
    ensures ReadBucket(BucketBytes(bk) + rest, f) == Some((bk, rest))
  {
    var tail := TuplesBytes(bk) + rest;
    assert BucketBytes(bk) + rest == IntBytes(|bk|) + tail;
    VarRoundTrip(Conv.U64(|bk|), tail);
    TuplesRoundTrip(bk, |bk|, Arity(f), rest);
  }

  /** Every bucket has tuples of its flat's width, and fewer than 2^64 of them. */
  ghost predicate Widths(b: seq<Tuples>)
  {
    forall f :: 0 <= f < |b| ==> Uniform(b[f], Arity(f)) && |b[f]| < TwoTo64
  }

  /** Widths for the buckets from flat f on, bucket by bucket. */
  ghost predicate WidthsFrom(b: seq<Tuples>, f: nat)
    decreases |b|
  {
    |b| == 0 || (Uniform(b[0], Arity(f)) && |b[0]| < TwoTo64 && WidthsFrom(b[1..], f + 1))
  }

  lemma {:induction false} WidthsSuffix(b: seq<Tuples>, f: nat)
    requires f <= |b| && Widths(b)
    ensures WidthsFrom(b[f..], f)
    decreases |b| - f
  {
    if f < |b| {
      WidthsSuffix(b, f + 1);
      assert b[f..][0] == b[f] && b[f..][1..] == b[f + 1..];
    }
  }

  lemma WidthsAll(b: seq<Tuples>)
    requires Widths(b)
    ensures WidthsFrom(b, 0)
  {
    WidthsSuffix(b, 0);
    assert b[0..] == b;
  }

  /** A bucket of its flat's width, written before buckets that read back, reads back first. */
  lemma BucketAhead(bk: Tuples, f: nat, tail: seq<byte>, b: seq<Tuples>, rest: seq<byte>)
    requires f < Flats && Uniform(bk, Arity(f)) && |bk| < TwoTo64
    requires ReadBuckets(tail, f + 1) == Some((b, rest))
    ensures ReadBuckets(BucketBytes(bk) + tail, f) == Some(([bk] + b, rest))
  {
    BucketRoundTrip(bk, f, tail);
  }

  /** The bytes of a non-empty run of buckets are its first bucket's, then the others'. */
  lemma BucketsSplit(b: seq<Tuples>, rest: seq<byte>)
    requires |b| > 0
    ensures BucketsBytes(b) + rest == BucketBytes(b[0]) + (BucketsBytes(b[1..]) + rest)
  {
    assert BucketsBytes(b) == BucketBytes(b[0]) + BucketsBytes(b[1..]);
    Assoc(BucketBytes(b[0]), BucketsBytes(b[1..]), rest);
  }

  /** Concatenation of bytes is associative. */
  lemma Assoc(x: seq<byte>, y: seq<byte>, z: seq<byte>)
    ensures x + y + z == x + (y + z)
  {
  }

  /** Widths from f hold for the first bucket and from f + 1 for the others. */
  lemma WidthsHead(b: seq<Tuples>, f: nat)
    requires |b| > 0 && WidthsFrom(b, f)
    ensures Uniform(b[0], Arity(f)) && |b[0]| < TwoTo64 && WidthsFrom(b[1..], f + 1)
  {
  }

  /** A non-empty sequence is its head followed by its tail. */
  lemma Recons<T>(b: seq<T>)
    requires |b| > 0
    ensures [b[0]] + b[1..] == b
  {
  }

  /** Buckets f onward, each of its flat's width, read back unchanged. */
  lemma {:induction false} BucketsRoundTrip(b: seq<Tuples>, f: nat, rest: seq<byte>)
    requires f + |b| == Flats && WidthsFrom(b, f)
    ensures ReadBuckets(BucketsBytes(b) + rest, f) == Some((b, rest))
  {
    if |b| > 0 {
      WidthsHead(b, f);
      BucketsRoundTrip(b[1..], f + 1, rest);
      BucketAhead(b[0], f, BucketsBytes(b[1..]) + rest, b[1..], rest);
      BucketsSplit(b, rest);
      Recons(b);
    } else {
      assert BucketsBytes(b) + rest == rest;
    }
  }

  /** Numbers from 0 to 2^63 - 1 survive the uint64 and int conversions. */
  lemma {:induction false} IntsRoundTrip(c: seq<int>, n: nat, rest: seq<byte>)
    requires |c| == n && forall i :: 0 <= i < n ==> 0 <= c[i] < Conv.TwoTo63
    ensures ReadInts(IntsBytes(c) + rest, n) == Some((c, rest))
  {
    if |c| > 0 {
      var tail := IntsBytes(c[1..]) + rest;
      assert IntsBytes(c) + rest == IntBytes(c[0]) + tail;
      VarRoundTrip(Conv.U64(c[0]), tail);
      IntsRoundTrip(c[1..], n - 1, rest);
      assert [c[0]] + c[1..] == c;
    } else {
      assert IntsBytes(c) + rest == rest;
    }
  }

  /** The bytes after the first piece are the other pieces followed by the rest. */
  lemma Nest(x: seq<byte>, y: seq<byte>, z: seq<byte>, rest: seq<byte>)
    ensures x + y + z + rest == x + (y + (z + rest))
  {
  }

  /**
   * Read after Write gives back total, count and buckets, and leaves the
   * reader at whatever follows, when the numbers fit in a Go int and every
   * tuple has its flat's width.
   */
  lemma SerialRoundTrip(total: int, count: seq<int>, b: seq<Tuples>, rest: seq<byte>)
    requires 0 <= total < Conv.TwoTo63
    requires |count| == Flats && forall j :: 0 <= j < Flats ==> 0 <= count[j] < Conv.TwoTo63
    requires |b| == Flats && Widths(b)
    ensures ReadImage(Serial(total, count, b) + rest) == Some((Image(total, count, b), rest))
  {
    var s2 := BucketsBytes(b) + rest;
    var s1 := IntsBytes(count) + s2;
    Nest(IntBytes(total), IntsBytes(count), BucketsBytes(b), rest);
    VarRoundTrip(Conv.U64(total), s1);
    IntsRoundTrip(count, Flats, s2);
    WidthsAll(b);
    BucketsRoundTrip(b, 0, rest);
  }

  // ---------------------------------------------------------------- writing

  /** The three objects a Writer method may change. */
  ghost predicate Same(w: Custom.Writer, sink: Conv.Sink, data: array<byte>)
    reads w
  {
    w.w == sink && w.data == data
  }

  /** The words of one tuple, in order (the unrolled WriteUint64 calls of Write). */
  method WriteTuple(w: Custom.Writer, t: seq<u64>)
    requires w.Valid()
    modifies w, w.data, w.w
    ensures w.Valid() && Same(w, old(w.w), old(w.data))
    ensures w.contents == old(w.contents) + TupleBytes(t)
  {
    var i := 0;
    while i < |t|
      invariant 0 <= i <= |t|
      invariant w.Valid() && Same(w, old(w.w), old(w.data))
      invariant w.contents == old(w.contents) + TupleBytes(t[..i])
    {
      i := WriteWordAt(w, t, i, old(w.contents));
    }
    assert t[..i] == t;
  }

  /** The word at i of a tuple whose words before i are written. */
  method WriteWordAt(w: Custom.Writer, t: seq<u64>, i: int, ghost head: seq<byte>) returns (j: int)
    requires w.Valid() && 0 <= i < |t| && w.contents == head + TupleBytes(t[..i])
    modifies w, w.data, w.w
    ensures w.Valid() && Same(w, old(w.w), old(w.data))
    ensures j == i + 1 && w.contents == head + TupleBytes(t[..j])
  {
    w.WriteUint64(t[i]);
    j := i + 1;
    TupleSnoc(t, i, j);
  }

  /** One bucket: uint64(len(tmp)), then its tuples. */
  method WriteBucket(w: Custom.Writer, bk: Tuples)
    requires w.Valid()
    modifies w, w.data, w.w
    ensures w.Valid() && Same(w, old(w.w), old(w.data))
    ensures w.contents == old(w.contents) + BucketBytes(bk)
  {
    w.WriteUint64Variable(Conv.U64(|bk|));
    ghost var head := w.contents;
    var i := 0;
    while i < |bk|
      invariant 0 <= i <= |bk|
      invariant w.Valid() && Same(w, old(w.w), old(w.data))
      invariant w.contents == head + TuplesBytes(bk[..i])
    {
      WriteTuple(w, bk[i]);
      ghost var i0 := i;
      i := i + 1;
      TuplesSnoc(bk, i0, i);
    }
    assert bk[..i] == bk;
  }

  /** The count table, entry by entry. */
  method WriteInts(w: Custom.Writer, count: seq<int>)
    requires w.Valid()
    modifies w, w.data, w.w
    ensures w.Valid() && Same(w, old(w.w), old(w.data))
    ensures w.contents == old(w.contents) + IntsBytes(count)
  {
    var i := 0;
    while i < |count|
      invariant 0 <= i <= |count|
      invariant w.Valid() && Same(w, old(w.w), old(w.data))
      invariant w.contents == old(w.contents) + IntsBytes(count[..i])
    {
      w.WriteUint64Variable(Conv.U64(count[i]));
      ghost var i0 := i;
      i := i + 1;
      IntsSnoc(count, i0, i);
    }
    assert count[..i] == count;
  }

  /** The buckets, in flat order. */
  method WriteBuckets(w: Custom.Writer, b: seq<Tuples>)
    requires w.Valid()
    modifies w, w.data, w.w
    ensures w.Valid() && Same(w, old(w.w), old(w.data))
    ensures w.contents == old(w.contents) + BucketsBytes(b)
  {
    var f := 0;
    while f < |b|
      invariant 0 <= f <= |b|
      invariant w.Valid() && Same(w, old(w.w), old(w.data))
      invariant w.contents == old(w.contents) + BucketsBytes(b[..f])
    {
      WriteBucket(w, b[f]);
      ghost var f0 := f;
      f := f + 1;
      BucketsSnoc(b, f0, f);
    }
    assert b[..f] == b;
  }

  /** Write: total, the 64 counts, then every bucket in flat order. */
  method WriteImage(w: Custom.Writer, total: int, count: seq<int>, b: seq<Tuples>)
    requires w.Valid()
    modifies w, w.data, w.w
    ensures w.Valid() && Same(w, old(w.w), old(w.data))
    ensures w.contents == old(w.contents) + Serial(total, count, b)
  {
    ghost var head := w.contents;
    w.WriteUint64Variable(Conv.U64(total));
    WriteInts(w, count);
    WriteBuckets(w, b);
    Regroup(head, IntBytes(total), IntsBytes(count), BucketsBytes(b));
  }

  /** Appending three pieces one by one appends their concatenation. */
  lemma Regroup(a: seq<byte>, x: seq<byte>, y: seq<byte>, z: seq<byte>)
    ensures a + x + y + z == a + (x + y + z)
  {
  }

  // ---------------------------------------------------------------- reading

  /** The bytes a reader has not read yet (none once its cursor is past the end). */
  function Rest(r: Custom.BytesReader): seq<byte>
    reads r
  {
    if 0 <= r.cursor <= |r.data| then r.data[r.cursor..] else []
  }

  /** ReadUint64Variable on the reader. */
  method NextVar(r: Custom.BytesReader) returns (v: u64)
    requires 0 <= r.cursor && ReadVar(Rest(r)).Some?
    modifies r
    ensures 0 <= r.cursor && Some((v, Rest(r))) == ReadVar(old(Rest(r)))
  {
    ghost var s := Rest(r);
    FieldShift(r.data, r.cursor, 1, r.data[r.cursor]);
    v := r.ReadUint64Variable();
    assert r.cursor <= |r.data| ==> r.data[r.cursor..] == s[r.cursor - old(r.cursor)..];
  }

  /** ReadUint64 on the reader. */
  method NextWord(r: Custom.BytesReader) returns (v: u64)
    requires 0 <= r.cursor && ReadWord(Rest(r)).Some?
    modifies r
    ensures 0 <= r.cursor && Some((v, Rest(r))) == ReadWord(old(Rest(r)))
  {
    ghost var s := Rest(r);
    v := r.ReadUint64();
    assert r.data[old(r.cursor)..r.cursor] == s[..8];
    assert r.data[r.cursor..] == s[8..];
  }

  /** A decoded sequence with what was decoded before it put in front. */
  function Prepend<T>(pre: seq<T>, o: Option<(seq<T>, seq<byte>)>): Option<(seq<T>, seq<byte>)>
  {
    match o
    case None => None
    case Some((xs, s)) => Some((pre + xs, s))
  }

  /** Reading a tuple word by word: the next word moves from the bytes to the words read. */
  lemma TupleStep(s: seq<byte>, k: nat, t: seq<u64>) returns (m: nat)
    requires k > 0 && Prepend(t, ReadTuple(s, k)).Some?
    ensures ReadWord(s).Some? && m == k - 1
    ensures Prepend(t, ReadTuple(s, k)) == Prepend(t + [ReadWord(s).value.0], ReadTuple(ReadWord(s).value.1, m))
  {
    m := k - 1;
    var v, s1 := ReadWord(s).value.0, ReadWord(s).value.1;
    assert t + ([v] + ReadTuple(s1, m).value.0) == t + [v] + ReadTuple(s1, m).value.0;
  }

  /** Reading tuples one by one. */
  lemma TuplesStep(s: seq<byte>, l: nat, k: nat, ts: Tuples) returns (m: nat)
    requires l > 0 && Prepend(ts, ReadTuples(s, l, k)).Some?
    ensures ReadTuple(s, k).Some? && m == l - 1
    ensures Prepend(ts, ReadTuples(s, l, k)) == Prepend(ts + [ReadTuple(s, k).value.0], ReadTuples(ReadTuple(s, k).value.1, m, k))
  {
    m := l - 1;
    var t, s1 := ReadTuple(s, k).value.0, ReadTuple(s, k).value.1;
    assert ts + ([t] + ReadTuples(s1, m, k).value.0) == ts + [t] + ReadTuples(s1, m, k).value.0;
  }

  /** Reading counts one by one. */
  lemma IntsStep(s: seq<byte>, n: nat, c: seq<int>) returns (m: nat)
    requires n > 0 && Prepend(c, ReadInts(s, n)).Some?
    ensures ReadVar(s).Some? && m == n - 1
    ensures Prepend(c, ReadInts(s, n)) == Prepend(c + [Conv.S64(ReadVar(s).value.0)], ReadInts(ReadVar(s).value.1, m))
  {
    m := n - 1;
    var x, s1 := Conv.S64(ReadVar(s).value.0), ReadVar(s).value.1;
    assert c + ([x] + ReadInts(s1, m).value.0) == c + [x] + ReadInts(s1, m).value.0;
  }

  /** Reading buckets one by one. */
  lemma BucketsStep(s: seq<byte>, f: nat, b: seq<Tuples>) returns (g: nat)
    requires f < Flats && Prepend(b, ReadBuckets(s, f)).Some?
    ensures ReadBucket(s, f).Some? && g == f + 1
    ensures Prepend(b, ReadBuckets(s, f)) == Prepend(b + [ReadBucket(s, f).value.0], ReadBuckets(ReadBucket(s, f).value.1, g))
  {
    g := f + 1;
    var bk, s1 := ReadBucket(s, f).value.0, ReadBucket(s, f).value.1;
    assert b + ([bk] + ReadBuckets(s1, g).value.0) == b + [bk] + ReadBuckets(s1, g).value.0;
  }

  /** Nothing read before: the decoding itself. */
  lemma PrependNone<T>(o: Option<(seq<T>, seq<byte>)>)
    ensures Prepend([], o) == o
  {
    if o.Some? {
      assert [] + o.value.0 == o.value.0;
    }
  }

  /** Nothing left to decode: what was decoded before is the result. */
  lemma PrependEnd<T>(pre: seq<T>, o: Option<(seq<T>, seq<byte>)>, s: seq<byte>)
    requires o == Some(([], s))
    ensures Prepend(pre, o) == Some((pre, s))
  {
    assert pre + [] == pre;
  }

  /** The k words of one tuple. */
  method NextTuple(r: Custom.BytesReader, k: nat) returns (t: seq<u64>)
    requires 0 <= r.cursor && ReadTuple(Rest(r), k).Some?
    modifies r
    ensures 0 <= r.cursor && Some((t, Rest(r))) == ReadTuple(old(Rest(r)), k)
  {
    t := [];
    PrependNone(ReadTuple(Rest(r), k));
    var i := 0;
    ghost var left: nat := k;
    while i < k
      invariant 0 <= r.cursor && 0 <= i <= k && left == k - i
      invariant Prepend(t, ReadTuple(Rest(r), left)) == ReadTuple(old(Rest(r)), k)
    {
      left := TupleStep(Rest(r), left, t);
      var v := NextWord(r);
      t, i := t + [v], i + 1;
    }
    PrependEnd(t, ReadTuple(Rest(r), left), Rest(r));
  }

  /** l tuples of k words. */
  method NextTuples(r: Custom.BytesReader, l: nat, k: nat) returns (ts: Tuples)
    requires 0 <= r.cursor && ReadTuples(Rest(r), l, k).Some?
    modifies r
    ensures 0 <= r.cursor && Some((ts, Rest(r))) == ReadTuples(old(Rest(r)), l, k)
  {
    ts := [];
    PrependNone(ReadTuples(Rest(r), l, k));
    var i := 0;
    ghost var left: nat := l;
    while i < l
      invariant 0 <= r.cursor && 0 <= i <= l && left == l - i
      invariant Prepend(ts, ReadTuples(Rest(r), left, k)) == ReadTuples(old(Rest(r)), l, k)
    {
      left := TuplesStep(Rest(r), left, k, ts);
      var t := NextTuple(r, k);
      ts, i := ts + [t], i + 1;
    }
    PrependEnd(ts, ReadTuples(Rest(r), left, k), Rest(r));
  }

  /** Bucket f: its length, then that many tuples of Arity(f) words. */
  method NextBucket(r: Custom.BytesReader, f: nat) returns (bk: Tuples)
    requires 0 <= r.cursor && ReadBucket(Rest(r), f).Some?
    modifies r
    ensures 0 <= r.cursor && Some((bk, Rest(r))) == ReadBucket(old(Rest(r)), f)
  {
    var l := NextVar(r);
    bk := NextTuples(r, l, Arity(f));
  }

  /** One more bucket read after the buckets b below it. */
  method NextBucketAfter(r: Custom.BytesReader, f: nat, b: seq<Tuples>, ghost whole: Option<(seq<Tuples>, seq<byte>)>)
    returns (b': seq<Tuples>, f': nat)
    requires 0 <= r.cursor && f < Flats && whole.Some? && Prepend(b, ReadBuckets(Rest(r), f)) == whole
    modifies r
    ensures f' == f + 1
    ensures 0 <= r.cursor && Prepend(b', ReadBuckets(Rest(r), f')) == whole
  {
    ghost var g := BucketsStep(Rest(r), f, b);
    var bk := NextBucket(r, f);
    b', f' := b + [bk], f + 1;
  }

  /** n counts, each read back as a Go int. */
  method NextInts(r: Custom.BytesReader, n: nat) returns (c: seq<int>)
    requires 0 <= r.cursor && ReadInts(Rest(r), n).Some?
    modifies r
    ensures 0 <= r.cursor && Some((c, Rest(r))) == ReadInts(old(Rest(r)), n)
  {
    c := [];
    PrependNone(ReadInts(Rest(r), n));
    var i := 0;
    ghost var left: nat := n;
    while i < n
      invariant 0 <= r.cursor && 0 <= i <= n && left == n - i
      invariant Prepend(c, ReadInts(Rest(r), left)) == ReadInts(old(Rest(r)), n)
    {
      left := IntsStep(Rest(r), left, c);
      var v := NextVar(r);
      c, i := c + [Conv.S64(v)], i + 1;
    }
    PrependEnd(c, ReadInts(Rest(r), left), Rest(r));
  }

  /** The 64 buckets, in flat order. */
  method NextBuckets(r: Custom.BytesReader) returns (b: seq<Tuples>)
    requires 0 <= r.cursor && ReadBuckets(Rest(r), 0).Some?
    modifies r
    ensures 0 <= r.cursor && Some((b, Rest(r))) == ReadBuckets(old(Rest(r)), 0)
  {
    b := [];
    ghost var whole := ReadBuckets(Rest(r), 0);
    PrependNone(whole);
    var f := 0;
    while f < Flats
      invariant 0 <= f <= Flats && 0 <= r.cursor
      invariant Prepend(b, ReadBuckets(Rest(r), f)) == whole
    {
      b, f := NextBucketAfter(r, f, b, whole);
    }
    PrependEnd(b, ReadBuckets(Rest(r), f), Rest(r));
  }

  /** Read: total, the 64 counts, then the 64 buckets, as an Image. */
  method ReadFrom(r: Custom.BytesReader) returns (im: Image)
    requires 0 <= r.cursor && ReadImage(Rest(r)).Some?
    modifies r
    ensures 0 <= r.cursor && Some((im, Rest(r))) == ReadImage(old(Rest(r)))
  {
    var t := NextVar(r);
    var c := NextInts(r, Flats);
    var b := NextBuckets(r);
    im := Image(Conv.S64(t), c, b);
  }
}
