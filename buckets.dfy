/**
 * The bucket layout shared by KeyBytes, KeyValBytes and CounterBytes
 * (vendor/github.com/AlasdairF/BinSearch/binsearch.go): keys of 1 to 64
 * bytes live in 64 buckets, one per flat index 8 * class + sub, where class
 * is (len-1)/8 and sub the byte count of the last chunk minus one. The Go
 * code spells the buckets out as limit8[8] ... limit64[8]; here they are one
 * sequence of 64 buckets of word tuples.
 *
 * A container lists its keys bucket by bucket and, inside a bucket, in the
 * order of the tuples; that is the order of Keys and of Next, and the index
 * Find and Add return is a position in it.
 */
module Buckets {
  import opened Words
  import Introsort

  /** The error result of the Add and Build methods (nil or an errors.New). */
  datatype Outcome = Ok | Failed(msg: string)

  /** The error AddUnsorted and AddAt return for a key longer than 64 bytes. */
  const TooLong: string := "Maximum key length is 64 bytes"

  /** The error Build returns when a bucket has no insertion order to sort by. */
  const BuiltTwice: string := "Build can only be run once. After the first time use AddAt."

  /** The number of buckets: eight length classes of eight last-chunk lengths each. */
  const Flats: int := 64

  /** The stored tuples of one bucket, in order. */
  type Tuples = seq<seq<u64>>

  /** Every tuple in bucket f starts with the well-formed words of a key of length f + 1. */
  ghost predicate AllWellFormed(b: seq<Tuples>)
  {
    forall f, i :: 0 <= f < |b| && 0 <= i < |b[f]| ==> |b[f][i]| >= 1 && WellFormed(f, Stem(f, b[f][i]))
  }

  /**
   * The key words of a stored tuple: the first Arity(f) words (KeyValBytes
   * keeps the value as one more word after them).
   */
  function Stem(f: int, t: seq<u64>): (w: seq<u64>)
    requires f >= 0
    ensures |w| == (if |t| < Arity(f) then |t| else Arity(f))
  {
    if |t| <= Arity(f) then t else t[..Arity(f)]
  }

  /** The number of tuples in the buckets below j: the rank of the first tuple of bucket j. */
  function Size(b: seq<Tuples>, j: int): (n: nat)
    requires 0 <= j <= |b|
  {
    if j == 0 then 0 else Size(b, j - 1) + |b[j - 1]|
  }

  /** Ranks grow with the bucket index. */
  lemma {:induction false} SizeMono(b: seq<Tuples>, i: int, j: int)
    requires 0 <= i <= j <= |b|
    ensures Size(b, i) + (if i < j then |b[i]| else 0) <= Size(b, j)
    decreases j - i
  {
    if i < j {
      SizeMono(b, i + 1, j);
    }
  }

  /** Buckets of the same lengths give the same ranks. */
  lemma {:induction false} SizeSame(b: seq<Tuples>, c: seq<Tuples>, j: int)
    requires 0 <= j <= |b| == |c|
    requires forall f :: 0 <= f < |b| ==> |b[f]| == |c[f]|
    ensures Size(b, j) == Size(c, j)
  {
    if j > 0 {
      SizeSame(b, c, j - 1);
    }
  }

  /** A stored tuple together with the bucket it is stored in. */
  datatype Slot = Slot(flat: int, tuple: seq<u64>)

  /** The slots of bucket f, in order. */
  function Slots(f: int, c: Tuples): (s: seq<Slot>)
    ensures |s| == |c|
    ensures forall i :: 0 <= i < |c| ==> s[i] == Slot(f, c[i])
  {
    seq(|c|, i requires 0 <= i < |c| => Slot(f, c[i]))
  }

  /** The slots of the buckets below j, bucket by bucket: the traversal order of Keys and Next. */
  function Flatten(b: seq<Tuples>, j: int): (s: seq<Slot>)
    requires 0 <= j <= |b|
    ensures |s| == Size(b, j)
  {
    if j == 0 then [] else Flatten(b, j - 1) + Slots(j - 1, b[j - 1])
  }

  /** Position Size(b, g) + i of the traversal is tuple i of bucket g. */
  lemma {:induction false} FlattenIndex(b: seq<Tuples>, j: int, g: int, i: int)
    requires 0 <= g < j <= |b| && 0 <= i < |b[g]|
    ensures Size(b, g) + i < Size(b, j)
    ensures Flatten(b, j)[Size(b, g) + i] == Slot(g, b[g][i])
  {
    SizeMono(b, g, j);
    var L := Flatten(b, j - 1);
    var M := Slots(j - 1, b[j - 1]);
    var p := Size(b, g) + i;
    assert Flatten(b, j) == L + M;
    if g < j - 1 {
      FlattenIndex(b, j - 1, g, i);
      SizeMono(b, g, j - 1);
      assert (L + M)[p] == L[p];
    } else {
      assert (L + M)[p] == M[i];
    }
  }

  /** Every position of the traversal lies in one bucket. */
  lemma {:induction false} Locate(b: seq<Tuples>, j: int, p: int) returns (g: int, i: int)
    requires 0 <= j <= |b| && 0 <= p < Size(b, j)
    ensures 0 <= g < j && 0 <= i < |b[g]| && p == Size(b, g) + i
  {
    if p >= Size(b, j - 1) {
      g, i := j - 1, p - Size(b, j - 1);
    } else {
      g, i := Locate(b, j - 1, p);
    }
  }

  /** ... and in only one. */
  lemma {:induction false} LocateUnique(b: seq<Tuples>, g: int, i: int, h: int, k: int)
    requires 0 <= g < |b| && 0 <= i < |b[g]| && 0 <= h < |b| && 0 <= k < |b[h]|
    requires Size(b, g) + i == Size(b, h) + k
    ensures g == h && i == k
  {
    if g < h {
      SizeMono(b, g, h);
    } else if h < g {
      SizeMono(b, h, g);
    }
  }

  /** The slots of the traversal hold every tuple of bucket f at flat index f. */
  lemma {:induction false} FlattenSlots(b: seq<Tuples>, j: int, p: int)
    requires 0 <= j <= |b| && 0 <= p < Size(b, j)
    ensures var s := Flatten(b, j)[p];
      0 <= s.flat < j && exists i :: 0 <= i < |b[s.flat]| && b[s.flat][i] == s.tuple
  {
    var g, i := Locate(b, j, p);
    FlattenIndex(b, j, g, i);
  }

  // ---------------------------------------------------------------------
  // From slots to keys

  /** A slot whose tuple starts with the well-formed words of a key of its bucket. */
  ghost predicate Stored(s: Slot)
  {
    s.flat >= 0 && |s.tuple| >= 1 && WellFormed(s.flat, Stem(s.flat, s.tuple))
  }

  /** The key a slot lists (reverse8 ... reverse64, with the corrected last word). */
  function KeyOf(s: Slot): (key: seq<byte>)
    requires Stored(s)
    ensures |key| == s.flat + 1
  {
    ReverseExact(s.flat, Stem(s.flat, s.tuple))
  }

  /** A key of up to 64 bytes is stored as its words in its bucket, and lists as itself ("\x00" if empty). */
  lemma {:induction false} StoredAs(key: seq<byte>)
    requires |key| <= MaxKeyLength
    ensures Stored(Slot(Flat(key), KeyWords(key)))
    ensures KeyOf(Slot(Flat(key), KeyWords(key))) == Canonical(key)
  {
    KeyWordsArity(key);
    StoredKey(key);
    assert Stem(Flat(key), KeyWords(key)) == KeyWords(key);
  }

  /** The key a slot lists belongs in the slot's bucket and is stored as the slot's key words. */
  lemma {:induction false} KeyOfWords(s: Slot)
    requires Stored(s)
    ensures |KeyOf(s)| <= MaxKeyLength
    ensures Flat(KeyOf(s)) == s.flat && KeyWords(KeyOf(s)) == Stem(s.flat, s.tuple)
  {
    KeyWordsReverseExact(s.flat, Stem(s.flat, s.tuple));
  }

  /** Every slot of the buckets is a stored key. */
  lemma {:induction false} FlattenStored(b: seq<Tuples>, j: int)
    requires 0 <= j <= |b| && AllWellFormed(b)
    ensures forall p :: 0 <= p < Size(b, j) ==> Stored(Flatten(b, j)[p])
  {
    forall p | 0 <= p < Size(b, j)
      ensures Stored(Flatten(b, j)[p])
    {
      var g, i := Locate(b, j, p);
      FlattenIndex(b, j, g, i);
    }
  }

  /** The keys of a run of stored slots. */
  function KeysOf(s: seq<Slot>): (keys: seq<seq<byte>>)
    requires forall p :: 0 <= p < |s| ==> Stored(s[p])
    ensures |keys| == |s|
    ensures forall p :: 0 <= p < |s| ==> keys[p] == KeyOf(s[p])
  {
    seq(|s|, p requires 0 <= p < |s| => KeyOf(s[p]))
  }

  /** The keys listed by the buckets, in traversal order. */
  function Listing(b: seq<Tuples>): (keys: seq<seq<byte>>)
    requires AllWellFormed(b)
    ensures |keys| == Size(b, |b|)
  {
    FlattenStored(b, |b|);
    KeysOf(Flatten(b, |b|))
  }

  /** Position Size(b, g) + i of the listing is the key of tuple i of bucket g. */
  lemma {:induction false} ListingIndex(b: seq<Tuples>, g: int, i: int, p: int)
    requires AllWellFormed(b) && 0 <= g < |b| && 0 <= i < |b[g]| && p == Size(b, g) + i
    ensures Stored(Slot(g, b[g][i]))
    ensures p < |Listing(b)|
    ensures Listing(b)[p] == KeyOf(Slot(g, b[g][i]))
  {
    FlattenIndex(b, |b|, g, i);
    assert Flatten(b, |b|)[p] == Slot(g, b[g][i]);
  }

  /**
   * The key Keys and Next return for a slot (reverse8 ... reverse64): the
   * words written out with the leading zero bytes of the last one dropped.
   * It is the key the slot holds exactly when that key's last chunk does not
   * begin with a zero byte.
   */
  function ShownKey(s: Slot): (key: seq<byte>)
    requires Stored(s)
    ensures key == KeyOf(s) <==> LastChunk(KeyOf(s))[0] != 0
  {
    KeyOfWords(s);
    ReverseKeyWords(KeyOf(s));
    Reverse(Stem(s.flat, s.tuple))
  }

  /** The keys of a run of stored slots as Keys and Next return them. */
  function ShownKeys(s: seq<Slot>): (keys: seq<seq<byte>>)
    requires forall p :: 0 <= p < |s| ==> Stored(s[p])
    ensures |keys| == |s|
    ensures forall p :: 0 <= p < |s| ==> keys[p] == ShownKey(s[p])
  {
    seq(|s|, p requires 0 <= p < |s| => ShownKey(s[p]))
  }

  /**
   * The listing as Keys returns it and Next visits it: position by position
   * the key of the listing, except where that key's last chunk begins with a
   * zero byte.
   */
  function Shown(b: seq<Tuples>): (keys: seq<seq<byte>>)
    requires AllWellFormed(b)
    ensures |keys| == |Listing(b)|
  {
    FlattenStored(b, |b|);
    ShownKeys(Flatten(b, |b|))
  }

  /** The shown listing differs from the listing exactly at the keys whose last chunk begins with a zero byte. */
  lemma {:induction false} ShownListing(b: seq<Tuples>)
    requires AllWellFormed(b)
    ensures forall p :: 0 <= p < |Shown(b)| ==> (Shown(b)[p] == Listing(b)[p] <==> LastChunk(Listing(b)[p])[0] != 0)
  {
    forall p | 0 <= p < |Shown(b)|
      ensures Shown(b)[p] == Listing(b)[p] <==> LastChunk(Listing(b)[p])[0] != 0
    {
      var g, i := Locate(b, |b|, p);
      ShownIndex(b, g, i, p);
      ListingIndex(b, g, i, p);
    }
  }

  /** Position Size(b, g) + i of the shown listing is the shown key of tuple i of bucket g. */
  lemma {:induction false} ShownIndex(b: seq<Tuples>, g: int, i: int, p: int)
    requires AllWellFormed(b) && 0 <= g < |b| && 0 <= i < |b[g]| && p == Size(b, g) + i
    ensures Stored(Slot(g, b[g][i]))
    ensures p < |Shown(b)|
    ensures Shown(b)[p] == ShownKey(Slot(g, b[g][i]))
  {
    FlattenIndex(b, |b|, g, i);
    assert Flatten(b, |b|)[p] == Slot(g, b[g][i]);
  }

  // ---------------------------------------------------------------------
  // Insertion

  /** The bucket with x inserted at position at (the two copies of Add and AddAt). */
  function Insert<T>(c: seq<T>, at: int, x: T): (d: seq<T>)
    requires 0 <= at <= |c|
    ensures |d| == |c| + 1 && d[at] == x
    ensures forall i :: 0 <= i < at ==> d[i] == c[i]
    ensures forall i :: at < i <= |c| ==> d[i] == c[i - 1]
  {
    c[..at] + [x] + c[at..]
  }

  /** Inserting into bucket f adds one to the rank of every later bucket. */
  lemma {:induction false} InsertSize(b: seq<Tuples>, f: int, at: int, x: seq<u64>, j: int)
    requires 0 <= f < |b| && 0 <= at <= |b[f]| && 0 <= j <= |b|
    ensures Size(b[f := Insert(b[f], at, x)], j) == Size(b, j) + (if j > f then 1 else 0)
  {
    if j > 0 {
      InsertSize(b, f, at, x, j - 1);
    }
  }

  /** Inserting into bucket f keeps every tuple well formed. */
  lemma {:induction false} InsertWellFormed(b: seq<Tuples>, f: int, at: int, x: seq<u64>)
    requires AllWellFormed(b) && 0 <= f < |b| && 0 <= at <= |b[f]|
    requires Stored(Slot(f, x))
    ensures AllWellFormed(b[f := Insert(b[f], at, x)])
  {
    var b' := b[f := Insert(b[f], at, x)];
    forall g, i | 0 <= g < |b'| && 0 <= i < |b'[g]|
      ensures |b'[g][i]| >= 1 && WellFormed(g, Stem(g, b'[g][i]))
    {
      if g == f && i > at {
        assert b'[g][i] == b[f][i - 1];
      }
    }
  }

  /** Buckets that agree below f have the same traversal below f. */
  lemma {:induction false} BelowUnchanged(b: seq<Tuples>, c: seq<Tuples>, f: int)
    requires 0 <= f <= |b| && f <= |c|
    requires forall g :: 0 <= g < f ==> b[g] == c[g]
    ensures Size(b, f) == Size(c, f) && Flatten(b, f) == Flatten(c, f)
  {
    if f > 0 {
      BelowUnchanged(b, c, f - 1);
    }
  }

  /** Inserting into the first part of a concatenation. */
  lemma {:induction false} InsertAppend<T>(L: seq<T>, M: seq<T>, r: int, k: T)
    requires 0 <= r <= |L|
    ensures Insert(L, r, k) + M == Insert(L + M, r, k)
  {
    assert (L + M)[..r] == L[..r];
    assert (L + M)[r..] == L[r..] + M;
  }

  /** Inserting into the second part of a concatenation. */
  lemma {:induction false} InsertPrepend<T>(L: seq<T>, M: seq<T>, at: int, r: int, k: T)
    requires 0 <= at <= |M| && r == |L| + at
    ensures L + Insert(M, at, k) == Insert(L + M, r, k)
  {
    assert (L + M)[..r] == L + M[..at];
    assert (L + M)[r..] == M[at..];
  }

  /** The slots of a bucket with x inserted are its slots with x's slot inserted. */
  lemma {:induction false} SlotsInsert(f: int, c: Tuples, at: int, x: seq<u64>)
    requires 0 <= at <= |c|
    ensures Slots(f, Insert(c, at, x)) == Insert(Slots(f, c), at, Slot(f, x))
  {
    var s, t := Slots(f, Insert(c, at, x)), Insert(Slots(f, c), at, Slot(f, x));
    forall i | 0 <= i < |s|
      ensures s[i] == t[i]
    {
      if i > at {
        assert s[i] == Slot(f, c[i - 1]);
      }
    }
    assert s == t;
  }

  /** Inserting into bucket f inserts into the traversal up to and including bucket f. */
  lemma {:induction false} InsertFlattenAt(b: seq<Tuples>, f: int, at: int, x: seq<u64>)
    requires 0 <= f < |b| && 0 <= at <= |b[f]|
    ensures Flatten(b[f := Insert(b[f], at, x)], f + 1) == Insert(Flatten(b, f + 1), Size(b, f) + at, Slot(f, x))
  {
    var b' := b[f := Insert(b[f], at, x)];
    var L, M, S := Flatten(b, f), Slots(f, b[f]), Slot(f, x);
    var r := Size(b, f) + at;
    BelowUnchanged(b, b', f);
    SlotsInsert(f, b[f], at, x);
    InsertPrepend(L, M, at, r, S);
    assert Flatten(b', f + 1) == L + Insert(M, at, S);
    assert Flatten(b, f + 1) == L + M;
  }

  /**
   * Inserting tuple x at position at of bucket f inserts its slot into the
   * traversal at rank Size(b, f) + at and moves every later slot up by one.
   */
  lemma {:induction false} InsertFlatten(b: seq<Tuples>, f: int, at: int, x: seq<u64>, j: int, r: int)
    requires 0 <= f < |b| && 0 <= at <= |b[f]| && f < j <= |b| && r == Size(b, f) + at
    ensures r <= Size(b, j)
    ensures Flatten(b[f := Insert(b[f], at, x)], j) == Insert(Flatten(b, j), r, Slot(f, x))
  {
    SizeMono(b, f, j);
    if j == f + 1 {
      InsertFlattenAt(b, f, at, x);
    } else {
      InsertFlatten(b, f, at, x, j - 1, r);
      InsertFlattenNext(b, f, at, x, j, r);
    }
  }

  /** A bucket after f adds the same slots to the traversal with or without the insertion. */
  lemma InsertFlattenNext(b: seq<Tuples>, f: int, at: int, x: seq<u64>, j: int, r: int)
    requires 0 <= f < |b| && 0 <= at <= |b[f]| && f + 1 < j <= |b| && 0 <= r <= Size(b, j - 1)
    requires Flatten(b[f := Insert(b[f], at, x)], j - 1) == Insert(Flatten(b, j - 1), r, Slot(f, x))
    ensures Flatten(b[f := Insert(b[f], at, x)], j) == Insert(Flatten(b, j), r, Slot(f, x))
  {
    var b' := b[f := Insert(b[f], at, x)];
    assert b'[j - 1] == b[j - 1];
    InsertAppend(Flatten(b, j - 1), Slots(j - 1, b[j - 1]), r, Slot(f, x));
  }

  /** A run with one more stored slot is all stored. */
  lemma {:induction false} InsertStored(s: seq<Slot>, r: int, x: Slot)
    requires 0 <= r <= |s| && Stored(x)
    requires forall p :: 0 <= p < |s| ==> Stored(s[p])
    ensures forall p :: 0 <= p < |s| + 1 ==> Stored(Insert(s, r, x)[p])
  {
    var t := Insert(s, r, x);
    forall p | 0 <= p < |t|
      ensures Stored(t[p])
    {
      if p > r {
        assert t[p] == s[p - 1];
      }
    }
  }

  /** The keys of a run with one more slot are the keys of the run with one more key. */
  lemma {:induction false} InsertKeys(s: seq<Slot>, r: int, x: Slot)
    requires 0 <= r <= |s| && Stored(x)
    requires forall p :: 0 <= p < |s| ==> Stored(s[p])
    ensures forall p :: 0 <= p < |s| + 1 ==> Stored(Insert(s, r, x)[p])
    ensures KeysOf(Insert(s, r, x)) == Insert(KeysOf(s), r, KeyOf(x))
  {
    InsertStored(s, r, x);
    var t := Insert(s, r, x);
    var K := KeysOf(t);
    var K' := Insert(KeysOf(s), r, KeyOf(x));
    forall p | 0 <= p < |t|
      ensures K[p] == K'[p]
    {
      if p > r {
        assert t[p] == s[p - 1];
      }
    }
    assert K == K';
  }

  /**
   * Inserting tuple x at position at of bucket f inserts its key into the
   * listing at rank Size(b, f) + at.
   */
  lemma {:induction false} InsertListing(b: seq<Tuples>, f: int, at: int, x: seq<u64>, r: int)
    requires AllWellFormed(b) && 0 <= f < |b| && 0 <= at <= |b[f]| && Stored(Slot(f, x))
    requires r == Size(b, f) + at
    ensures AllWellFormed(b[f := Insert(b[f], at, x)])
    ensures r <= Size(b, |b|)
    ensures Listing(b[f := Insert(b[f], at, x)]) == Insert(Listing(b), r, KeyOf(Slot(f, x)))
  {
    var b' := b[f := Insert(b[f], at, x)];
    var s, S := Flatten(b, |b|), Slot(f, x);
    InsertWellFormed(b, f, at, x);
    InsertFlatten(b, f, at, x, |b|, r);
    assert Flatten(b', |b'|) == Insert(s, r, S);
    FlattenStored(b, |b|);
    InsertKeys(s, r, S);
    assert Listing(b') == KeysOf(Insert(s, r, S));
    assert Listing(b) == KeysOf(s);
  }

  // ---------------------------------------------------------------------
  // Build's sort of one bucket

  /**
   * A record of Build's sorts (the KeyVal of sortIntUint64, sortLimit16 ...
   * sortLimit64): the insertion number K of an added key and its words V.
   */
  datatype Entry = Entry(k: int, v: seq<u64>)

  /** The order of those sorts: the words read as one number, which compares them word by word. */
  function EntryRank(e: Entry): int
  {
    Num(e.v)
  }

  /** The records of a bucket: tuple i with insertion number m[i]. */
  function Pairs(m: seq<int>, c: Tuples): (s: seq<Entry>)
    requires |m| == |c|
    ensures |s| == |c| && forall i :: 0 <= i < |c| ==> s[i] == Entry(m[i], c[i])
  {
    seq(|c|, i requires 0 <= i < |c| => Entry(m[i], c[i]))
  }

  /** The insertion numbers of a run of records. */
  function Numbers(s: seq<Entry>): (m: seq<int>)
    ensures |m| == |s| && forall i :: 0 <= i < |s| ==> m[i] == s[i].k
  {
    seq(|s|, i requires 0 <= i < |s| => s[i].k)
  }

  /** The words of a run of records. */
  function TuplesOf(s: seq<Entry>): (c: Tuples)
    ensures |c| == |s| && forall i :: 0 <= i < |s| ==> c[i] == s[i].v
  {
    seq(|s|, i requires 0 <= i < |s| => s[i].v)
  }

  /** Rearranging records rearranges their numbers and their words alike. */
  lemma {:induction false} ProjectPerm(s: seq<Entry>, t: seq<Entry>)
    requires multiset(s) == multiset(t)
    ensures multiset(Numbers(s)) == multiset(Numbers(t))
    ensures multiset(TuplesOf(s)) == multiset(TuplesOf(t))
    decreases |s|
  {
    if |s| > 0 {
      assert s[0] in multiset(t);
      var i :| 0 <= i < |t| && t[i] == s[0];
      RemoveFirst(s, t, i);
      ProjectPerm(s[1..], t[..i] + t[i + 1..]);
      ProjectAt(s, 0);
      ProjectAt(t, i);
    }
  }

  /** Taking the first element out of s and an equal one out of t keeps their multisets equal. */
  lemma RemoveFirst<T>(s: seq<T>, t: seq<T>, i: int)
    requires multiset(s) == multiset(t) && |s| > 0 && 0 <= i < |t| && t[i] == s[0]
    ensures s[..0] + s[1..] == s[1..]
    ensures multiset(s[1..]) == multiset(t[..i] + t[i + 1..])
  {
    RemoveAt(t, i);
    assert s == [s[0]] + s[1..];
  }

  /** Taking out the element at i takes it out of the multiset. */
  lemma RemoveAt<T>(t: seq<T>, i: int)
    requires 0 <= i < |t|
    ensures multiset(t[..i] + t[i + 1..]) == multiset(t) - multiset{t[i]}
  {
    assert t == t[..i] + [t[i]] + t[i + 1..];
  }

  /** The numbers and words of a run are those of the run without element i, with element i's put back. */
  lemma ProjectAt(t: seq<Entry>, i: int)
    requires 0 <= i < |t|
    ensures multiset(Numbers(t)) == multiset(Numbers(t[..i] + t[i + 1..])) + multiset{t[i].k}
    ensures multiset(TuplesOf(t)) == multiset(TuplesOf(t[..i] + t[i + 1..])) + multiset{t[i].v}
  {
    var a, b := t[..i], t[i + 1..];
    assert t == a + ([t[i]] + b);
    ProjectAppend(a, [t[i]] + b);
    ProjectAppend([t[i]], b);
    ProjectAppend(a, b);
    assert Numbers([t[i]]) == [t[i].k];
    assert TuplesOf([t[i]]) == [t[i].v];
  }

  /** Numbers and words of a concatenation are the concatenations of theirs. */
  lemma ProjectAppend(a: seq<Entry>, b: seq<Entry>)
    ensures Numbers(a + b) == Numbers(a) + Numbers(b)
    ensures TuplesOf(a + b) == TuplesOf(a) + TuplesOf(b)
  {
    assert forall i :: 0 <= i < |a + b| ==> Numbers(a + b)[i] == (Numbers(a) + Numbers(b))[i];
    assert forall i :: 0 <= i < |a + b| ==> TuplesOf(a + b)[i] == (TuplesOf(a) + TuplesOf(b))[i];
  }

  /**
   * One bucket of Build: the tuples paired with their insertion numbers,
   * sorted on the tuples (sortIntUint64.Asc for keys of up to 8 bytes,
   * sortLimit16.Asc ... sortLimit64.Asc for the longer ones), and split
   * again into the sorted bucket and the numbers in their new order.
   */
  method SortBucket(c: Tuples, m: seq<int>, n: nat) returns (c': Tuples, m': seq<int>)
    requires |m| == |c| && forall i :: 0 <= i < |c| ==> |c[i]| == n
    ensures |c'| == |c| && |m'| == |c|
    ensures SortedOn(c', n)
    ensures multiset(c') == multiset(c) && multiset(m') == multiset(m)
    ensures forall i :: 0 <= i < |c'| ==> Entry(m'[i], c'[i]) in Pairs(m, c)
  {
    var temp := new Entry[|c|](z requires 0 <= z < |c| => Entry(m[z], c[z]));
    assert temp[..] == Pairs(m, c);
    Introsort.Sort(temp, EntryRank);
    var s := temp[..];
    c', m' := TuplesOf(s), Numbers(s);
    ProjectPerm(s, Pairs(m, c));
    assert Numbers(Pairs(m, c)) == m && TuplesOf(Pairs(m, c)) == c;
    forall i | 0 <= i < |s|
      ensures Entry(m'[i], c'[i]) in Pairs(m, c) && |c'[i]| == n
    {
      assert s[i] in multiset(Pairs(m, c));
    }
    forall i, j | 0 <= i < j < |c'|
      ensures Num(c'[i][..n]) <= Num(c'[j][..n])
    {
      assert c'[i][..n] == c'[i] && c'[j][..n] == c'[j];
    }
  }

  // ---------------------------------------------------------------------
  // Binary search

  /** The tuples of c, compared on their first n words, never decrease. */
  ghost predicate SortedOn(c: Tuples, n: nat)
  {
    (forall i :: 0 <= i < |c| ==> |c[i]| >= n) &&
    forall i, j :: 0 <= i < j < |c| ==> Num(c[i][..n]) <= Num(c[j][..n])
  }

  /** ... and never repeat. */
  ghost predicate StrictOn(c: Tuples, n: nat)
  {
    (forall i :: 0 <= i < |c| ==> |c[i]| >= n) &&
    forall i, j :: 0 <= i < j < |c| ==> Num(c[i][..n]) < Num(c[j][..n])
  }

  /**
   * The binary search of Find, Add and Update: it compares a with the first
   * |a| words of the middle tuple, word by word, and either lands on a tuple
   * that starts with a or returns the position a would be inserted at.
   */
  method Search(c: Tuples, a: seq<u64>) returns (at: int, found: bool)
    requires SortedOn(c, |a|)
    ensures 0 <= at <= |c|
    ensures found ==> at < |c| && c[at][..|a|] == a
    ensures !found ==> forall i :: 0 <= i < at ==> Num(c[i][..|a|]) < Num(a)
    ensures !found ==> forall i :: at <= i < |c| ==> Num(a) < Num(c[i][..|a|])
  {
    var min, max := 0, |c| - 1;
    while min <= max
      invariant 0 <= min <= max + 1 <= |c|
      invariant forall i :: 0 <= i < min ==> Num(c[i][..|a|]) < Num(a)
      invariant forall i :: max < i < |c| ==> Num(a) < Num(c[i][..|a|])
    {
      at := min + (max - min) / 2;
      var word := c[at][..|a|];
      CompareNum(a, word);
      var cmp := Compare(a, word);
      if cmp < 0 {
        max := at - 1;
      } else if cmp > 0 {
        min := at + 1;
      } else {
        return at, true;
      }
    }
    return min, false;
  }

  /** A tuple inserted at the search position keeps the bucket ordered, strictly if it was. */
  lemma {:induction false} InsertSorted(c: Tuples, n: nat, at: int, x: seq<u64>)
    requires SortedOn(c, n) && 0 <= at <= |c| && |x| >= n
    requires forall i :: 0 <= i < at ==> Num(c[i][..n]) < Num(x[..n])
    requires forall i :: at <= i < |c| ==> Num(x[..n]) < Num(c[i][..n])
    ensures SortedOn(Insert(c, at, x), n)
    ensures StrictOn(c, n) ==> StrictOn(Insert(c, at, x), n)
  {
    var d := Insert(c, at, x);
    forall i, j | 0 <= i < j < |d|
      ensures Num(d[i][..n]) <= Num(d[j][..n])
      ensures StrictOn(c, n) ==> Num(d[i][..n]) < Num(d[j][..n])
    {
      InsertedPair(c, n, at, x, i, j);
    }
  }

  /** InsertSorted for one pair of positions of the new bucket. */
  lemma InsertedPair(c: Tuples, n: nat, at: int, x: seq<u64>, i: int, j: int)
    requires SortedOn(c, n) && 0 <= at <= |c| && |x| >= n
    requires forall i :: 0 <= i < at ==> Num(c[i][..n]) < Num(x[..n])
    requires forall i :: at <= i < |c| ==> Num(x[..n]) < Num(c[i][..n])
    requires 0 <= i < j <= |c|
    ensures Num(Insert(c, at, x)[i][..n]) <= Num(Insert(c, at, x)[j][..n])
    ensures StrictOn(c, n) ==> Num(Insert(c, at, x)[i][..n]) < Num(Insert(c, at, x)[j][..n])
  {
    var d := Insert(c, at, x);
    if j < at {
    } else if j == at {
    } else if i < at {
    } else if i == at {
      assert d[j] == c[j - 1];
    } else {
      assert d[i] == c[i - 1] && d[j] == c[j - 1];
    }
  }
}
