/**
 * KeyBytes (vendor/github.com/AlasdairF/BinSearch/binsearch.go lines
 * 144-168 and 421-2367): a sorted set of byte keys of up to 64 bytes, kept
 * as word tuples in 64 buckets, with a rank table count that turns a
 * position inside a bucket into a position in the whole listing.
 *
 * Keys are added either one at a time in order (Add, AddAt), which keeps
 * every bucket sorted and count a table of ranks, or in bulk (AddUnsorted)
 * followed by one Build, which sorts the buckets, turns count into ranks and
 * reports which added key ended up where. Reset and Next walk the keys, Keys
 * lists them all, and Write and Read store and restore the whole index.
 */
module KeyBytesIndex {
  import opened Words
  import opened Buckets
  import Conv
  import Custom
  import KeyBytesCodec

  /** Every tuple of bucket f has exactly the Arity(f) words of a key (no value word). */
  ghost predicate Exact(b: seq<Tuples>)
  {
    forall f, i :: 0 <= f < |b| && 0 <= i < |b[f]| ==> |b[f][i]| == Arity(f)
  }

  /** Every bucket is sorted on its key words. */
  ghost predicate AllSorted(b: seq<Tuples>)
  {
    forall f :: 0 <= f < |b| ==> SortedOn(b[f], Arity(f))
  }

  /** Every bucket is strictly sorted on its key words: no key is stored twice. */
  ghost predicate AllStrict(b: seq<Tuples>)
  {
    forall f :: 0 <= f < |b| ==> StrictOn(b[f], Arity(f))
  }

  /** A key is listed exactly when its words are stored in its bucket. */
  lemma {:induction false} ListedIff(b: seq<Tuples>, key: seq<byte>)
    requires |b| == Flats && AllWellFormed(b) && Exact(b) && |key| <= MaxKeyLength
    ensures Canonical(key) in Listing(b) <==> KeyWords(key) in b[Flat(key)]
  {
    if Canonical(key) in Listing(b) {
      var p :| 0 <= p < |Listing(b)| && Listing(b)[p] == Canonical(key);
      ListedStored(b, key, p);
    }
    if KeyWords(key) in b[Flat(key)] {
      var i :| 0 <= i < |b[Flat(key)]| && b[Flat(key)][i] == KeyWords(key);
      FoundKey(b, key, i, Size(b, Flat(key)) + i);
    }
  }

  /** The key at a position of the listing is stored in its bucket as its own words. */
  lemma {:induction false} ListedStored(b: seq<Tuples>, key: seq<byte>, p: int)
    requires |b| == Flats && AllWellFormed(b) && Exact(b) && |key| <= MaxKeyLength
    requires 0 <= p < |Listing(b)| && Listing(b)[p] == Canonical(key)
    ensures KeyWords(key) in b[Flat(key)]
  {
    var g, i := ListedSlot(b, p);
    KeyOfWords(Slot(g, b[g][i]));
    CanonicalWords(key);
    assert Stem(g, b[g][i]) == b[g][i];
  }

  /** The bucket and position a listed key comes from. */
  lemma {:induction false} ListedSlot(b: seq<Tuples>, p: int) returns (g: int, i: int)
    requires AllWellFormed(b) && 0 <= p < |Listing(b)|
    ensures 0 <= g < |b| && 0 <= i < |b[g]| && Stored(Slot(g, b[g][i]))
    ensures Listing(b)[p] == KeyOf(Slot(g, b[g][i]))
  {
    g, i := Locate(b, |b|, p);
    ListingIndex(b, g, i, p);
  }

  /** A tuple equal to the key's words lists as the key. */
  lemma {:induction false} FoundKey(b: seq<Tuples>, key: seq<byte>, at: int, r: int)
    requires |b| == Flats && AllWellFormed(b) && |key| <= MaxKeyLength
    requires 0 <= at < |b[Flat(key)]| && b[Flat(key)][at] == KeyWords(key)
    requires r == Size(b, Flat(key)) + at
    ensures r < |Listing(b)|
    ensures Listing(b)[r] == Canonical(key)
  {
    StoredAs(key);
    ListingIndex(b, Flat(key), at, r);
  }

  /**
   * What the binary search of Find and Add means for the listing: found
   * exactly when the key is listed, at its rank; otherwise at counts the
   * tuples of the bucket below the key.
   */
  lemma {:induction false} SearchMeans(b: seq<Tuples>, cnt: seq<int>, key: seq<byte>, at: int, found: bool, r: int)
    requires Shaped(b) && Ranked(b, cnt) && |key| <= MaxKeyLength
    requires 0 <= at <= |b[Flat(key)]| && r == cnt[Flat(key)] + at
    requires found ==> at < |b[Flat(key)]| && b[Flat(key)][at][..|KeyWords(key)|] == KeyWords(key)
    requires !found ==> forall i :: 0 <= i < at ==> Num(b[Flat(key)][i][..|KeyWords(key)|]) < Num(KeyWords(key))
    requires !found ==> forall i :: at <= i < |b[Flat(key)]| ==> Num(KeyWords(key)) < Num(b[Flat(key)][i][..|KeyWords(key)|])
    ensures found <==> Canonical(key) in Listing(b)
    ensures found ==> r < |Listing(b)| && Listing(b)[r] == Canonical(key)
    ensures !found ==> r == Size(b, Flat(key)) + Below(b[Flat(key)], KeyWords(key))
  {
    assert cnt[Flat(key)] == Size(b, Flat(key));
    if found {
      SearchHit(b, key, at, r);
    } else {
      SearchMiss(b, key, at);
    }
  }

  /** A hit: the tuple at the search position is the key's, so the key is listed at its rank r. */
  lemma {:induction false} SearchHit(b: seq<Tuples>, key: seq<byte>, at: int, r: int)
    requires Shaped(b) && |key| <= MaxKeyLength
    requires 0 <= at < |b[Flat(key)]| && b[Flat(key)][at][..|KeyWords(key)|] == KeyWords(key)
    requires r == Size(b, Flat(key)) + at
    ensures Canonical(key) in Listing(b)
    ensures r < |Listing(b)|
    ensures Listing(b)[r] == Canonical(key)
  {
    var f, a := Flat(key), KeyWords(key);
    KeyWordsArity(key);
    assert |b[f][at]| == |a|;
    TakeAll(b[f][at]);
    FoundKey(b, key, at, r);
  }

  /** A miss: the key is not listed, and at counts the tuples of its bucket below it. */
  lemma {:induction false} SearchMiss(b: seq<Tuples>, key: seq<byte>, at: int)
    requires Shaped(b) && |key| <= MaxKeyLength && 0 <= at <= |b[Flat(key)]|
    requires forall i :: 0 <= i < at ==> Num(b[Flat(key)][i][..|KeyWords(key)|]) < Num(KeyWords(key))
    requires forall i :: at <= i < |b[Flat(key)]| ==> Num(KeyWords(key)) < Num(b[Flat(key)][i][..|KeyWords(key)|])
    ensures Canonical(key) !in Listing(b)
    ensures at == Below(b[Flat(key)], KeyWords(key))
  {
    var f, a := Flat(key), KeyWords(key);
    KeyWordsArity(key);
    ListedIff(b, key);
    NotStored(b[f], a, at);
  }

  /**
   * Inserting the key's words at position at of its bucket inserts the key
   * into the listing at rank Size(b, f) + at.
   */
  lemma {:induction false} PlaceListing(b: seq<Tuples>, key: seq<byte>, at: int, c: seq<Tuples>, r: int)
    requires AllWellFormed(b) && |b| == Flats && |key| <= MaxKeyLength
    requires 0 <= at <= |b[Flat(key)]| && r == Size(b, Flat(key)) + at
    requires c == b[Flat(key) := Insert(b[Flat(key)], at, KeyWords(key))]
    ensures AllWellFormed(c)
    ensures r <= |Listing(b)|
    ensures Listing(c) == Insert(Listing(b), r, Canonical(key))
  {
    StoredAs(key);
    InsertListing(b, Flat(key), at, KeyWords(key), r);
  }

  /** Inserting into bucket f moves the ranks of the later buckets up by one. */
  lemma {:induction false} InsertSizes(b: seq<Tuples>, f: int, at: int, a: seq<u64>, c: seq<Tuples>)
    requires 0 <= f < |b| && 0 <= at <= |b[f]| && c == b[f := Insert(b[f], at, a)]
    ensures forall j :: 0 <= j <= |b| ==> Size(c, j) == Size(b, j) + (if j > f then 1 else 0)
  {
    forall j | 0 <= j <= |b|
      ensures Size(c, j) == Size(b, j) + (if j > f then 1 else 0)
    {
      InsertSize(b, f, at, a, j);
    }
  }

  /** Inserting the words of a key of bucket f keeps every tuple exactly a key's words. */
  lemma {:induction false} InsertExact(b: seq<Tuples>, f: int, at: int, a: seq<u64>, c: seq<Tuples>)
    requires Exact(b) && 0 <= f < |b| && 0 <= at <= |b[f]| && |a| == Arity(f)
    requires c == b[f := Insert(b[f], at, a)]
    ensures Exact(c)
  {
    forall g, k | 0 <= g < |c| && 0 <= k < |c[g]|
      ensures |c[g][k]| == Arity(g)
    {
      if g == f && k > at {
        assert c[g][k] == b[f][k - 1];
      }
    }
  }

  /** Added key o is stored in bucket f as tuple t. */
  ghost predicate Tagged(added: seq<seq<byte>>, o: int, f: int, t: seq<u64>)
  {
    0 <= o < |added| && |added[o]| <= MaxKeyLength && Flat(added[o]) == f && KeyWords(added[o]) == t
  }

  /** 64 buckets of well-formed tuples, each exactly a key's words. */
  ghost predicate Shaped(b: seq<Tuples>)
  {
    |b| == Flats && AllWellFormed(b) && Exact(b)
  }

  /** The layout every KeyBytes keeps: the buckets are shaped and total counts their tuples. */
  ghost predicate Layout(b: seq<Tuples>, total: int)
  {
    Shaped(b) && total == Size(b, |b|)
  }

  /** count as a rank table: count[j] is the number of tuples in the buckets below j. */
  ghost predicate Ranked(b: seq<Tuples>, cnt: seq<int>)
  {
    |b| == Flats && |cnt| == Flats && forall j :: 0 <= j < Flats ==> cnt[j] == Size(b, j)
  }

  /** No bucket has a pending insertion order. */
  ghost predicate Cleared(o: seq<seq<int>>)
  {
    |o| == Flats && forall f :: 0 <= f < Flats ==> o[f] == []
  }

  /** count as AddUnsorted keeps it: count[j] is the size of bucket j - 1 alone. */
  ghost predicate Counted(b: seq<Tuples>, cnt: seq<int>)
  {
    |b| == Flats && |cnt| == Flats && cnt[0] == 0 && forall j :: 1 <= j < Flats ==> cnt[j] == |b[j - 1]|
  }

  /**
   * Every tuple carries, in the order of its bucket, the number of the added
   * key it came from, and those numbers are 0 to |added| - 1, each once.
   */
  ghost predicate Numbered(b: seq<Tuples>, o: seq<seq<int>>, added: seq<seq<byte>>)
  {
    |b| == Flats && |o| == Flats &&
    (forall f :: 0 <= f < Flats ==> |o[f]| == |b[f]|) &&
    (forall f, i {:trigger o[f][i]} :: 0 <= f < Flats && 0 <= i < |o[f]| ==> Tagged(added, o[f][i], f, b[f][i])) &&
    multiset(Join(o, |o|)) == multiset(Range(|added|))
  }

  /** The state Find, Add and AddAt work in: count holds ranks and no order is pending. */
  ghost predicate IndexedState(b: seq<Tuples>, o: seq<seq<int>>, cnt: seq<int>, total: int)
  {
    Layout(b, total) && |o| == Flats && |cnt| == Flats && Ranked(b, cnt) && Cleared(o)
  }

  /** The state AddUnsorted works in: per-bucket counts and numbered tuples. */
  ghost predicate UnsortedState(b: seq<Tuples>, o: seq<seq<int>>, cnt: seq<int>, added: seq<seq<byte>>, total: int)
  {
    Layout(b, total) && |o| == Flats && |cnt| == Flats && Counted(b, cnt) && Numbered(b, o, added) && |added| == total
  }

  /** The empty index: no tuples, no orders, zero counts. */
  lemma {:induction false} EmptyState(b: seq<Tuples>, o: seq<seq<int>>, cnt: seq<int>)
    requires |b| == Flats && forall f :: 0 <= f < Flats ==> b[f] == []
    requires |cnt| == Flats && forall j :: 0 <= j < Flats ==> cnt[j] == 0
    requires Cleared(o)
    ensures Layout(b, 0)
    ensures Ranked(b, cnt)
    ensures Counted(b, cnt)
    ensures Numbered(b, o, [])
    ensures Listing(b) == []
  {
    EmptyJoin(o, |o|);
    forall j | 0 <= j < Flats
      ensures cnt[j] == Size(b, j)
    {
      EmptySize(b, j);
    }
    EmptySize(b, |b|);
  }

  /**
   * Add and AddAt: inserting the key's words at position at of its bucket,
   * with every later rank moved up, keeps the layout and the rank table and
   * inserts the key into the listing at rank r.
   */
  lemma {:induction false} PlaceStep(b: seq<Tuples>, cnt: seq<int>, key: seq<byte>, at: int, r: int,
                  c: seq<Tuples>, cnt': seq<int>, total: int)
    requires Layout(b, total) && Ranked(b, cnt) && |key| <= MaxKeyLength
    requires 0 <= at <= |b[Flat(key)]| && r == cnt[Flat(key)] + at
    requires c == b[Flat(key) := Insert(b[Flat(key)], at, KeyWords(key))]
    requires |cnt'| == Flats
    requires forall j :: 0 <= j < Flats ==> cnt'[j] == cnt[j] + (if j > Flat(key) then 1 else 0)
    ensures Layout(c, total + 1)
    ensures Ranked(c, cnt')
    ensures 0 <= r <= total
    ensures Listing(c) == Insert(Listing(b), r, Canonical(key))
  {
    var f, a := Flat(key), KeyWords(key);
    KeyWordsArity(key);
    PlaceListing(b, key, at, c, r);
    InsertSizes(b, f, at, a, c);
    InsertExact(b, f, at, a, c);
  }

  /**
   * AddUnsorted: appending the key's words to its bucket, its number to the
   * bucket's order and the key to the added keys keeps the layout, the
   * per-bucket counts and the numbering.
   */
  lemma {:induction false} AppendStep(b: seq<Tuples>, cnt: seq<int>, o: seq<seq<int>>, added: seq<seq<byte>>, key: seq<byte>,
                   c: seq<Tuples>, cnt': seq<int>, p: seq<seq<int>>, added': seq<seq<byte>>, total: int)
    requires Layout(b, total) && Counted(b, cnt) && Numbered(b, o, added) && |added| == total
    requires |key| <= MaxKeyLength
    requires c == b[Flat(key) := b[Flat(key)] + [KeyWords(key)]]
    requires p == o[Flat(key) := o[Flat(key)] + [total]]
    requires added' == added + [key]
    requires |cnt'| == Flats
    requires forall j :: 0 <= j < Flats ==> cnt'[j] == cnt[j] + (if j == Flat(key) + 1 then 1 else 0)
    ensures Layout(c, total + 1)
    ensures Counted(c, cnt')
    ensures Numbered(c, p, added')
  {
    AppendLayout(b, key, c);
    AppendCounted(b, cnt, Flat(key), KeyWords(key), c, cnt');
    AppendNumbered(b, o, added, key, c, p, added');
  }

  /** The numbering survives appending a key: its tuple gets the next number. */
  lemma {:induction false} AppendNumbered(b: seq<Tuples>, o: seq<seq<int>>, added: seq<seq<byte>>, key: seq<byte>,
                                          c: seq<Tuples>, p: seq<seq<int>>, added': seq<seq<byte>>)
    requires Numbered(b, o, added) && |key| <= MaxKeyLength
    requires c == b[Flat(key) := b[Flat(key)] + [KeyWords(key)]]
    requires p == o[Flat(key) := o[Flat(key)] + [|added|]]
    requires added' == added + [key]
    ensures Numbered(c, p, added')
  {
    AppendTags(b, o, added, key, c, p, added');
    AppendJoin(o, Flat(key), |added|, p);
  }

  /** Appending to bucket f adds one to the count of bucket f, kept in cnt[f + 1]. */
  lemma {:induction false} AppendCounted(b: seq<Tuples>, cnt: seq<int>, f: int, a: seq<u64>, c: seq<Tuples>, cnt': seq<int>)
    requires Counted(b, cnt) && 0 <= f < Flats && c == b[f := b[f] + [a]]
    requires |cnt'| == Flats
    requires forall j :: 0 <= j < Flats ==> cnt'[j] == cnt[j] + (if j == f + 1 then 1 else 0)
    ensures Counted(c, cnt')
  {
  }

  /** Appending the key's words to its bucket keeps the layout and adds one tuple. */
  lemma {:induction false} AppendLayout(b: seq<Tuples>, key: seq<byte>, c: seq<Tuples>)
    requires Shaped(b) && |key| <= MaxKeyLength
    requires c == b[Flat(key) := b[Flat(key)] + [KeyWords(key)]]
    ensures Shaped(c)
    ensures Size(c, |c|) == Size(b, |b|) + 1
  {
    var f, a := Flat(key), KeyWords(key);
    KeyWordsArity(key);
    StoredAs(key);
    assert Insert(b[f], |b[f]|, a) == b[f] + [a];
    InsertWellFormed(b, f, |b[f]|, a);
    InsertSize(b, f, |b[f]|, a, |b|);
    InsertExact(b, f, |b[f]|, a, c);
  }

  /** The appended tuple is tagged with the new key's number; every other tag stays. */
  lemma {:induction false} AppendTags(b: seq<Tuples>, o: seq<seq<int>>, added: seq<seq<byte>>, key: seq<byte>,
                   c: seq<Tuples>, p: seq<seq<int>>, added': seq<seq<byte>>)
    requires |b| == Flats && |o| == Flats && |key| <= MaxKeyLength
    requires forall f :: 0 <= f < Flats ==> |o[f]| == |b[f]|
    requires forall f, i :: 0 <= f < Flats && 0 <= i < |o[f]| ==> Tagged(added, o[f][i], f, b[f][i])
    requires c == b[Flat(key) := b[Flat(key)] + [KeyWords(key)]]
    requires p == o[Flat(key) := o[Flat(key)] + [|added|]]
    requires added' == added + [key]
    ensures forall f :: 0 <= f < Flats ==> |p[f]| == |c[f]|
    ensures forall f, i :: 0 <= f < Flats && 0 <= i < |p[f]| ==> Tagged(added', p[f][i], f, c[f][i])
  {
    var f := Flat(key);
    forall g, i | 0 <= g < Flats && 0 <= i < |p[g]|
      ensures Tagged(added', p[g][i], g, c[g][i])
    {
      if g == f && i == |o[f]| {
        assert p[g][i] == |added| && c[g][i] == KeyWords(key) && added'[|added|] == key;
      } else {
        assert p[g][i] == o[g][i] && c[g][i] == b[g][i];
        TagKept(added, key, o[g][i], g, b[g][i]);
      }
    }
  }

  /** A tag survives appending a key to the added keys. */
  lemma {:induction false} TagKept(added: seq<seq<byte>>, key: seq<byte>, x: int, f: int, t: seq<u64>)
    requires Tagged(added, x, f, t)
    ensures Tagged(added + [key], x, f, t)
  {
    assert (added + [key])[x] == added[x];
  }

  /** Appending number n to order f extends the numbers 0 to n - 1 to 0 to n. */
  lemma {:induction false} AppendJoin(o: seq<seq<int>>, f: int, n: nat, p: seq<seq<int>>)
    requires 0 <= f < |o| && p == o[f := o[f] + [n]]
    requires multiset(Join(o, |o|)) == multiset(Range(n))
    ensures multiset(Join(p, |p|)) == multiset(Range(n + 1))
  {
    JoinAppend(o, f, n, |o|);
    RangeNext(n);
  }

  /** The numbers 0 to n are the numbers 0 to n - 1 and n. */
  lemma {:induction false} RangeNext(n: nat)
    ensures multiset(Range(n + 1)) == multiset(Range(n)) + multiset{n}
  {
    assert Range(n + 1) == Range(n) + [n];
  }

  /** The insertion order added keys are remembered by: the orders of all buckets below j. */
  function Join(o: seq<seq<int>>, j: int): (s: seq<int>)
    requires 0 <= j <= |o|
  {
    if j == 0 then [] else Join(o, j - 1) + o[j - 1]
  }

  /** Appending x to order f adds x to the joined orders from bucket f + 1 on. */
  lemma {:induction false} JoinAppend(o: seq<seq<int>>, f: int, x: int, j: int)
    requires 0 <= f < |o| && 0 <= j <= |o|
    ensures multiset(Join(o[f := o[f] + [x]], j)) == multiset(Join(o, j)) + (if f < j then multiset{x} else multiset{})
  {
    if j > 0 {
      JoinAppend(o, f, x, j - 1);
      var o' := o[f := o[f] + [x]];
      var m, n := multiset(Join(o', j - 1)), multiset(Join(o, j - 1));
      assert multiset(Join(o', j)) == m + multiset(o'[j - 1]);
      assert multiset(Join(o, j)) == n + multiset(o[j - 1]);
      if j - 1 == f {
        assert m == n;
        assert multiset(o'[j - 1]) == multiset(o[j - 1]) + multiset{x};
      } else {
        assert o'[j - 1] == o[j - 1];
      }
    }
  }

  // ---------------------------------------------------------------------
  // Build

  /** A tagged tuple is stored: the words of a key of its bucket, exactly Arity(f) of them. */
  lemma {:induction false} TaggedShape(added: seq<seq<byte>>, o: int, f: int, t: seq<u64>)
    requires Tagged(added, o, f, t)
    ensures Stored(Slot(f, t)) && |t| == Arity(f)
  {
    StoredAs(added[o]);
    KeyWordsArity(added[o]);
  }

  /** Buckets whose every tuple is tagged with an added key are shaped. */
  lemma {:induction false} NumberedShaped(b: seq<Tuples>, o: seq<seq<int>>, added: seq<seq<byte>>)
    requires Numbered(b, o, added)
    ensures Shaped(b)
  {
    forall f, i | 0 <= f < |b| && 0 <= i < |b[f]|
      ensures |b[f][i]| >= 1 && WellFormed(f, Stem(f, b[f][i])) && |b[f][i]| == Arity(f)
    {
      TaggedShape(added, o[f][i], f, b[f][i]);
    }
  }

  /**
   * Build after run buckets: those are sorted and have no order left, the
   * later ones still have theirs, every tuple keeps the tag of its added key
   * in tags, and origin holds the tags of the sorted buckets in their new order.
   */
  ghost predicate Building(b: seq<Tuples>, o: seq<seq<int>>, tags: seq<seq<int>>, added: seq<seq<byte>>, origin: seq<int>, run: int)
  {
    0 <= run <= Flats && |o| == Flats && Numbered(b, tags, added) &&
    (forall g :: 0 <= g < run ==> o[g] == [] && SortedOn(b[g], Arity(g))) &&
    (forall g :: run <= g < Flats ==> o[g] == tags[g]) &&
    origin == Join(tags, run)
  }

  /**
   * One bucket of Build: replacing bucket run by its sorted tuples c, its
   * order by nothing and its tags by the numbers m in their new order, and
   * appending m to origin, moves Build on to the next bucket.
   */
  lemma {:induction false} BuildStep(b: seq<Tuples>, o: seq<seq<int>>, tags: seq<seq<int>>, added: seq<seq<byte>>,
                                     origin: seq<int>, run: int, c: Tuples, m: seq<int>)
    requires Building(b, o, tags, added, origin, run) && run < Flats
    requires |c| == |b[run]| && |m| == |b[run]| && SortedOn(c, Arity(run))
    requires multiset(m) == multiset(tags[run])
    requires forall i :: 0 <= i < |c| ==> Entry(m[i], c[i]) in Pairs(tags[run], b[run])
    ensures Building(b[run := c], o[run := []], tags[run := m], added, origin + m, run + 1)
  {
    var b', o', tags' := b[run := c], o[run := []], tags[run := m];
    StepNumbered(b, tags, added, run, c, m);
    JoinBelow(tags, run, m, run);
    assert origin + m == Join(tags', run + 1);
    assert forall g :: 0 <= g < run + 1 ==> o'[g] == [] && SortedOn(b'[g], Arity(g));
    assert forall g :: run + 1 <= g < Flats ==> o'[g] == tags'[g];
  }

  /** Re-ordering the tuples of bucket run together with their tags keeps every tuple numbered. */
  lemma {:induction false} StepNumbered(b: seq<Tuples>, tags: seq<seq<int>>, added: seq<seq<byte>>, run: int, c: Tuples, m: seq<int>)
    requires Numbered(b, tags, added) && 0 <= run < Flats && |c| == |b[run]| && |m| == |b[run]|
    requires multiset(m) == multiset(tags[run])
    requires forall i :: 0 <= i < |c| ==> Entry(m[i], c[i]) in Pairs(tags[run], b[run])
    ensures Numbered(b[run := c], tags[run := m], added)
  {
    StepTags(b, tags, added, run, c, m, b[run := c], tags[run := m]);
    JoinPerm(tags, run, m, |tags|);
  }

  /** The re-ordered tags of bucket run still tag its re-ordered tuples. */
  lemma {:induction false} StepTags(b: seq<Tuples>, tags: seq<seq<int>>, added: seq<seq<byte>>, run: int, c: Tuples, m: seq<int>,
                                    b': seq<Tuples>, tags': seq<seq<int>>)
    requires Numbered(b, tags, added) && 0 <= run < Flats && |c| == |b[run]| && |m| == |b[run]|
    requires forall i :: 0 <= i < |c| ==> Entry(m[i], c[i]) in Pairs(tags[run], b[run])
    requires b' == b[run := c] && tags' == tags[run := m]
    ensures forall f :: 0 <= f < Flats ==> |tags'[f]| == |b'[f]|
    ensures forall f, i :: 0 <= f < Flats && 0 <= i < |tags'[f]| ==> Tagged(added, tags'[f][i], f, b'[f][i])
  {
    forall i | 0 <= i < |c|
      ensures Tagged(added, m[i], run, c[i])
    {
      var j :| 0 <= j < |b[run]| && Pairs(tags[run], b[run])[j] == Entry(m[i], c[i]);
      assert Tagged(added, tags[run][j], run, b[run][j]);
    }
  }

  /** An empty bucket needs no sorting: Build moves on to the next one. */
  lemma {:induction false} BuildSkip(b: seq<Tuples>, o: seq<seq<int>>, tags: seq<seq<int>>, added: seq<seq<byte>>, origin: seq<int>, run: int)
    requires Building(b, o, tags, added, origin, run) && run < Flats && |b[run]| == 0
    ensures Building(b, o, tags, added, origin, run + 1)
  {
    assert tags[run] == [];
    assert Join(tags, run + 1) == origin + [];
  }

  /**
   * Build after the last bucket: every bucket sorted and without order, and
   * origin a permutation of the added keys' numbers such that position p of
   * the listing is the key added as number origin[p].
   */
  lemma {:induction false} BuildDone(b: seq<Tuples>, o: seq<seq<int>>, tags: seq<seq<int>>, added: seq<seq<byte>>, origin: seq<int>)
    requires Building(b, o, tags, added, origin, Flats)
    ensures Shaped(b) && Cleared(o) && AllSorted(b)
    ensures |origin| == |added| == Size(b, |b|)
    ensures multiset(origin) == multiset(Range(|added|))
    ensures forall p :: 0 <= p < |origin| ==> 0 <= origin[p] < |added| && Listing(b)[p] == Canonical(added[origin[p]])
  {
    NumberedShaped(b, tags, added);
    assert |origin| == |multiset(origin)| == |multiset(Range(|added|))| == |added|;
    JoinSize(tags, b, Flats);
    forall p | 0 <= p < |origin|
      ensures 0 <= origin[p] < |added| && Listing(b)[p] == Canonical(added[origin[p]])
    {
      OriginAt(b, tags, added, origin, p);
    }
  }

  /** Position p of the listing after Build holds the added key numbered origin[p]. */
  lemma OriginAt(b: seq<Tuples>, tags: seq<seq<int>>, added: seq<seq<byte>>, origin: seq<int>, p: int)
    requires Numbered(b, tags, added) && Shaped(b) && origin == Join(tags, Flats)
    requires |origin| == Size(b, |b|) && 0 <= p < |origin|
    ensures 0 <= origin[p] < |added| && Listing(b)[p] == Canonical(added[origin[p]])
  {
    var g, i := Locate(b, |b|, p);
    JoinIndex(tags, b, g, i, Flats);
    assert Tagged(added, tags[g][i], g, b[g][i]);
    FoundKey(b, added[origin[p]], i, p);
  }

  /** Permuting order f permutes the joined orders. */
  lemma {:induction false} JoinPerm(o: seq<seq<int>>, f: int, m: seq<int>, j: int)
    requires 0 <= f < |o| && 0 <= j <= |o| && multiset(m) == multiset(o[f])
    ensures multiset(Join(o[f := m], j)) == multiset(Join(o, j))
  {
    if j > 0 {
      JoinPerm(o, f, m, j - 1);
      assert multiset(o[f := m][j - 1]) == multiset(o[j - 1]);
    }
  }

  /** Replacing order f leaves the orders below it joined as before. */
  lemma {:induction false} JoinBelow(o: seq<seq<int>>, f: int, m: seq<int>, j: int)
    requires 0 <= j <= f < |o|
    ensures Join(o[f := m], j) == Join(o, j)
  {
    if j > 0 {
      JoinBelow(o, f, m, j - 1);
    }
  }

  /** Orders as long as their buckets join to as many numbers as the buckets below j hold tuples. */
  lemma {:induction false} JoinSize(o: seq<seq<int>>, b: seq<Tuples>, j: int)
    requires |o| == |b| && 0 <= j <= |b| && forall f :: 0 <= f < |b| ==> |o[f]| == |b[f]|
    ensures |Join(o, j)| == Size(b, j)
  {
    if j > 0 {
      JoinSize(o, b, j - 1);
    }
  }

  /** The joined orders at the rank of tuple i of bucket g hold that tuple's number. */
  lemma {:induction false} JoinIndex(o: seq<seq<int>>, b: seq<Tuples>, g: int, i: int, j: int)
    requires |o| == |b| && forall f :: 0 <= f < |b| ==> |o[f]| == |b[f]|
    requires 0 <= g < j <= |b| && 0 <= i < |b[g]|
    ensures Size(b, g) + i < |Join(o, j)|
    ensures Join(o, j)[Size(b, g) + i] == o[g][i]
  {
    JoinSize(o, b, j - 1);
    if g < j - 1 {
      JoinIndex(o, b, g, i, j - 1);
    }
  }

  /** Permuted buckets hold as many tuples as before. */
  lemma {:induction false} SameSizes(b: seq<Tuples>, c: seq<Tuples>)
    requires |b| == |c| && forall f :: 0 <= f < |b| ==> multiset(b[f]) == multiset(c[f])
    ensures forall f :: 0 <= f < |b| ==> |b[f]| == |c[f]|
    ensures Size(b, |b|) == Size(c, |c|)
  {
    forall f | 0 <= f < |b|
      ensures |b[f]| == |c[f]|
    {
      assert |b[f]| == |multiset(b[f])|;
      assert |c[f]| == |multiset(c[f])|;
    }
    SizeSame(b, c, |b|);
  }

  /** The per-bucket counts depend only on the sizes of the buckets. */
  lemma {:induction false} SameCounts(b: seq<Tuples>, c: seq<Tuples>, cnt: seq<int>)
    requires Counted(b, cnt) && |c| == |b| && forall f :: 0 <= f < |b| ==> |b[f]| == |c[f]|
    ensures Counted(c, cnt)
  {
  }

  /** Numbered buckets without orders hold no tuples. */
  lemma {:induction false} NumberedCleared(b: seq<Tuples>, o: seq<seq<int>>, added: seq<seq<byte>>)
    requires Numbered(b, o, added) && Cleared(o)
    ensures Size(b, |b|) == 0
  {
    EmptySize(b, |b|);
  }

  /** No tuples below j: every bucket below j is empty. */
  lemma {:induction false} SizeZero(b: seq<Tuples>, j: int)
    requires 0 <= j <= |b| && Size(b, j) == 0
    ensures forall g :: 0 <= g < j ==> b[g] == []
  {
    forall g | 0 <= g < j
      ensures b[g] == []
    {
      SizeMono(b, g, j);
    }
  }

  /** Without tuples, ranks and per-bucket counts are both all zero. */
  lemma {:induction false} RankedEmpty(b: seq<Tuples>, cnt: seq<int>)
    requires Ranked(b, cnt) && Size(b, |b|) == 0
    ensures Counted(b, cnt)
  {
    SizeZero(b, |b|);
    forall j | 0 <= j < Flats
      ensures cnt[j] == 0
    {
      SizeMono(b, j, |b|);
    }
  }

  /**
   * Build on values: the buckets b0 with orders o0 and counts cnt0 become the
   * sorted buckets b with no orders and ranks c. It fails, changing nothing,
   * only when there are tuples but no orders, as after an earlier Build.
   */
  method BuildBuckets(b0: seq<Tuples>, o0: seq<seq<int>>, cnt0: seq<int>, ghost added: seq<seq<byte>>, ghost total: int)
      returns (b: seq<Tuples>, o: seq<seq<int>>, c: seq<int>, origin: seq<int>, ok: bool)
    requires UnsortedState(b0, o0, cnt0, added, total) || IndexedState(b0, o0, cnt0, total)
    ensures ok <==> UnsortedState(b0, o0, cnt0, added, total) || total == 0
    ensures !ok ==> origin == []
    ensures ok ==> IndexedState(b, o, c, total) && |b| == Flats && AllSorted(b)
    ensures ok ==> forall f :: 0 <= f < Flats ==> multiset(b[f]) == multiset(b0[f])
    ensures UnsortedState(b0, o0, cnt0, added, total) ==> |origin| == total && multiset(origin) == multiset(Range(total))
    ensures UnsortedState(b0, o0, cnt0, added, total) ==> forall p :: 0 <= p < total ==>
              0 <= origin[p] < |added| && Listing(b)[p] == Canonical(added[origin[p]])
  {
    ghost var mode := UnsortedState(b0, o0, cnt0, added, total);
    if !mode && UnsortedState(b0, o0, cnt0, added, total) {
      NumberedCleared(b0, o0, added);
    }
    b, o, origin, ok := SortBuckets(b0, o0, added, mode);
    if !ok {
      return b, o, cnt0, origin, ok;
    }
    SameSizes(b, b0);
    if mode {
      SameCounts(b0, b, cnt0);
    } else {
      RankedEmpty(b, cnt0);
    }
    c := PrefixRanks(b, cnt0);
  }

  /**
   * The loop of Build over the buckets, on the buckets b0 and orders o0:
   * each non-empty bucket is sorted together with its order, which is then
   * dropped, and the sorted orders are joined into origin. In mode (every
   * tuple numbered by AddUnsorted) this always succeeds and origin tells,
   * position by position of the new listing, which added key is there; out
   * of mode (after a Build: no orders) the first non-empty bucket stops it.
   */
  method SortBuckets(b0: seq<Tuples>, o0: seq<seq<int>>, ghost added: seq<seq<byte>>, ghost mode: bool)
      returns (b: seq<Tuples>, o: seq<seq<int>>, origin: seq<int>, ok: bool)
    requires |b0| == Flats && |o0| == Flats
    requires mode ==> Numbered(b0, o0, added)
    requires !mode ==> Cleared(o0)
    ensures ok <==> mode || Size(b0, Flats) == 0
    ensures ok ==> |b| == Flats && Cleared(o) && AllSorted(b)
    ensures ok ==> forall g :: 0 <= g < Flats ==> multiset(b[g]) == multiset(b0[g])
    ensures !ok || !mode ==> b == b0 && o == o0 && origin == []
    ensures ok && mode ==> Shaped(b) && |origin| == |added| == Size(b, |b|) && multiset(origin) == multiset(Range(|added|))
    ensures ok && mode ==> forall p :: 0 <= p < |origin| ==>
              0 <= origin[p] < |added| && Listing(b)[p] == Canonical(added[origin[p]])
  {
    ghost var tags := o0;
    b, o := b0, o0;
    origin := [];
    var run := 0;
    while run < Flats
      invariant Sorting(b0, o0, b, o, tags, added, origin, run, mode)
    {
      var stop;
      b, o, origin, tags, stop := SortRun(b0, o0, b, o, tags, added, origin, run, mode);
      if stop {
        return b0, o0, [], false;
      }
      run := run + 1;
    }
    if mode {
      BuildDone(b, o, tags, added, origin);
    } else {
      SizeZero(b, |b|);
    }
    ok := true;
  }

  /** The invariant of the loop of Build after the buckets below run. */
  ghost predicate Sorting(b0: seq<Tuples>, o0: seq<seq<int>>, b: seq<Tuples>, o: seq<seq<int>>, tags: seq<seq<int>>,
                          added: seq<seq<byte>>, origin: seq<int>, run: int, mode: bool)
  {
    0 <= run <= Flats && |b| == Flats && |o| == Flats && |b0| == Flats && |o0| == Flats &&
    (forall g :: 0 <= g < Flats ==> multiset(b[g]) == multiset(b0[g])) &&
    (mode ==> Building(b, o, tags, added, origin, run)) &&
    (!mode ==> Cleared(o0) && b == b0 && o == o0 && origin == [] && Size(b, run) == 0)
  }

  /**
   * The body of the loop of Build for bucket run: an empty bucket is left
   * alone; a bucket whose order is shorter than it stops Build; otherwise the
   * bucket is sorted with its order, which is appended to origin and dropped.
   */
  method SortRun(ghost b0: seq<Tuples>, ghost o0: seq<seq<int>>, b: seq<Tuples>, o: seq<seq<int>>, ghost tags: seq<seq<int>>,
                 ghost added: seq<seq<byte>>, origin: seq<int>, run: int, ghost mode: bool)
      returns (b': seq<Tuples>, o': seq<seq<int>>, origin': seq<int>, ghost tags': seq<seq<int>>, stop: bool)
    requires Sorting(b0, o0, b, o, tags, added, origin, run, mode) && run < Flats
    ensures stop <==> !mode && Size(b0, Flats) > 0 && |b[run]| > 0
    ensures !stop ==> Sorting(b0, o0, b', o', tags', added, origin', run + 1, mode)
  {
    b', o', origin', tags' := b, o, origin, tags;
    var l := |b[run]|;
    if l == 0 {
      if mode {
        BuildSkip(b, o, tags, added, origin, run);
      }
      return b, o, origin, tags, false;
    }
    var m := o[run];
    if l != |m| {
      SizeMono(b, run, Flats);
      return b, o, origin, tags, true;
    }
    NumberedShaped(b, tags, added);
    var c, m' := SortBucket(b[run], m, Arity(run));
    BuildStep(b, o, tags, added, origin, run, c, m');
    b', o' := b[run := c], o[run := []];
    origin' := origin + m';
    tags' := tags[run := m'];
    stop := false;
  }

  /**
   * The loop closing Build: count[j] += count[j - 1] from bucket 2 on turns
   * the per-bucket counts AddUnsorted keeps into ranks.
   */
  method PrefixRanks(ghost b: seq<Tuples>, cnt: seq<int>) returns (c: seq<int>)
    requires Counted(b, cnt)
    ensures Ranked(b, c)
  {
    c := cnt;
    var run := 2;
    while run < Flats
      invariant 2 <= run <= Flats && |c| == Flats
      invariant forall j :: 0 <= j < run ==> c[j] == Size(b, j)
      invariant forall j :: run <= j < Flats ==> c[j] == cnt[j]
    {
      c := c[run := c[run] + c[run - 1]];
      run := run + 1;
    }
  }

  /** The numbers 0 to n - 1. */
  function Range(n: nat): (s: seq<int>)
    ensures |s| == n && forall i :: 0 <= i < n ==> s[i] == i
  {
    seq(n, i => i)
  }

  /**
   * KeyBytes. The Go struct's limit8 ... limit64 arrays of buckets are the
   * 64 buckets, its order8 ... order64 the orders, and the iterator position
   * onlimit, on8 is the one flat index on = 8 * onlimit + on8.
   */
  class KeyBytes {
    var buckets: seq<Tuples>
    var orders: seq<seq<int>>
    /** The [64]int rank table: a Go array is a value inside the struct. */
    var count: seq<int>
    var total: int
    var on: int
    var oncursor: int
    /** The keys given to AddUnsorted since the last Build, in the order given. */
    ghost var added: seq<seq<byte>>

    /** The layout: 64 buckets of well-formed tuples, and total counts them all. */
    ghost predicate Valid()
      reads this
    {
      Layout(buckets, total) && |orders| == Flats && |count| == Flats
    }

    /**
     * The stored keys in traversal order, each rebuilt exactly from its words
     * and its bucket's key length. Keys and Next show the same keys in the
     * same order, except that they rebuild a key whose last chunk starts with
     * a zero byte without that byte (Shown, and the lemma under Keys).
     */
    ghost function Contents(): (keys: seq<seq<byte>>)
      reads this
      requires Valid()
      ensures |keys| == total
    {
      Listing(buckets)
    }

    /** The state Find, Add and AddAt work in: count holds ranks and no order is pending. */
    ghost predicate Indexed()
      reads this
    {
      IndexedState(buckets, orders, count, total)
    }

    /**
     * The state AddUnsorted works in: count[j] counts bucket j - 1 alone
     * (bucket 63 is not counted), and every tuple has the number of the
     * added key it came from in orders.
     */
    ghost predicate Unsorted()
      reads this
    {
      UnsortedState(buckets, orders, count, added, total)
    }

    /** Every bucket is sorted: the state Find and Add need. */
    ghost predicate Ordered()
      reads this
    {
      |buckets| == Flats && AllSorted(buckets)
    }

    /** No key is stored twice. */
    ghost predicate Strict()
      reads this
    {
      |buckets| == Flats && AllStrict(buckets)
    }

    /** new(KeyBytes): no keys. */
    constructor()
      ensures Indexed() && Unsorted() && Ordered() && Strict()
      ensures Contents() == [] && added == []
    {
      buckets := seq(Flats, f => []);
      orders := seq(Flats, f => []);
      count := seq(Flats, j => 0);
      total := 0;
      on := 0;
      oncursor := 0;
      added := [];
      new;
      EmptyState(buckets, orders, count);
    }

    /** Len: the number of keys. */
    function Len(): (n: int)
      reads this
      requires Valid()
      ensures n == |Contents()|
    {
      total
    }

    /**
     * Find: the rank of the key in the listing, or the rank it would be
     * inserted at and false. Keys longer than 64 bytes give (total, false).
     */
    method Find(key: seq<byte>) returns (r: int, found: bool)
      requires Indexed() && Ordered()
      ensures |key| > MaxKeyLength ==> r == total && !found
      ensures |key| <= MaxKeyLength ==> (found <==> Canonical(key) in Contents())
      ensures |key| <= MaxKeyLength && found ==> 0 <= r < total
      ensures |key| <= MaxKeyLength && found ==> Contents()[r] == Canonical(key)
      ensures |key| <= MaxKeyLength && !found ==> r == Size(buckets, Flat(key)) + Below(buckets[Flat(key)], KeyWords(key))
    {
      if |key| > MaxKeyLength {
        return total, false;
      }
      var f := Flat(key);
      KeyWordsArity(key);
      var at;
      at, found := Search(buckets[f], KeyWords(key));
      r := at + count[f];
      SearchMeans(buckets, count, key, at, found, r);
    }

    /**
     * Add: Find, and when the key is missing, insert it at that rank: the
     * listing gains the key at rank r and the ranks of later buckets move up.
     */
    method Add(key: seq<byte>) returns (r: int, found: bool)
      requires Indexed() && Ordered()
      modifies this
      ensures Indexed() && Ordered()
      ensures old(Strict()) ==> Strict()
      ensures unchanged(this`on, this`oncursor, this`added)
      ensures |key| > MaxKeyLength ==> r == old(total) && !found && buckets == old(buckets)
      ensures |key| <= MaxKeyLength ==> (found <==> Canonical(key) in old(Contents()))
      ensures |key| <= MaxKeyLength && found ==> buckets == old(buckets) && 0 <= r < total
      ensures |key| <= MaxKeyLength && found ==> Contents()[r] == Canonical(key)
      ensures |key| <= MaxKeyLength && !found ==> 0 <= r <= old(total)
      ensures |key| <= MaxKeyLength && !found ==> Contents() == Insert(old(Contents()), r, Canonical(key))
    {
      if |key| > MaxKeyLength {
        return total, false;
      }
      var f := Flat(key);
      var a := KeyWords(key);
      KeyWordsArity(key);
      var at;
      at, found := Search(buckets[f], a);
      r := at + count[f];
      SearchMeans(buckets, count, key, at, found, r);
      if !found {
        PlaceSorted(key, f, at, r);
      }
    }

    /**
     * Add's insertion: Place at the position the search stopped at, which
     * keeps every bucket sorted and, when no key was stored twice, still none.
     */
    method PlaceSorted(key: seq<byte>, f: int, at: int, r: int)
      requires Indexed() && Ordered() && |key| <= MaxKeyLength && f == Flat(key) && 0 <= at <= |buckets[f]|
      requires r == count[f] + at
      requires forall i :: 0 <= i < at ==> Num(buckets[f][i][..|KeyWords(key)|]) < Num(KeyWords(key))
      requires forall i :: at <= i < |buckets[f]| ==> Num(KeyWords(key)) < Num(buckets[f][i][..|KeyWords(key)|])
      modifies this
      ensures Indexed() && Ordered()
      ensures old(Strict()) ==> Strict()
      ensures unchanged(this`on, this`oncursor, this`added)
      ensures 0 <= r <= old(total)
      ensures Contents() == Insert(old(Contents()), r, Canonical(key))
    {
      ghost var b := buckets;
      KeyWordsArity(key);
      Place(key, f, at, r);
      KeepsOrder(b, buckets, f, at, KeyWords(key));
    }

    /**
     * AddAt: inserts the key at rank i, which must lie in the key's bucket,
     * without searching; i is trusted, so the buckets stay sorted only when
     * it is the rank Find reports.
     */
    method AddAt(key: seq<byte>, i: int) returns (err: Outcome)
      requires Indexed()
      requires |key| <= MaxKeyLength ==> count[Flat(key)] <= i <= count[Flat(key)] + |buckets[Flat(key)]|
      modifies this
      ensures Indexed()
      ensures unchanged(this`on, this`oncursor, this`added)
      ensures |key| > MaxKeyLength ==> err == Failed(TooLong) && buckets == old(buckets)
      ensures |key| <= MaxKeyLength ==> err == Ok && 0 <= i <= old(total)
      ensures |key| <= MaxKeyLength ==> Contents() == Insert(old(Contents()), i, Canonical(key))
    {
      if |key| > MaxKeyLength {
        return Failed(TooLong);
      }
      var f := Flat(key);
      var at := i - count[f];
      Place(key, f, at, i);
      err := Ok;
    }

    /**
     * The insertion both Add and AddAt end with: the tuple goes in at
     * position at of bucket f and every later rank moves up by one.
     */
    method Place(key: seq<byte>, f: int, at: int, r: int)
      requires Indexed() && |key| <= MaxKeyLength && f == Flat(key) && 0 <= at <= |buckets[f]|
      requires r == count[f] + at
      modifies this
      ensures Indexed()
      ensures unchanged(this`on, this`oncursor, this`added)
      ensures buckets == old(buckets)[f := Insert(old(buckets)[f], at, KeyWords(key))]
      ensures 0 <= r <= old(total)
      ensures Contents() == Insert(old(Contents()), r, Canonical(key))
    {
      ghost var b, cnt, t := buckets, count, total;
      var c := ShiftRanks(count, f);
      Assign(buckets[f := Insert(buckets[f], at, KeyWords(key))], orders, c, added, total + 1);
      PlaceStep(b, cnt, key, at, r, buckets, count, t);
    }

    /**
     * AddUnsorted: appends the key to its bucket and its insertion number
     * to the bucket's order, for a later Build.
     */
    method AddUnsorted(key: seq<byte>) returns (err: Outcome)
      requires Unsorted()
      modifies this
      ensures Unsorted()
      ensures unchanged(this`on, this`oncursor)
      ensures |key| > MaxKeyLength ==> err == Failed(TooLong) && buckets == old(buckets) && added == old(added)
      ensures |key| <= MaxKeyLength ==> err == Ok
      ensures |key| <= MaxKeyLength ==> added == old(added) + [key]
      ensures |key| <= MaxKeyLength ==> buckets == old(buckets)[Flat(key) := old(buckets)[Flat(key)] + [KeyWords(key)]]
    {
      if |key| > MaxKeyLength {
        return Failed(TooLong);
      }
      var f := Flat(key);
      var cnt := count;
      if f < Flats - 1 {
        cnt := cnt[f + 1 := cnt[f + 1] + 1];
      }
      AppendStep(buckets, count, orders, added, key, buckets[f := buckets[f] + [KeyWords(key)]], cnt,
                 orders[f := orders[f] + [total]], added + [key], total);
      Assign(buckets[f := buckets[f] + [KeyWords(key)]], orders[f := orders[f] + [total]], cnt, added + [key], total + 1);
      err := Ok;
    }

    /**
     * Build: sorts every bucket filled by AddUnsorted, each tuple taking its
     * insertion number along, turns count into ranks and returns origin, which
     * tells for each position of the listing which added key it holds. A
     * second Build finds buckets without an order and fails before changing
     * anything.
     */
    method Build() returns (origin: seq<int>, err: Outcome)
      requires Unsorted() || Indexed()
      modifies this
      ensures unchanged(this`on, this`oncursor)
      ensures err == Ok <==> old(Unsorted()) || old(total) == 0
      ensures err != Ok ==> err == Failed(BuiltTwice) && origin == [] && unchanged(this)
      ensures err == Ok ==> Indexed() && Ordered() && total == old(total) && added == []
      ensures err == Ok ==> forall f :: 0 <= f < Flats ==> multiset(buckets[f]) == multiset(old(buckets)[f])
      ensures old(Unsorted()) ==> |origin| == total && multiset(origin) == multiset(Range(total))
      ensures old(Unsorted()) ==> forall p :: 0 <= p < total ==>
                0 <= origin[p] < |old(added)| && Contents()[p] == Canonical(old(added)[origin[p]])
    {
      var b, o, c, ok;
      b, o, c, origin, ok := BuildBuckets(buckets, orders, count, added, total);
      if !ok {
        return [], Failed(BuiltTwice);
      }
      Assign(b, o, c, [], total);
      err := Ok;
    }

    /**
     * Replaces the stored state in one step, leaving the iterator alone;
     * Build and the insertions go through it.
     */
    method Assign(b: seq<Tuples>, o: seq<seq<int>>, c: seq<int>, ghost a: seq<seq<byte>>, t: int)
      modifies this
      ensures buckets == b && orders == o && count == c && added == a && total == t
      ensures unchanged(this`on, this`oncursor)
    {
      buckets, orders, count, added, total := b, o, c, a, t;
    }

    /** The iterator stands on a tuple: on is a bucket and oncursor a position in it. */
    ghost predicate Positioned()
      reads this
    {
      Valid() && 0 <= on < Flats && 0 <= oncursor < |buckets[on]|
    }

    /** The position of the iterator in the listing. */
    ghost function Pos(): (p: int)
      reads this
      requires Positioned()
      ensures 0 <= p < total
    {
      SizeMono(buckets, on, Flats);
      Size(buckets, on) + oncursor
    }

    /**
     * Reset: puts the iterator on the first key and reports whether there is
     * one. It must come before Next.
     */
    method Reset() returns (any: bool)
      requires Valid()
      modifies this`on, this`oncursor
      ensures any <==> total > 0
      ensures any ==> Positioned() && Pos() == 0
      ensures !any ==> on == 0 && oncursor == 0
      decreases 1
    {
      on, oncursor := 0, 0;
      if |buckets[0]| == 0 {
        if total == 0 {
          return false;
        } else {
          var _ := Forward(0);
        }
      } else {
        SizeMono(buckets, 0, Flats);
      }
      any := true;
    }

    /** The position forward moves the iterator to: the tuple after the current one. */
    ghost function Target(l: int): int
      reads this
      requires Valid() && 0 <= on < Flats
    {
      Size(buckets, on) + (if l == 0 then 0 else oncursor + 1)
    }

    /**
     * forward: moves the iterator from a tuple of the bucket of length l (or
     * from an empty bucket 0) to the next tuple of the listing, skipping empty
     * buckets; past the last tuple it resets and reports the end.
     */
    method Forward(l: int) returns (eof: bool)
      requires Valid() && total > 0 && 0 <= on < Flats && l == |buckets[on]|
      requires 0 <= oncursor && (oncursor < l || (l == 0 && oncursor == 0))
      modifies this`on, this`oncursor
      ensures Positioned()
      ensures eof <==> old(Target(l)) >= total
      ensures Pos() == if eof then 0 else old(Target(l))
      decreases if Target(l) < total then 0 else 2
    {
      ghost var r := Target(l);
      oncursor := oncursor + 1;
      var n := l;
      while oncursor >= n
        invariant 0 <= on < Flats && n == |buckets[on]| && 0 <= oncursor
        invariant oncursor < n ==> Size(buckets, on) + oncursor == r
        invariant oncursor >= n ==> Size(buckets, on + 1) == r
        decreases Flats - on
      {
        oncursor := 0;
        on := on + 1;
        if on == Flats {
          var _ := Reset();
          return true;
        }
        n := |buckets[on]|;
      }
      SizeMono(buckets, on + 1, Flats);
      eof := false;
    }

    /**
     * Next: the key at the iterator, as the listing shows it, and whether it
     * was the last one; the iterator moves to the next key, or back to the
     * first after the last.
     */
    method Next() returns (key: seq<byte>, eof: bool)
      requires Positioned()
      modifies this`on, this`oncursor
      ensures Positioned()
      ensures key == Shown(buckets)[old(Pos())]
      ensures eof <==> old(Pos()) == total - 1
      ensures Pos() == if eof then 0 else old(Pos()) + 1
    {
      var v := buckets[on][oncursor];
      ghost var p := Pos();
      ShownIndex(buckets, on, oncursor, p);
      assert Target(|buckets[on]|) == p + 1;
      eof := Forward(|buckets[on]|);
      key := Reverse(v);
    }

    /**
     * Keys: every key, bucket by bucket, as the listing shows it; a key whose
     * last chunk starts with a zero byte comes back without that byte.
     */
    method Keys() returns (keys: seq<seq<byte>>)
      requires Valid()
      ensures keys == Shown(buckets)
      ensures |keys| == total
      ensures forall p :: 0 <= p < total ==> (keys[p] == Contents()[p] <==> LastChunk(Contents()[p])[0] != 0)
    {
      keys := ListKeys(buckets);
      ShownListing(buckets);
    }

    /**
     * Write: total, the count table and every bucket, appended to what the
     * writer holds in their stored form.
     */
    method Write(w: Custom.Writer)
      requires w.Valid()
      modifies w, w.data, w.w
      ensures w.Valid() && KeyBytesCodec.Same(w, old(w.w), old(w.data))
      ensures w.contents == old(w.contents) + KeyBytesCodec.Serial(total, count, buckets)
    {
      KeyBytesCodec.WriteImage(w, total, count, buckets);
    }

    /**
     * Read: replaces total, the count table and the buckets with the ones
     * stored at the reader's cursor, and leaves the cursor after them; the
     * orders and the iterator are left as they were.
     */
    method Read(r: Custom.BytesReader)
      requires 0 <= r.cursor && KeyBytesCodec.ReadImage(KeyBytesCodec.Rest(r)).Some?
      modifies this, r
      ensures 0 <= r.cursor
      ensures KeyBytesCodec.ReadImage(old(KeyBytesCodec.Rest(r)))
                == KeyBytesCodec.Some((KeyBytesCodec.Image(total, count, buckets), KeyBytesCodec.Rest(r)))
      ensures unchanged(this`orders, this`on, this`oncursor, this`added)
    {
      var im := KeyBytesCodec.ReadFrom(r);
      Assign(im.buckets, orders, im.count, added, im.total);
    }
  }

  /**
   * Write then Read gives the index back: for the layout every KeyBytes
   * keeps, with count as ranks or as AddUnsorted's per-bucket counts and
   * fewer than 2^63 keys, the stored form reads back as the same total,
   * count and buckets, and reading stops where the stored form ends.
   */
  lemma {:induction false} StoredRoundTrip(b: seq<Tuples>, cnt: seq<int>, total: int, rest: seq<byte>)
    requires Layout(b, total) && (Ranked(b, cnt) || Counted(b, cnt)) && total < Conv.TwoTo63
    ensures KeyBytesCodec.ReadImage(KeyBytesCodec.Serial(total, cnt, b) + rest)
              == KeyBytesCodec.Some((KeyBytesCodec.Image(total, cnt, b), rest))
  {
    forall j | 0 <= j < Flats
      ensures 0 <= cnt[j] < Conv.TwoTo63
    {
      SizeMono(b, j, Flats);
      if j > 0 {
        SizeMono(b, j - 1, Flats);
      }
    }
    forall f | 0 <= f < Flats
      ensures KeyBytesCodec.Uniform(b[f], Arity(f)) && |b[f]| < TwoTo64
    {
      SizeMono(b, f, Flats);
    }
    KeyBytesCodec.SerialRoundTrip(total, cnt, b, rest);
  }

  /** The loops of Keys: bucket by bucket, every tuple reversed into its key. */
  method ListKeys(b: seq<Tuples>) returns (keys: seq<seq<byte>>)
    requires Shaped(b)
    ensures keys == Shown(b)
  {
    ghost var shown := Shown(b);
    keys := [];
    var f := 0;
    while f < Flats
      invariant 0 <= f <= Flats && |keys| == Size(b, f) <= |shown|
      invariant keys == shown[..|keys|]
    {
      SizeMono(b, f, Flats);
      var i := 0;
      while i < |b[f]|
        invariant 0 <= i <= |b[f]| && |keys| == Size(b, f) + i <= |shown|
        invariant keys == shown[..|keys|]
      {
        KeysStep(b, f, i, keys);
        keys := keys + [Reverse(b[f][i])];
        i := i + 1;
      }
      f := f + 1;
    }
    assert shown[..|shown|] == shown;
  }

  /** Keys: the shown key of tuple i of bucket f comes next in the shown listing. */
  lemma {:induction false} KeysStep(b: seq<Tuples>, f: int, i: int, keys: seq<seq<byte>>)
    requires Shaped(b) && 0 <= f < Flats && 0 <= i < |b[f]|
    requires |keys| == Size(b, f) + i <= |Shown(b)| && keys == Shown(b)[..|keys|]
    ensures |b[f][i]| >= 1 && |keys| < |Shown(b)|
    ensures keys + [Reverse(b[f][i])] == Shown(b)[..|keys| + 1]
  {
    SizeMono(b, f, Flats);
    ShownIndex(b, f, i, |keys|);
    assert Stem(f, b[f][i]) == b[f][i];
    PrefixNext(Shown(b), keys);
  }

  /** A prefix of s followed by the next element of s is a longer prefix. */
  lemma {:induction false} PrefixNext<T>(s: seq<T>, t: seq<T>)
    requires |t| < |s| && t == s[..|t|]
    ensures t + [s[|t|]] == s[..|t| + 1]
  {
  }

  /** The loop closing Add and AddAt: the rank of every bucket after f moves up by one. */
  method ShiftRanks(cnt: seq<int>, f: int) returns (c: seq<int>)
    requires |cnt| == Flats && 0 <= f < Flats
    ensures |c| == Flats
    ensures forall j :: 0 <= j < Flats ==> c[j] == cnt[j] + (if j > f then 1 else 0)
  {
    c := cnt;
    var l := f + 1;
    while l < Flats
      invariant f + 1 <= l <= Flats && |c| == Flats
      invariant forall j :: 0 <= j < l ==> c[j] == cnt[j] + (if j > f then 1 else 0)
      invariant forall j :: l <= j < Flats ==> c[j] == cnt[j]
    {
      c := c[l := c[l] + 1];
      l := l + 1;
    }
  }

  /** The number of tuples in c whose key words are below a. */
  function Below(c: Tuples, a: seq<u64>): (n: nat)
    ensures n <= |c|
  {
    if |c| == 0 then 0
    else Below(c[..|c| - 1], a) + (if |c[|c| - 1]| >= |a| && Num(c[|c| - 1][..|a|]) < Num(a) then 1 else 0)
  }

  /** At the search position, the tuples below it are exactly the smaller ones. */
  lemma {:induction false} BelowAt(c: Tuples, a: seq<u64>, at: int)
    requires 0 <= at <= |c|
    requires forall i :: 0 <= i < |c| ==> |c[i]| >= |a|
    requires forall i :: 0 <= i < at ==> Num(c[i][..|a|]) < Num(a)
    requires forall i :: at <= i < |c| ==> Num(a) <= Num(c[i][..|a|])
    ensures Below(c, a) == at
    decreases |c|
  {
    if |c| > 0 {
      var d := c[..|c| - 1];
      if at == |c| {
        BelowAt(d, a, at - 1);
      } else {
        BelowAt(d, a, at);
      }
    }
  }

  /** When the search misses, the key's words are not in the bucket and at is their rank in it. */
  lemma {:induction false} NotStored(c: Tuples, a: seq<u64>, at: int)
    requires 0 <= at <= |c| && forall i :: 0 <= i < |c| ==> |c[i]| == |a|
    requires forall i :: 0 <= i < at ==> Num(c[i][..|a|]) < Num(a)
    requires forall i :: at <= i < |c| ==> Num(a) < Num(c[i][..|a|])
    ensures a !in c && Below(c, a) == at
  {
    if a in c {
      var i :| 0 <= i < |c| && c[i] == a;
      TakeAll(a);
    }
    BelowAt(c, a, at);
  }

  /** Taking all of a sequence gives the sequence. */
  lemma {:induction false} TakeAll<T>(s: seq<T>)
    ensures s[..|s|] == s
  {
  }

  /** Inserting the key's words at their search position keeps the buckets sorted, strictly if they were. */
  lemma {:induction false} KeepsOrder(b: seq<Tuples>, c: seq<Tuples>, f: int, at: int, a: seq<u64>)
    requires |b| == Flats && AllSorted(b) && 0 <= f < Flats && |a| == Arity(f) && 0 <= at <= |b[f]|
    requires forall i :: 0 <= i < at ==> Num(b[f][i][..|a|]) < Num(a)
    requires forall i :: at <= i < |b[f]| ==> Num(a) < Num(b[f][i][..|a|])
    requires c == b[f := Insert(b[f], at, a)]
    ensures AllSorted(c) && (AllStrict(b) ==> AllStrict(c))
  {
    TakeAll(a);
    InsertSorted(b[f], Arity(f), at, a);
  }

  lemma {:induction false} EmptyJoin(o: seq<seq<int>>, j: int)
    requires 0 <= j <= |o| && forall f :: 0 <= f < |o| ==> o[f] == []
    ensures Join(o, j) == []
  {
    if j > 0 {
      EmptyJoin(o, j - 1);
    }
  }

  lemma {:induction false} EmptySize(b: seq<Tuples>, j: int)
    requires 0 <= j <= |b| && forall f :: 0 <= f < |b| ==> b[f] == []
    ensures Size(b, j) == 0
  {
    if j > 0 {
      EmptySize(b, j - 1);
    }
  }
}
