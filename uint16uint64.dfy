/**
 * The sort package for (uint16 key, uint64 value) records
 * (vendor/github.com/AlasdairF/Sort/Uint16Uint64/Uint16Uint64.go). A slice
 * of records is built from a slice of values, each record remembering the
 * position it came from in K; the records are sorted by value or by key, in
 * either direction, with the introsort of Introsort or the stable merge
 * sort of StableSort; Keys reads the positions back out, which gives the
 * permutation that sorts the original values.
 *
 * The four generated copies of each algorithm differ only in the
 * comparison, so each is the generic algorithm with a rank: V, -V, K or -K.
 */
module Uint16Uint64 {
  import opened Words
  import opened Introsort
  import opened StableSort

  type u16 = x: int | 0 <= x < 0x1_0000

  /** KeyVal: a value V and the uint16 key K that names its position. */
  datatype KeyVal = KeyVal(k: u16, v: u64)

  /** The records New and Fill build: record i holds uint16(i) and ar[i]. */
  function Indexed(ar: seq<u64>): seq<KeyVal>
  {
    seq(|ar|, i requires 0 <= i < |ar| => KeyVal(i % 0x1_0000, ar[i]))
  }

  /**
   * Each record built from ar names, through its key, the position that
   * holds its value, as long as no position needs more than 16 bits; the
   * same holds for any rearrangement of the records.
   */
  lemma IndexedLookup(s: seq<KeyVal>, ar: seq<u64>)
    requires |ar| <= 0x1_0000
    requires multiset(s) == multiset(Indexed(ar))
    ensures forall i :: 0 <= i < |s| ==> s[i].k < |ar| && ar[s[i].k] == s[i].v
  {
    forall i | 0 <= i < |s|
      ensures s[i].k < |ar| && ar[s[i].k] == s[i].v
    {
      assert s[i] in multiset(Indexed(ar));
      var j :| 0 <= j < |ar| && Indexed(ar)[j] == s[i];
    }
  }

  /** The keys of the records, in order. */
  function KeysOf(s: seq<KeyVal>): (ks: seq<u16>)
    ensures |ks| == |s|
    ensures forall i :: 0 <= i < |s| ==> ks[i] == s[i].k
  {
    if s == [] then [] else [s[0].k] + KeysOf(s[1..])
  }

  /** Below 2^16 records the keys of New's records are their positions. */
  lemma IndexedKeys(ar: seq<u64>)
    requires |ar| <= 0x1_0000
    ensures forall i :: 0 <= i < |ar| ==> KeysOf(Indexed(ar))[i] == i
  {
  }

  /** New: a fresh slice with record i = (uint16(i), ar[i]). */
  method New(ar: seq<u64>) returns (newar: array<KeyVal>)
    ensures fresh(newar)
    ensures newar[..] == Indexed(ar)
  {
    newar := new KeyVal[|ar|](i requires 0 <= i < |ar| => KeyVal(0, 0));
    var i := 0;
    while i < |ar|
      invariant 0 <= i <= |ar|
      invariant forall j :: 0 <= j < i ==> newar[j] == KeyVal(j % 0x1_0000, ar[j])
    {
      newar[i] := KeyVal(i % 0x1_0000, ar[i]);
      i := i + 1;
    }
  }

  /**
   * Fill: New reusing newar's backing array when its capacity (the array's
   * length) is large enough; the result slice is the first |ar| elements of
   * the array returned.
   */
  method Fill(ar: seq<u64>, newar: array<KeyVal>) returns (r: array<KeyVal>)
    modifies newar
    ensures |ar| <= r.Length
    ensures r[..|ar|] == Indexed(ar)
    ensures |ar| <= newar.Length ==> r == newar && r[|ar|..] == old(newar[|ar|..])
    ensures newar.Length < |ar| ==> fresh(r) && r.Length == |ar|
  {
    if newar.Length < |ar| {
      r := new KeyVal[|ar|](i requires 0 <= i < |ar| => KeyVal(0, 0));
    } else {
      r := newar;
    }
    var i := 0;
    while i < |ar|
      invariant 0 <= i <= |ar|
      invariant forall j :: 0 <= j < i ==> r[j] == KeyVal(j % 0x1_0000, ar[j])
      invariant r == newar ==> r[|ar|..] == old(newar[|ar|..])
    {
      r[i] := KeyVal(i % 0x1_0000, ar[i]);
      i := i + 1;
    }
  }

  /**
   * Keys: the keys of newar, written into ar when it is long enough and
   * into a fresh slice otherwise; the result slice is the first
   * newar.Length elements of the array returned.
   */
  method Keys(ar: array<u16>, newar: array<KeyVal>) returns (r: array<u16>)
    modifies ar
    ensures newar.Length <= r.Length
    ensures r[..newar.Length] == KeysOf(newar[..])
    ensures newar.Length <= ar.Length ==> r == ar && r[newar.Length..] == old(ar[newar.Length..])
    ensures ar.Length < newar.Length ==> fresh(r) && r.Length == newar.Length
  {
    var l := newar.Length;
    if ar.Length < l {
      r := new u16[l](i requires 0 <= i < l => 0);
    } else {
      r := ar;
    }
    var i := 0;
    while i < l
      invariant 0 <= i <= l
      invariant forall j :: 0 <= j < i ==> r[j] == newar[j].k
      invariant r == ar ==> r[l..] == old(ar[l..])
    {
      r[i] := newar[i].k;
      i := i + 1;
    }
  }

  /** The four orders: by value or by key, ascending or descending. */
  function ByValue(x: KeyVal): int { x.v }
  function ByValueDesc(x: KeyVal): int { -(x.v as int) }
  function ByKey(x: KeyVal): int { x.k }
  function ByKeyDesc(x: KeyVal): int { -(x.k as int) }

  /** Asc: sorts by value, ascending. */
  method Asc(data: array<KeyVal>)
    modifies data
    ensures multiset(data[..]) == multiset(old(data[..]))
    ensures forall i, j :: 0 <= i < j < data.Length ==> data[i].v <= data[j].v
  {
    Sort(data, ByValue);
  }

  /** Desc: sorts by value, descending. */
  method Desc(data: array<KeyVal>)
    modifies data
    ensures multiset(data[..]) == multiset(old(data[..]))
    ensures forall i, j :: 0 <= i < j < data.Length ==> data[i].v >= data[j].v
  {
    Sort(data, ByValueDesc);
  }

  /** AscByKey: sorts by key, ascending. */
  method AscByKey(data: array<KeyVal>)
    modifies data
    ensures multiset(data[..]) == multiset(old(data[..]))
    ensures forall i, j :: 0 <= i < j < data.Length ==> data[i].k <= data[j].k
  {
    Sort(data, ByKey);
  }

  /** DescByKey: sorts by key, descending. */
  method DescByKey(data: array<KeyVal>)
    modifies data
    ensures multiset(data[..]) == multiset(old(data[..]))
    ensures forall i, j :: 0 <= i < j < data.Length ==> data[i].k >= data[j].k
  {
    Sort(data, ByKeyDesc);
  }

  /**
   * Sorting the records New builds by value and reading back their keys
   * gives positions of ar in ascending order of value.
   */
  lemma SortedKeysOrderValues(s: seq<KeyVal>, ar: seq<u64>)
    requires |ar| <= 0x1_0000
    requires multiset(s) == multiset(Indexed(ar))
    requires forall i, j :: 0 <= i < j < |s| ==> s[i].v <= s[j].v
    ensures |KeysOf(s)| == |ar|
    ensures forall i :: 0 <= i < |ar| ==> KeysOf(s)[i] < |ar|
    ensures forall i, j :: 0 <= i < j < |ar| ==> ar[KeysOf(s)[i]] <= ar[KeysOf(s)[j]]
  {
    assert |s| == |multiset(s)| == |Indexed(ar)|;
    IndexedLookup(s, ar);
  }

  /** IsSortedAsc: no value is followed by a smaller one. */
  method IsSortedAsc(data: array<KeyVal>) returns (r: bool)
    ensures r <==> forall i, j :: 0 <= i < j < data.Length ==> data[i].v <= data[j].v
  {
    r := IsSorted(data, ByValue);
  }

  /** IsSortedDesc: no value is followed by a larger one. */
  method IsSortedDesc(data: array<KeyVal>) returns (r: bool)
    ensures r <==> forall i, j :: 0 <= i < j < data.Length ==> data[i].v >= data[j].v
  {
    r := IsSorted(data, ByValueDesc);
  }

  /** IsSortedAscByKey: no key is followed by a smaller one. */
  method IsSortedAscByKey(data: array<KeyVal>) returns (r: bool)
    ensures r <==> forall i, j :: 0 <= i < j < data.Length ==> data[i].k <= data[j].k
  {
    r := IsSorted(data, ByKey);
  }

  /** IsSortedByKeyDesc: no key is followed by a larger one. */
  method IsSortedByKeyDesc(data: array<KeyVal>) returns (r: bool)
    ensures r <==> forall i, j :: 0 <= i < j < data.Length ==> data[i].k >= data[j].k
  {
    r := IsSorted(data, ByKeyDesc);
  }

  /** StableAsc: sorts by value; records of equal value keep their order. */
  method StableAsc(data: array<KeyVal>)
    modifies data
    ensures multiset(data[..]) == multiset(old(data[..]))
    ensures forall i, j :: 0 <= i < j < data.Length ==> data[i].v <= data[j].v
    ensures forall v :: Filter(data[..], ByValue, v) == Filter(old(data[..]), ByValue, v)
  {
    SortStable(data, ByValue);
    assert data[..][0..data.Length] == data[..];
    assert old(data[..])[0..data.Length] == old(data[..]);
  }

  /**
   * StableDesc, with the comparison its merge step needs (see
   * SymMergeCutDescAsWritten for the one it has): sorts by value,
   * descending; records of equal value keep their order.
   */
  method StableDesc(data: array<KeyVal>)
    modifies data
    ensures multiset(data[..]) == multiset(old(data[..]))
    ensures forall i, j :: 0 <= i < j < data.Length ==> data[i].v >= data[j].v
    ensures forall v :: Filter(data[..], ByValueDesc, v) == Filter(old(data[..]), ByValueDesc, v)
  {
    SortStable(data, ByValueDesc);
    assert data[..][0..data.Length] == data[..];
    assert old(data[..])[0..data.Length] == old(data[..]);
  }

  /** StableAscByKey: sorts by key; records of equal key keep their order. */
  method StableAscByKey(data: array<KeyVal>)
    modifies data
    ensures multiset(data[..]) == multiset(old(data[..]))
    ensures forall i, j :: 0 <= i < j < data.Length ==> data[i].k <= data[j].k
    ensures forall v :: Filter(data[..], ByKey, v) == Filter(old(data[..]), ByKey, v)
  {
    SortStable(data, ByKey);
    assert data[..][0..data.Length] == data[..];
    assert old(data[..])[0..data.Length] == old(data[..]);
  }

  /**
   * StableDescByKey, with the comparison its merge step needs (see
   * SymMergeCutByKeyDescAsWritten for the one it has): sorts by key,
   * descending; records of equal key keep their order.
   */
  method StableDescByKey(data: array<KeyVal>)
    modifies data
    ensures multiset(data[..]) == multiset(old(data[..]))
    ensures forall i, j :: 0 <= i < j < data.Length ==> data[i].k >= data[j].k
    ensures forall v :: Filter(data[..], ByKeyDesc, v) == Filter(old(data[..]), ByKeyDesc, v)
  {
    SortStable(data, ByKeyDesc);
    assert data[..][0..data.Length] == data[..];
    assert old(data[..])[0..data.Length] == old(data[..]);
  }

  /**
   * The binary search of symMergeDesc as written: it moves past c only when
   * data[p - c].V < data[c].V, where keeping equal values in order needs
   * <=. The search still ends at a cut, but ties go to the wrong side.
   */
  method SymMergeCutDescAsWritten(data: array<KeyVal>, lo: int, hi: int, p: int) returns (start: int)
    requires 0 <= lo <= hi && p - lo < data.Length && hi - 1 <= p - hi + 1
    ensures lo <= start <= hi
    ensures lo < start ==> data[p - (start - 1)].v < data[start - 1].v
    ensures start < hi ==> data[start].v <= data[p - start].v
  {
    start := lo;
    var r := hi;
    while start < r
      invariant lo <= start <= r <= hi
      invariant lo < start ==> data[p - (start - 1)].v < data[start - 1].v
      invariant r < hi ==> data[r].v <= data[p - r].v
    {
      var c := start + (r - start) / 2;
      if data[p - c].v < data[c].v {
        start := c + 1;
      } else {
        r := c;
      }
    }
  }

  /**
   * Records 0..19 valued 19 down to 0, then record 20 valued 10: both
   * blocks of StableDesc's first phase are already in descending order, and
   * records 9 and 20 tie.
   */
  function TieExample(): (s: seq<KeyVal>)
    ensures |s| == 21
  {
    seq(21, i requires 0 <= i < 21 => if i < 20 then KeyVal(i, 19 - i) else KeyVal(20, 10))
  }

  /**
   * On TieExample, symMergeDesc(0, 20, 21) searches [9, 10) with p = 29; any
   * result the as-written search can return is 9, so the merge rotates
   * [9, 20) with [20, 21) ...
   */
  lemma TieCutAsWritten(start: int)
    requires 9 <= start <= 10
    requires 9 < start ==> TieExample()[29 - (start - 1)].v < TieExample()[start - 1].v
    ensures start == 9
  {
  }

  /**
   * ... and the array that rotation leaves has record 20 before record 9
   * although their values tie: it is no longer a stable rearrangement of
   * TieExample. This is the array after the rotation of the first merge of
   * the run; that the recursive merges after it leave positions 9 and 10 as
   * they are is not proved here.
   */
  lemma TieRotationUnstable(t: seq<KeyVal>)
    requires Rotation(t, TieExample(), 9, 20, 21)
    ensures !Stable(t, TieExample(), ByValueDesc, 0, 21)
  {
    var s := TieExample();
    assert s[0..21] == s[..9] + [s[9]] + s[10..20] + [s[20]] + [];
    assert t[0..21] == s[..9] + [s[20]] + [] + [s[9]] + s[10..20];
    FilterTwo(s[..9], s[9], s[10..20], s[20], [], ByValueDesc, -10);
    FilterTwo(s[..9], s[20], [], s[9], s[10..20], ByValueDesc, -10);
    assert Filter(s[0..21], ByValueDesc, -10) != Filter(t[0..21], ByValueDesc, -10) by {
      assert s[9] != s[20];
    }
  }

  /**
   * The binary search of symMergeByKeyDesc as written, the same search on
   * the keys: it moves past c only when data[p - c].K < data[c].K.
   */
  method SymMergeCutByKeyDescAsWritten(data: array<KeyVal>, lo: int, hi: int, p: int) returns (start: int)
    requires 0 <= lo <= hi && p - lo < data.Length && hi - 1 <= p - hi + 1
    ensures lo <= start <= hi
    ensures lo < start ==> data[p - (start - 1)].k < data[start - 1].k
    ensures start < hi ==> data[start].k <= data[p - start].k
  {
    start := lo;
    var r := hi;
    while start < r
      invariant lo <= start <= r <= hi
      invariant lo < start ==> data[p - (start - 1)].k < data[start - 1].k
      invariant r < hi ==> data[r].k <= data[p - r].k
    {
      var c := start + (r - start) / 2;
      if data[p - c].k < data[c].k {
        start := c + 1;
      } else {
        r := c;
      }
    }
  }

  /** TieExample with keys and values exchanged: records 9 and 20 tie on their keys. */
  function KeyTieExample(): (s: seq<KeyVal>)
    ensures |s| == 21
  {
    seq(21, i requires 0 <= i < 21 => if i < 20 then KeyVal(19 - i, i) else KeyVal(10, 20))
  }

  /** The search of symMergeByKeyDesc(0, 20, 21) as written stops at 9 on KeyTieExample ... */
  lemma TieCutByKeyAsWritten(start: int)
    requires 9 <= start <= 10
    requires 9 < start ==> KeyTieExample()[29 - (start - 1)].k < KeyTieExample()[start - 1].k
    ensures start == 9
  {
  }

  /**
   * ... and its rotation puts record 20 before record 9 although their keys
   * tie. As with TieRotationUnstable, this is the array after the first
   * rotation of the run only.
   */
  lemma TieRotationUnstableByKey(t: seq<KeyVal>)
    requires Rotation(t, KeyTieExample(), 9, 20, 21)
    ensures !Stable(t, KeyTieExample(), ByKeyDesc, 0, 21)
  {
    var s := KeyTieExample();
    assert s[0..21] == s[..9] + [s[9]] + s[10..20] + [s[20]] + [];
    assert t[0..21] == s[..9] + [s[20]] + [] + [s[9]] + s[10..20];
    FilterTwo(s[..9], s[9], s[10..20], s[20], [], ByKeyDesc, -10);
    FilterTwo(s[..9], s[20], [], s[9], s[10..20], ByKeyDesc, -10);
    assert Filter(s[0..21], ByKeyDesc, -10) != Filter(t[0..21], ByKeyDesc, -10) by {
      assert s[9] != s[20];
    }
  }

  /** Filter of a single element. */
  lemma FilterSingle<T>(x: T, rank: T -> int, v: int)
    ensures Filter([x], rank, v) == if rank(x) == v then [x] else []
  {
    assert [x][1..] == [];
  }

  /** Filter of a sequence holding exactly two elements of rank v. */
  lemma FilterTwo<T>(a: seq<T>, x: T, b: seq<T>, y: T, c: seq<T>, rank: T -> int, v: int)
    requires rank(x) == v && rank(y) == v
    requires forall k :: 0 <= k < |a| ==> rank(a[k]) != v
    requires forall k :: 0 <= k < |b| ==> rank(b[k]) != v
    requires forall k :: 0 <= k < |c| ==> rank(c[k]) != v
    ensures Filter(a + [x] + b + [y] + c, rank, v) == [x, y]
  {
    FilterOne(a, x, b, rank, v);
    FilterOne([], y, c, rank, v);
    assert a + [x] + b + [y] + c == (a + [x] + b) + ([] + [y] + c);
    FilterConcat(a + [x] + b, [] + [y] + c, rank, v);
  }

  /** Filter of a sequence holding exactly one element of rank v. */
  lemma FilterOne<T>(a: seq<T>, x: T, b: seq<T>, rank: T -> int, v: int)
    requires rank(x) == v
    requires forall k :: 0 <= k < |a| ==> rank(a[k]) != v
    requires forall k :: 0 <= k < |b| ==> rank(b[k]) != v
    ensures Filter(a + [x] + b, rank, v) == [x]
  {
    FilterAbsent(a, rank, v);
    FilterAbsent(b, rank, v);
    FilterSingle(x, rank, v);
    FilterConcat(a, [x], rank, v);
    FilterConcat(a + [x], b, rank, v);
  }
}
