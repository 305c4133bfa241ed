/**
 * The Limit56 sort (src/github.com/AlasdairF/BinSearch/Limit56/Limit56.go):
 * the introsort of Introsort specialised to records whose key is a tuple of
 * seven 64-bit words, ordered word by word. BinSearch uses it to sort the
 * keys of up to 56 bytes that it packs into seven words.
 */
module Limit56 {
  import opened Words
  import opened Introsort

  /** A key of seven words, the array V [7]uint64. */
  type Key7 = w: seq<u64> | |w| == 7 witness [0, 0, 0, 0, 0, 0, 0]

  /** KeyVal: the packed key V and the index K it belongs to. */
  datatype KeyVal = KeyVal(k: int, v: Key7)

  /**
   * The comparison chain of less from word i on: the first word that differs
   * decides, and the last word is compared with < alone.
   */
  function LessFrom(a: Key7, b: Key7, i: nat): (r: bool)
    requires i < 7
    decreases 7 - i
  {
    if i == 6 then a[6] < b[6]
    else if a[i] < b[i] then true
    else if a[i] > b[i] then false
    else LessFrom(a, b, i + 1)
  }

  /** The chain from word i on is the word-by-word comparison of the tails. */
  lemma {:induction false} LessFromCompare(a: Key7, b: Key7, i: nat)
    requires i < 7
    ensures LessFrom(a, b, i) <==> Compare(a[i..], b[i..]) < 0
    decreases 7 - i
  {
    assert a[i..][1..] == a[i + 1..] && b[i..][1..] == b[i + 1..];
    if i < 6 {
      LessFromCompare(a, b, i + 1);
    } else {
      assert Compare(a[7..], b[7..]) == 0;
    }
  }

  /** The rank Asc orders by: the key read as a number in base 2^64. */
  function Rank(x: KeyVal): int
  {
    Num(x.v)
  }

  /** less: x's key is lexicographically (numerically) below y's. */
  function Less(x: KeyVal, y: KeyVal): (r: bool)
    ensures r <==> Compare(x.v, y.v) < 0
    ensures r <==> Rank(x) < Rank(y)
  {
    LessFromCompare(x.v, y.v, 0);
    assert x.v[0..] == x.v && y.v[0..] == y.v;
    CompareNum(x.v, y.v);
    LessFrom(x.v, y.v, 0)
  }

  /**
   * less is a strict total order on the keys: never both directions, never
   * a key against itself, and exactly one direction for distinct keys.
   */
  lemma LessTrichotomy(x: KeyVal, y: KeyVal)
    ensures !(Less(x, y) && Less(y, x))
    ensures x.v == y.v ==> !Less(x, y)
    ensures x.v != y.v ==> Less(x, y) || Less(y, x)
  {
    CompareNum(x.v, y.v);
  }

  /** Asc: sorts the records by key; no record is followed by a smaller one. */
  method Asc(data: array<KeyVal>)
    modifies data
    ensures multiset(data[..]) == multiset(old(data[..]))
    ensures forall i, j :: 0 <= i < j < data.Length ==> !Less(data[j], data[i])
  {
    Sort(data, Rank);
  }
}
