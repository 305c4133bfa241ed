/**
 * The sorting service of the Thrift RPC server (server/rpcserver.go): a
 * quicksort with Lomuto partitioning over int32 values, in ascending or
 * descending order.
 *
 * The direction flag `asc` is turned into a rank: the value itself when
 * ascending, its negation when descending, so that both directions are
 * "sorted by rank" in the sense of Introsort.Sorted.
 */
module RpcServer {
  import opened Introsort

  type int32 = x: int | -0x8000_0000 <= x < 0x8000_0000

  /** The rank the direction flag orders by. */
  function Rank(asc: bool): (rank: int32 -> int)
  {
    x => if asc then x as int else -(x as int)
  }

  /** less: a comes strictly before b in the requested direction. */
  function Less(a: int32, b: int32, asc: bool): (r: bool)
    ensures r <==> Rank(asc)(a) < Rank(asc)(b)
  {
    if asc then a < b else a > b
  }

  /**
   * partition: moves the middle element to r and uses it as the pivot;
   * afterwards everything in [l, q) comes strictly before the pivot, which
   * sits at q, and nothing in (q, r] does.
   */
  method Partition(arr: array<int32>, l: int, r: int, asc: bool) returns (q: int)
    requires 0 <= l < r < arr.Length
    modifies arr
    ensures l <= q <= r
    ensures arr[q] == old(arr[(l + r) / 2])
    ensures Perm(arr[..], old(arr[..]), l, r + 1)
    ensures AllLess(arr[..], Rank(asc), l, q, Rank(asc)(arr[q]))
    ensures Above(arr[..], Rank(asc), q + 1, r + 1, Rank(asc)(arr[q]))
  {
    var m := (l + r) / 2;
    PermRefl(arr[..], l, r + 1);
    Swap(arr, m, r, l, r + 1, old(arr[..]));
    var x := arr[r];
    var i := Scan(arr, l, r, x, asc, old(arr[..]));
    ghost var s := arr[..];
    q := i + 1;
    Swap(arr, q, r, l, r + 1, old(arr[..]));
    PivotPlaced(s, arr[..], Rank(asc), l, q, r, x);
  }

  /**
   * partition's loop: every element of [l, r) that comes strictly before the
   * pivot x (kept at r) is moved to the front; afterwards those are [l, i]
   * and the rest (i, r).
   */
  method Scan(arr: array<int32>, l: int, r: int, x: int32, asc: bool, ghost orig: seq<int32>) returns (i: int)
    requires 0 <= l < r < arr.Length && arr[r] == x
    requires Perm(arr[..], orig, l, r + 1)
    modifies arr
    ensures l - 1 <= i < r && arr[r] == x
    ensures Perm(arr[..], orig, l, r + 1)
    ensures AllLess(arr[..], Rank(asc), l, i + 1, Rank(asc)(x))
    ensures Above(arr[..], Rank(asc), i + 1, r, Rank(asc)(x))
  {
    i := l - 1;
    var j := l;
    while j < r
      invariant l - 1 <= i < j <= r
      invariant arr[r] == x
      invariant Perm(arr[..], orig, l, r + 1)
      invariant AllLess(arr[..], Rank(asc), l, i + 1, Rank(asc)(x))
      invariant Above(arr[..], Rank(asc), i + 1, j, Rank(asc)(x))
    {
      if Less(arr[j], x, asc) {
        i := i + 1;
        ghost var s := arr[..];
        Swap(arr, i, j, l, r + 1, orig);
        ScanSwapped(s, arr[..], Rank(asc), l, i, j, Rank(asc)(x));
      }
      j := j + 1;
    }
  }

  /** Swapping a value before the pivot into the first slot of the upper part. */
  lemma ScanSwapped(s: seq<int32>, t: seq<int32>, rank: int32 -> int, l: int, i: int, j: int, x: int)
    requires 0 <= l <= i <= j < |s| && Swapped(t, s, i, j)
    requires AllLess(s, rank, l, i, x) && Above(s, rank, i, j, x) && rank(s[j]) < x
    ensures AllLess(t, rank, l, i + 1, x) && Above(t, rank, i + 1, j + 1, x)
  {
  }

  /** The final swap puts the pivot between the two parts. */
  lemma PivotPlaced(s: seq<int32>, t: seq<int32>, rank: int32 -> int, l: int, q: int, r: int, x: int32)
    requires 0 <= l <= q <= r < |s| && Swapped(t, s, q, r) && s[r] == x
    requires AllLess(s, rank, l, q, rank(x)) && Above(s, rank, q, r, rank(x))
    ensures AllLess(t, rank, l, q, rank(t[q])) && Above(t, rank, q + 1, r + 1, rank(t[q]))
  {
  }

  /**
   * The two recursive calls of qsort put the whole range in order: the left
   * part only holds values before the pivot and the right part none.
   */
  lemma QSortJoin(t: seq<int32>, u: seq<int32>, w: seq<int32>, rank: int32 -> int, l: int, q: int, r: int)
    requires 0 <= l <= q <= r < |t|
    requires AllLess(t, rank, l, q, rank(t[q])) && Above(t, rank, q + 1, r + 1, rank(t[q]))
    requires Perm(u, t, l, q) && Sorted(u, rank, l, q)
    requires Perm(w, u, q + 1, r + 1) && Sorted(w, rank, q + 1, r + 1)
    ensures Perm(w, t, l, r + 1) && Sorted(w, rank, l, r + 1)
  {
    var x := rank(t[q]);
    PermWiden(u, t, l, q, l, r + 1);
    PermWiden(w, u, q + 1, r + 1, l, r + 1);
    PermTrans(w, u, t, l, r + 1);
    forall i | l <= i < q
      ensures rank(w[i]) < x
    {
      PermElement(u, t, l, q, i);
    }
    forall i | q + 1 <= i <= r
      ensures x <= rank(w[i])
    {
      PermElement(w, u, q + 1, r + 1, i);
      PermAboveElement(u, t, rank, l, q, q + 1, r + 1, x);
    }
  }

  /** The first recursive call leaves the right part alone. */
  lemma PermAboveElement(u: seq<int32>, t: seq<int32>, rank: int32 -> int, l: int, q: int, lo: int, hi: int, x: int)
    requires Perm(u, t, l, q) && q <= lo <= hi <= |t| && Above(t, rank, lo, hi, x)
    ensures Above(u, rank, lo, hi, x)
  {
    assert forall i :: lo <= i < hi ==> u[i] == t[i];
  }

  /** qsort: sorts [l, r] in place in the requested direction. */
  method QSort(arr: array<int32>, l: int, r: int, asc: bool)
    requires 0 <= l <= r + 1 <= arr.Length
    modifies arr
    ensures Perm(arr[..], old(arr[..]), l, r + 1)
    ensures Sorted(arr[..], Rank(asc), l, r + 1)
    decreases r - l
  {
    if l < r {
      var q := Partition(arr, l, r, asc);
      ghost var t := arr[..];
      QSort(arr, l, q - 1, asc);
      ghost var u := arr[..];
      QSort(arr, q + 1, r, asc);
      QSortJoin(t, u, arr[..], Rank(asc), l, q, r);
      PermTrans(arr[..], t, old(arr[..]), l, r + 1);
    }
  }

  /**
   * Sort: sorts the whole array in the requested direction. The values come
   * from randInt in the server; here they are the argument.
   */
  method Sort(arr: array<int32>, asc: bool)
    modifies arr
    ensures multiset(arr[..]) == multiset(old(arr[..]))
    ensures forall i, j :: 0 <= i < j < arr.Length ==> !Less(arr[j], arr[i], asc)
  {
    QSort(arr, 0, arr.Length - 1, asc);
  }
}
