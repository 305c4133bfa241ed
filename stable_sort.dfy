/**
 * The stable sort of the generated sort packages (Uint16Uint64.go lines
 * 205-290 and its three copies): insertion sort on blocks of 20 elements,
 * then rounds of SymMerge (Kim and Kutzner) that merge neighbouring blocks
 * of doubling size, each merge built on an in-place rotation.
 *
 * As in Introsort, `less(x, y)` is `rank(x) < rank(y)`.
 */
module StableSort {
  import opened Introsort

  /** t is s with the blocks [x, y) and [y, z) exchanged. */
  ghost predicate Rotation<T>(t: seq<T>, s: seq<T>, x: int, y: int, z: int)
  {
    |t| == |s| && 0 <= x <= y <= z <= |s| &&
    (forall i {:trigger t[i]} :: 0 <= i < x || z <= i < |s| ==> t[i] == s[i]) &&
    (forall i {:trigger t[i]} :: x <= i < x + (z - y) ==> t[i] == s[i + (y - x)]) &&
    (forall i {:trigger t[i]} :: x + (z - y) <= i < z ==> t[i] == s[i - (z - y)])
  }

  /** The rotation as slices: [x, z) of t is s[y..z] followed by s[x..y]. */
  lemma RotationSlices<T>(t: seq<T>, s: seq<T>, x: int, y: int, z: int)
    requires Rotation(t, s, x, y, z)
    ensures t[x..z] == s[y..z] + s[x..y]
    ensures t == s[..x] + s[y..z] + s[x..y] + s[z..]
  {
    assert forall i | 0 <= i < z - x :: t[x..z][i] == (s[y..z] + s[x..y])[i];
  }

  /** Every exchange of two blocks exists. */
  lemma RotationExists<T>(s: seq<T>, x: int, y: int, z: int) returns (t: seq<T>)
    requires 0 <= x <= y <= z <= |s|
    ensures Rotation(t, s, x, y, z)
  {
    t := s[..x] + s[y..z] + s[x..y] + s[z..];
  }

  /**
   * One step of rotateAsc's loop when the left block is the longer: once
   * its head is exchanged with the n elements of the right block, what is
   * left to rotate is [x + n, y) and [y, z).
   */
  lemma RotationLeft<T>(f: seq<T>, s: seq<T>, x: int, y: int, z: int, n: int, x': int, z': int)
    requires n == z - y && n < y - x && x' == x + n && z' == z
    requires Rotation(f, s, x, y, z)
    ensures Rotation(f, SwapBlocks(s, x, y, n), x', y, z')
  {
    SwapBlocksSwapped(s, x, y, n);
  }

  /**
   * One step of rotateAsc's loop when the right block is the longer: once
   * the n elements of the left block are exchanged with its tail [b, z),
   * what is left to rotate is [x, y) and [y, z').
   */
  lemma RotationRight<T>(f: seq<T>, s: seq<T>, x: int, y: int, z: int, n: int, b: int, x': int, z': int)
    requires n == y - x && n < z - y && b == z - n && x' == x && z' == b
    requires Rotation(f, s, x, y, z)
    ensures Rotation(f, SwapBlocks(s, x, b, n), x', y, z')
  {
    SwapBlocksSwapped(s, x, b, n);
  }

  /** Exchanging two blocks of equal length n completes the rotation. */
  lemma RotationEqual<T>(s: seq<T>, x: int, y: int, z: int, n: int)
    requires 0 <= x <= y && n == y - x && n == z - y && z <= |s|
    ensures Rotation(SwapBlocks(s, x, y, n), s, x, y, z)
  {
    SwapBlocksSwapped(s, x, y, n);
  }

  /** Rotating around an empty block changes nothing. */
  lemma RotationEmpty<T>(s: seq<T>, x: int, y: int, z: int)
    requires 0 <= x <= y <= z <= |s| && (x == y || y == z)
    ensures Rotation(s, s, x, y, z)
  {
  }

  /** An exchange of two blocks permutes the range that spans them. */
  lemma RotationPerm<T>(t: seq<T>, s: seq<T>, x: int, y: int, z: int)
    requires Rotation(t, s, x, y, z)
    ensures Perm(t, s, x, z)
  {
    RotationSlices(t, s, x, y, z);
    assert s == s[..x] + s[x..y] + s[y..z] + s[z..];
  }

  /** Rotation pins its result down completely. */
  lemma RotationUnique<T>(f: seq<T>, g: seq<T>, s: seq<T>, x: int, y: int, z: int)
    requires Rotation(f, s, x, y, z) && Rotation(g, s, x, y, z)
    ensures f == g
  {
    assert forall i | 0 <= i < |f| :: f[i] == g[i];
  }

  /**
   * What rotateAsc's loop and its final swap make of s, when i elements
   * left of p and j elements from p on are still to be exchanged.
   */
  ghost function Rotated<T>(s: seq<T>, i: int, j: int, p: int): seq<T>
    requires 0 < i && 0 < j && 0 <= p - i && p + j <= |s|
    decreases i + j
  {
    if i == j then SwapBlocks(s, p - i, p, i)
    else if i > j then Rotated(SwapBlocks(s, p - i, p, j), i - j, j, p)
    else Rotated(SwapBlocks(s, p - i, p + j - i, i), i, j - i, p)
  }

  /** The loop's swaps add up to the exchange of [p - i, p) and [p, p + j). */
  lemma {:induction false} RotatedRotation<T>(s: seq<T>, i: int, j: int, p: int, x: int, z: int)
    requires 0 < i && 0 < j && x == p - i && z == p + j && 0 <= x && z <= |s|
    ensures Rotation(Rotated(s, i, j, p), s, x, p, z)
    decreases i + j, 1
  {
    if i == j {
      RotationEqual(s, x, p, z, i);
    } else if i > j {
      RotatedLeft(s, i, j, p, x, z);
    } else {
      RotatedRight(s, i, j, p, x, z);
    }
  }

  /** RotatedRotation when the left block is the longer. */
  lemma {:induction false} RotatedLeft<T>(s: seq<T>, i: int, j: int, p: int, x: int, z: int)
    requires 0 < j < i && x == p - i && z == p + j && 0 <= x && z <= |s|
    ensures Rotation(Rotated(s, i, j, p), s, x, p, z)
    decreases i + j, 0
  {
    var u := SwapBlocks(s, x, p, j);
    assert Rotated(s, i, j, p) == Rotated(u, i - j, j, p);
    RotatedRotation(u, i - j, j, p, x + j, z);
    RotationLeftBack(Rotated(u, i - j, j, p), s, x, p, z, j);
  }

  /** RotatedRotation when the right block is the longer. */
  lemma {:induction false} RotatedRight<T>(s: seq<T>, i: int, j: int, p: int, x: int, z: int)
    requires 0 < i < j && x == p - i && z == p + j && 0 <= x && z <= |s|
    ensures Rotation(Rotated(s, i, j, p), s, x, p, z)
    decreases i + j, 0
  {
    var u := SwapBlocks(s, x, z - i, i);
    assert Rotated(s, i, j, p) == Rotated(u, i, j - i, p);
    RotatedRotation(u, i, j - i, p, x, z - i);
    RotationRightBack(Rotated(u, i, j - i, p), s, x, p, z, i);
  }

  /** A rotation that finishes what RotationLeft's step started is the whole rotation. */
  lemma RotationLeftBack<T>(g: seq<T>, s: seq<T>, x: int, y: int, z: int, n: int)
    requires 0 <= x && n == z - y && 0 < n < y - x && z <= |s|
    requires Rotation(g, SwapBlocks(s, x, y, n), x + n, y, z)
    ensures Rotation(g, s, x, y, z)
  {
    var f := RotationExists(s, x, y, z);
    RotationLeft(f, s, x, y, z, n, x + n, z);
    RotationUnique(f, g, SwapBlocks(s, x, y, n), x + n, y, z);
  }

  /** A rotation that finishes what RotationRight's step started is the whole rotation. */
  lemma RotationRightBack<T>(g: seq<T>, s: seq<T>, x: int, y: int, z: int, n: int)
    requires 0 <= x && n == y - x && 0 < n < z - y && z <= |s|
    requires Rotation(g, SwapBlocks(s, x, z - n, n), x, y, z - n)
    ensures Rotation(g, s, x, y, z)
  {
    var f := RotationExists(s, x, y, z);
    RotationRight(f, s, x, y, z, n, z - n, x, z - n);
    RotationUnique(f, g, SwapBlocks(s, x, z - n, n), x, y, z - n);
  }

  /**
   * rotateAsc: exchanges the blocks [a, m) and [m, b) by repeatedly swapping
   * the shorter block with the far end of the longer one.
   */
  method Rotate<T>(data: array<T>, a: int, m: int, b: int)
    requires 0 <= a <= m <= b <= data.Length
    modifies data
    ensures Rotation(data[..], old(data[..]), a, m, b)
  {
    var i := m - a;
    if i == 0 {
      RotationEmpty(data[..], a, m, b);
      return;
    }
    var j := b - m;
    if j == 0 {
      RotationEmpty(data[..], a, m, b);
      return;
    }
    if i == j {
      ghost var s := data[..];
      SwapRange(data, a, m, i);
      RotationEqual(s, a, m, b, i);
      return;
    }
    var p := a + i;
    assert p == m;
    RotateLoop(data, i, j, p);
    RotatedRotation(old(data[..]), i, j, p, a, b);
  }

  /** rotateAsc's loop and its final swap. */
  method RotateLoop<T>(data: array<T>, i0: int, j0: int, p: int)
    requires 0 < i0 && 0 < j0 && 0 <= p - i0 && p + j0 <= data.Length
    modifies data
    ensures data[..] == Rotated(old(data[..]), i0, j0, p)
  {
    var i, j := i0, j0;
    ghost var goal := Rotated(data[..], i0, j0, p);
    while i != j
      invariant 0 < i && 0 < j && 0 <= p - i && p + j <= data.Length
      invariant Rotated(data[..], i, j, p) == goal
      decreases i + j
    {
      i, j := RotateStep(data, i, j, p);
    }
    ghost var s := data[..];
    SwapRange(data, p - i, p, i);
    RotatedLast(s, data[..], i, j, p);
  }

  /** One pass of rotateAsc's loop: the longer block gives up the length of the shorter one. */
  method RotateStep<T>(data: array<T>, i: int, j: int, p: int) returns (i': int, j': int)
    requires 0 < i && 0 < j && i != j && 0 <= p - i && p + j <= data.Length
    modifies data
    ensures 0 < i' && 0 < j' && 0 <= p - i' && p + j' <= data.Length && i' + j' < i + j
    ensures Rotated(data[..], i', j', p) == Rotated(old(data[..]), i, j, p)
  {
    if i > j {
      RotateLeftStep(data, i, j, p);
      i', j' := i - j, j;
    } else {
      RotateRightStep(data, i, j, p);
      i', j' := i, j - i;
    }
  }

  /** A step of rotateAsc's loop when the left block is the longer. */
  method RotateLeftStep<T>(data: array<T>, i: int, j: int, p: int)
    requires 0 < j < i && 0 <= p - i && p + j <= data.Length
    modifies data
    ensures Rotated(data[..], i - j, j, p) == Rotated(old(data[..]), i, j, p)
  {
    SwapRange(data, p - i, p, j);
  }

  /** A step of rotateAsc's loop when the right block is the longer. */
  method RotateRightStep<T>(data: array<T>, i: int, j: int, p: int)
    requires 0 < i < j && 0 <= p - i && p + j <= data.Length
    modifies data
    ensures Rotated(data[..], i, j - i, p) == Rotated(old(data[..]), i, j, p)
  {
    SwapRange(data, p - i, p + j - i, i);
  }

  /** When the blocks left to exchange are equally long, one swap finishes the rotation. */
  lemma RotatedLast<T>(s: seq<T>, t: seq<T>, i: int, j: int, p: int)
    requires 0 < i == j && 0 <= p - i && p + j <= |s|
    requires t == SwapBlocks(s, p - i, p, i)
    ensures t == Rotated(s, i, j, p)
  {
  }

  /** m clamped into [a, b]. */
  function Clamp(a: int, m: int, b: int): (r: int)
    requires a <= b
    ensures a <= r <= b
    ensures a <= m <= b ==> r == m
    ensures m < a ==> r == a
    ensures b < m ==> r == b
  {
    if m < a then a else if b < m then b else m
  }

  /**
   * The binary search of symMergeAsc over c in [start, r): finds the first
   * c whose element ranks above its mirror image data[p - c].
   */
  method MirrorSearch<T>(data: array<T>, rank: T -> int, lo: int, hi: int, p: int) returns (start: int)
    requires 0 <= lo <= hi && p - lo < data.Length && hi - 1 <= p - hi + 1
    ensures lo <= start <= hi
    ensures lo < start ==> rank(data[start - 1]) <= rank(data[p - (start - 1)])
    ensures start < hi ==> rank(data[p - start]) < rank(data[start])
  {
    start := lo;
    var r := hi;
    while start < r
      invariant lo <= start <= r <= hi
      invariant lo < start ==> rank(data[start - 1]) <= rank(data[p - (start - 1)])
      invariant r < hi ==> rank(data[p - r]) < rank(data[r])
    {
      var c := start + (r - start) / 2;
      if rank(data[p - c]) >= rank(data[c]) {
        start := c + 1;
      } else {
        r := c;
      }
    }
  }

  /** Filter(s, rank, v) is non-empty only when s holds an element ranked v. */
  lemma {:induction false} FilterWitness<T>(s: seq<T>, rank: T -> int, v: int) returns (i: int)
    requires Filter(s, rank, v) != []
    ensures 0 <= i < |s| && rank(s[i]) == v
  {
    if rank(s[0]) == v {
      i := 0;
    } else {
      var k := FilterWitness(s[1..], rank, v);
      i := k + 1;
    }
  }

  /** Filter(s, rank, v) is empty when no element of s is ranked v. */
  lemma FilterAbsent<T>(s: seq<T>, rank: T -> int, v: int)
    requires forall k :: 0 <= k < |s| ==> rank(s[k]) != v
    ensures Filter(s, rank, v) == []
  {
    if Filter(s, rank, v) != [] {
      var i := FilterWitness(s, rank, v);
    }
  }

  /** When every element of B outranks no element of A, no rank occurs in both. */
  lemma DisjointRanks<T>(A: seq<T>, B: seq<T>, rank: T -> int, v: int)
    requires forall i, j :: 0 <= i < |A| && 0 <= j < |B| ==> rank(B[j]) < rank(A[i])
    ensures Filter(A, rank, v) == [] || Filter(B, rank, v) == []
  {
    if Filter(A, rank, v) != [] {
      var i := FilterWitness(A, rank, v);
      FilterAbsent(B, rank, v);
    }
  }

  /**
   * Exchanging two blocks is stable when every element of the first
   * outranks every element of the second.
   */
  lemma RotStable<T>(t: seq<T>, s: seq<T>, rank: T -> int, x: int, y: int, z: int)
    requires Rotation(t, s, x, y, z)
    requires forall i, j :: x <= i < y <= j < z ==> rank(s[j]) < rank(s[i])
    ensures Stable(t, s, rank, x, z)
  {
    RotationSlices(t, s, x, y, z);
    SliceSplit(s, x, y, z);
    BlockRanks(s, rank, x, y, z);
    SwapStable(s[x..y], s[y..z], rank);
  }

  /** The slice [x, z) is the slice [x, y) followed by the slice [y, z). */
  lemma SliceSplit<T>(s: seq<T>, x: int, y: int, z: int)
    requires 0 <= x <= y <= z <= |s|
    ensures s[x..z] == s[x..y] + s[y..z]
  {
  }

  /** The rank order between the blocks [x, y) and [y, z), in terms of the slices. */
  lemma BlockRanks<T>(s: seq<T>, rank: T -> int, x: int, y: int, z: int)
    requires 0 <= x <= y <= z <= |s|
    requires forall i, j :: x <= i < y <= j < z ==> rank(s[j]) < rank(s[i])
    ensures forall i, j :: 0 <= i < y - x && 0 <= j < z - y ==> rank(s[y..z][j]) < rank(s[x..y][i])
  {
    forall i, j | 0 <= i < y - x && 0 <= j < z - y
      ensures rank(s[y..z][j]) < rank(s[x..y][i])
    {
      assert s[x..y][i] == s[x + i] && s[y..z][j] == s[y + j];
    }
  }

  /** Two blocks whose ranks do not overlap can trade places without changing any Filter. */
  lemma SwapStable<T>(A: seq<T>, B: seq<T>, rank: T -> int)
    requires forall i, j :: 0 <= i < |A| && 0 <= j < |B| ==> rank(B[j]) < rank(A[i])
    ensures forall v :: Filter(B + A, rank, v) == Filter(A + B, rank, v)
  {
    forall v
      ensures Filter(B + A, rank, v) == Filter(A + B, rank, v)
    {
      SwapStableAt(A, B, rank, v);
    }
  }

  /** SwapStable for one rank value v. */
  lemma SwapStableAt<T>(A: seq<T>, B: seq<T>, rank: T -> int, v: int)
    requires forall i, j :: 0 <= i < |A| && 0 <= j < |B| ==> rank(B[j]) < rank(A[i])
    ensures Filter(B + A, rank, v) == Filter(A + B, rank, v)
  {
    FilterConcat(B, A, rank, v);
    FilterConcat(A, B, rank, v);
    DisjointRanks(A, B, rank, v);
    AppendEmpty(Filter(B, rank, v), Filter(A, rank, v));
  }

  /** Appending an empty sequence on either side commutes. */
  lemma AppendEmpty<T>(x: seq<T>, y: seq<T>)
    requires x == [] || y == []
    ensures x + y == y + x
  {
    if x == [] {
      assert x + y == y == y + x;
    } else {
      assert x + y == x == y + x;
    }
  }

  /**
   * The state after symMergeAsc's rotation: [a, mid) holds the lower parts
   * of both inputs and [mid, b) the upper parts, each part still sorted.
   */
  lemma SymMergeRotated<T>(s: seq<T>, t: seq<T>, rank: T -> int, a: int, m: int, b: int, start: int, end: int, mid: int)
    requires 0 <= a <= start <= m <= end <= b <= |s| && mid == start + (end - m)
    requires Sorted(s, rank, a, m) && Sorted(s, rank, m, b)
    requires a < start && end < b ==> rank(s[start - 1]) <= rank(s[end])
    requires start < m < end ==> rank(s[end - 1]) < rank(s[start])
    requires Rotation(t, s, start, m, end)
    ensures Stable(t, s, rank, a, b)
    ensures Sorted(t, rank, a, start) && Sorted(t, rank, start, mid)
    ensures Sorted(t, rank, mid, end) && Sorted(t, rank, end, b)
    ensures Split(t, rank, a, mid, b)
  {
    RotStable(t, s, rank, start, m, end);
    StableWiden(t, s, rank, start, end, a, b);
    forall i, j | a <= i < mid <= j < b
      ensures rank(t[i]) <= rank(t[j])
    {
      if i < start && j >= end {
        assert rank(s[i]) <= rank(s[start - 1]);
      } else if i >= start && j < end {
        assert rank(s[end - 1]) < rank(s[start]);
      }
    }
  }

  /** Both halves merged: the whole of [a, b) is a sorted, stable rearrangement. */
  lemma SymMergeDone<T>(s: seq<T>, t: seq<T>, u: seq<T>, w: seq<T>, rank: T -> int, a: int, mid: int, b: int)
    requires 0 <= a <= mid <= b <= |s|
    requires Perm(t, s, a, b) && Stable(t, s, rank, a, b) && Split(t, rank, a, mid, b)
    requires Perm(u, t, a, mid) && Stable(u, t, rank, a, mid) && Sorted(u, rank, a, mid)
    requires Perm(w, u, mid, b) && Stable(w, u, rank, mid, b) && Sorted(w, rank, mid, b)
    ensures Perm(w, s, a, b) && Stable(w, s, rank, a, b) && Sorted(w, rank, a, b)
  {
    SplitPerm(t, u, rank, a, mid, b, a, mid);
    SplitPerm(u, w, rank, a, mid, b, mid, b);
    assert Sorted(w, rank, a, mid);
    SortedJoin(w, rank, a, mid, b);
    StableWiden(u, t, rank, a, mid, a, b);
    StableWiden(w, u, rank, mid, b, a, b);
    StableTrans(w, u, t, rank, a, b);
    StableTrans(w, t, s, rank, a, b);
  }

  /**
   * symMergeAsc: merges the sorted ranges [a, m) and [m, b) in place and
   * stably (m outside [a, b] leaves the array unchanged).
   */
  method SymMerge<T>(data: array<T>, rank: T -> int, a: int, m: int, b: int)
    requires 0 <= a <= b <= data.Length
    requires Sorted(data[..], rank, a, Clamp(a, m, b)) && Sorted(data[..], rank, Clamp(a, m, b), b)
    modifies data
    ensures Perm(data[..], old(data[..]), a, b)
    ensures Stable(data[..], old(data[..]), rank, a, b)
    ensures Sorted(data[..], rank, a, b)
    decreases b - a
  {
    if a >= m || m >= b {
      StableRefl(data[..], rank, a, b);
      return;
    }
    ghost var s := data[..];
    var mid, start, end := SymMergeSplit(data, rank, a, m, b);
    ghost var t := data[..];
    SymMerge(data, rank, a, start, mid);
    ghost var u := data[..];
    SymMerge(data, rank, mid, end, b);
    SymMergeDone(s, t, u, data[..], rank, a, mid, b);
  }

  /**
   * The first half of symMergeAsc: finds where [a, m) and [m, b) are cut and
   * rotates the pieces so that [a, mid) and [mid, b) are each made of two
   * sorted ranges and nothing in [a, mid) outranks anything in [mid, b).
   */
  method SymMergeSplit<T>(data: array<T>, rank: T -> int, a: int, m: int, b: int) returns (mid: int, start: int, end: int)
    requires 0 <= a < m < b <= data.Length
    requires Sorted(data[..], rank, a, m) && Sorted(data[..], rank, m, b)
    modifies data
    ensures mid == a + (b - a) / 2 && a <= start <= mid <= end <= b
    ensures Perm(data[..], old(data[..]), a, b) && Stable(data[..], old(data[..]), rank, a, b)
    ensures Sorted(data[..], rank, a, start) && Sorted(data[..], rank, start, mid)
    ensures Sorted(data[..], rank, mid, end) && Sorted(data[..], rank, end, b)
    ensures Split(data[..], rank, a, mid, b)
  {
    mid := a + (b - a) / 2;
    start, end := SymMergeCut(data, rank, a, m, b, mid);
    ghost var s := data[..];
    Rotate(data, start, m, end);
    RotationPerm(data[..], s, start, m, end);
    PermWiden(data[..], s, start, end, a, b);
    SymMergeRotated(s, data[..], rank, a, m, b, start, end, mid);
  }

  /**
   * symMergeAsc's binary search: start cuts [a, m) and end = mid + m - start
   * cuts [m, b) so that [a, start) and [m, end) hold the mid - a lowest
   * elements.
   */
  method SymMergeCut<T>(data: array<T>, rank: T -> int, a: int, m: int, b: int, mid: int) returns (start: int, end: int)
    requires 0 <= a < m < b <= data.Length && mid == a + (b - a) / 2
    ensures a <= start <= m <= end <= b && mid == start + (end - m)
    ensures a < start && end < b ==> rank(data[start - 1]) <= rank(data[end])
    ensures start < m < end ==> rank(data[end - 1]) < rank(data[start])
  {
    var n := mid + m;
    if m > mid {
      start := MirrorSearch(data, rank, n - b, mid, n - 1);
    } else {
      start := MirrorSearch(data, rank, a, m, n - 1);
    }
    end := n - start;
  }

  /** [lo, hi) is sorted in consecutive runs of w elements (the last may be shorter). */
  ghost predicate Runs<T>(s: seq<T>, rank: T -> int, w: int, lo: int, hi: int)
    requires 0 <= lo <= hi <= |s| && 0 < w
    decreases hi - lo
  {
    if hi - lo <= w then Sorted(s, rank, lo, hi)
    else Sorted(s, rank, lo, lo + w) && Runs(s, rank, w, lo + w, hi)
  }

  /** A sorted run appended after k full runs. */
  lemma {:induction false} RunsSnoc<T>(s: seq<T>, rank: T -> int, w: int, lo: int, hi: int, hi': int, k: nat)
    requires 0 <= lo <= hi <= hi' <= |s| && 0 < w && hi - lo == k * w && hi' - hi <= w
    requires Runs(s, rank, w, lo, hi) && Sorted(s, rank, hi, hi')
    ensures Runs(s, rank, w, lo, hi')
    decreases k
  {
    if k == 0 {
      assert hi == lo;
    } else {
      MulPred(k, w);
      if k > 1 {
        RunsSnoc(s, rank, w, lo + w, hi, hi', k - 1);
      }
    }
  }

  /** k runs of w elements are one run more than k - 1 runs. */
  lemma MulPred(k: int, w: int)
    requires 1 <= k && 0 < w
    ensures k * w == (k - 1) * w + w && 0 <= (k - 1) * w
    ensures 2 <= k ==> w <= (k - 1) * w
  {
  }

  /** Runs depend only on the elements of [lo, hi). */
  lemma {:induction false} RunsFrame<T>(s: seq<T>, t: seq<T>, rank: T -> int, w: int, lo: int, hi: int)
    requires 0 <= lo <= hi <= |s| == |t| && 0 < w
    requires forall i :: lo <= i < hi ==> t[i] == s[i]
    requires Runs(s, rank, w, lo, hi)
    ensures Runs(t, rank, w, lo, hi)
    decreases hi - lo
  {
    if hi - lo > w {
      RunsFrame(s, t, rank, w, lo + w, hi);
    }
  }

  /**
   * One block of StableAsc's first phase: t sorts [a, b) of s stably, and
   * the runs of w elements now reach b.
   */
  lemma BlockSorted<T>(orig: seq<T>, s: seq<T>, t: seq<T>, rank: T -> int, w: int, a: int, b: int, k: nat)
    requires 0 <= a <= b <= |orig| && 0 < w && a == k * w && b - a <= w
    requires Perm(s, orig, 0, |orig|) && Stable(s, orig, rank, 0, |orig|) && Runs(s, rank, w, 0, a)
    requires Perm(t, s, a, b) && Stable(t, s, rank, a, b) && Sorted(t, rank, a, b)
    ensures Perm(t, orig, 0, |orig|) && Stable(t, orig, rank, 0, |orig|) && Runs(t, rank, w, 0, b)
  {
    StableWiden(t, s, rank, a, b, 0, |orig|);
    StableTrans(t, s, orig, rank, 0, |orig|);
    RunsFrame(s, t, rank, w, 0, a);
    RunsSnoc(t, rank, w, 0, a, b, k);
  }

  /** The next two runs of w elements, as symMergeAsc expects them. */
  lemma RunsPair<T>(s: seq<T>, rank: T -> int, w: int, a: int, n: int)
    requires 0 <= a <= n <= |s| && 0 < w && Runs(s, rank, w, a, n)
    ensures a + 2 * w <= n ==> Sorted(s, rank, a, a + w) && Sorted(s, rank, a + w, a + 2 * w) && Runs(s, rank, w, a + 2 * w, n)
    ensures n < a + 2 * w ==> Sorted(s, rank, a, Clamp(a, a + w, n)) && Sorted(s, rank, Clamp(a, a + w, n), n)
  {
    if n - a > w {
      assert Runs(s, rank, w, a + w, n);
      if n - (a + w) > w {
        assert Runs(s, rank, w, a + 2 * w, n);
      }
    }
  }

  /**
   * One merge of StableAsc's second phase: t merges [a, b) of s stably, and
   * the runs of 2w elements now reach b.
   */
  lemma PairMerged<T>(orig: seq<T>, s: seq<T>, t: seq<T>, rank: T -> int, w: int, a: int, b: int, k: nat)
    requires 0 <= a <= b <= |orig| && 0 < w && a == k * (2 * w) && b - a <= 2 * w
    requires Perm(s, orig, 0, |orig|) && Stable(s, orig, rank, 0, |orig|)
    requires Runs(s, rank, 2 * w, 0, a) && Runs(s, rank, w, b, |orig|)
    requires Perm(t, s, a, b) && Stable(t, s, rank, a, b) && Sorted(t, rank, a, b)
    ensures Perm(t, orig, 0, |orig|) && Stable(t, orig, rank, 0, |orig|)
    ensures Runs(t, rank, 2 * w, 0, b) && Runs(t, rank, w, b, |orig|)
  {
    StableWiden(t, s, rank, a, b, 0, |orig|);
    StableTrans(t, s, orig, rank, 0, |orig|);
    RunsFrame(s, t, rank, 2 * w, 0, a);
    RunsSnoc(t, rank, 2 * w, 0, a, b, k);
    RunsFrame(s, t, rank, w, b, |orig|);
  }

  /**
   * StableAsc: insertion sort on blocks of 20 elements, then rounds of
   * symMergeAsc on neighbouring runs, doubling the run length each round.
   */
  method SortStable<T>(data: array<T>, rank: T -> int)
    modifies data
    ensures Perm(data[..], old(data[..]), 0, data.Length)
    ensures Stable(data[..], old(data[..]), rank, 0, data.Length)
    ensures Sorted(data[..], rank, 0, data.Length)
  {
    var n := data.Length;
    var blockSize := 20;
    SortBlocks(data, rank, blockSize);
    while blockSize < n
      invariant 0 < blockSize
      invariant Perm(data[..], old(data[..]), 0, n) && Stable(data[..], old(data[..]), rank, 0, n)
      invariant Runs(data[..], rank, blockSize, 0, n)
      decreases n - blockSize
    {
      MergeRuns(data, rank, blockSize, old(data[..]));
      blockSize := blockSize * 2;
    }
  }

  /** StableAsc's first phase: insertion sort on each block of w elements. */
  method SortBlocks<T>(data: array<T>, rank: T -> int, w: int)
    requires 0 < w
    modifies data
    ensures Perm(data[..], old(data[..]), 0, data.Length) && Stable(data[..], old(data[..]), rank, 0, data.Length)
    ensures Runs(data[..], rank, w, 0, data.Length)
  {
    var n := data.Length;
    var a, b := 0, w;
    ghost var k: nat := 0;
    StableRefl(data[..], rank, 0, n);
    while b <= n
      invariant 0 <= a <= n && b == a + w && a == k * w
      invariant Perm(data[..], old(data[..]), 0, n) && Stable(data[..], old(data[..]), rank, 0, n)
      invariant Runs(data[..], rank, w, 0, a)
    {
      ghost var s := data[..];
      InsertionSort(data, rank, a, b);
      BlockSorted(old(data[..]), s, data[..], rank, w, a, b, k);
      a, b, k := b, b + w, k + 1;
    }
    ghost var s := data[..];
    InsertionSort(data, rank, a, n);
    BlockSorted(old(data[..]), s, data[..], rank, w, a, n, k);
  }

  /** One round of StableAsc's second phase: merges each pair of neighbouring runs of w elements. */
  method MergeRuns<T>(data: array<T>, rank: T -> int, w: int, ghost orig: seq<T>)
    requires 0 < w && |orig| == data.Length
    requires Perm(data[..], orig, 0, |orig|) && Stable(data[..], orig, rank, 0, |orig|)
    requires Runs(data[..], rank, w, 0, data.Length)
    modifies data
    ensures Perm(data[..], orig, 0, |orig|) && Stable(data[..], orig, rank, 0, |orig|)
    ensures Runs(data[..], rank, 2 * w, 0, data.Length)
  {
    var n := data.Length;
    var a, b := 0, 2 * w;
    ghost var k: nat := 0;
    while b <= n
      invariant 0 <= a <= n && b == a + 2 * w && a == k * (2 * w)
      invariant Perm(data[..], orig, 0, n) && Stable(data[..], orig, rank, 0, n)
      invariant Runs(data[..], rank, 2 * w, 0, a) && Runs(data[..], rank, w, a, n)
    {
      MergePair(data, rank, w, a, b, k, orig);
      a, b, k := b, b + 2 * w, k + 1;
    }
    MergePair(data, rank, w, a, n, k, orig);
  }

  /** The symMergeAsc call of one pair of runs, [a, a + w) and [a + w, b). */
  method MergePair<T>(data: array<T>, rank: T -> int, w: int, a: int, b: int, ghost k: nat, ghost orig: seq<T>)
    requires 0 <= a <= b <= data.Length == |orig| && 0 < w && a == k * (2 * w)
    requires b == a + 2 * w || (b == data.Length && b < a + 2 * w)
    requires Perm(data[..], orig, 0, |orig|) && Stable(data[..], orig, rank, 0, |orig|)
    requires Runs(data[..], rank, 2 * w, 0, a) && Runs(data[..], rank, w, a, data.Length)
    modifies data
    ensures Perm(data[..], orig, 0, |orig|) && Stable(data[..], orig, rank, 0, |orig|)
    ensures Runs(data[..], rank, 2 * w, 0, b) && Runs(data[..], rank, w, b, data.Length)
  {
    ghost var s := data[..];
    RunsPair(s, rank, w, a, data.Length);
    SymMerge(data, rank, a, a + w, b);
    PairMerged(orig, s, data[..], rank, w, a, b, k);
  }
}
