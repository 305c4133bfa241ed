/**
 * The introspective sort the sort packages of the repository are generated
 * from (Limit56.go lines 41-184; Uint16Uint64.go lines 50-194 and its three
 * copies): quicksort with a Bentley-McIlroy three-way pivot, heap sort once
 * the recursion budget runs out, and insertion sort on short ranges.
 *
 * Each generated package compares elements with its own `less`; here the
 * order is given by a rank function, and `less(x, y)` is
 * `rank(x) < rank(y)`. Every method sorts the half-open range [lo, hi) of
 * the array in place.
 */
module Introsort {

  /** t equals s outside [lo, hi) and holds the same elements inside it. */
  ghost predicate Perm<T>(t: seq<T>, s: seq<T>, lo: int, hi: int)
  {
    0 <= lo <= hi <= |s| && |t| == |s| &&
    (forall k {:trigger t[k]} :: 0 <= k < |s| && !(lo <= k < hi) ==> t[k] == s[k]) &&
    multiset(t) == multiset(s)
  }

  /** Ranks do not decrease over [lo, hi). */
  ghost predicate Sorted<T>(s: seq<T>, rank: T -> int, lo: int, hi: int)
    requires 0 <= lo <= hi <= |s|
  {
    forall i, j :: lo <= i < j < hi ==> rank(s[i]) <= rank(s[j])
  }

  /** Every rank in [lo, hi) is at most x. */
  ghost predicate Below<T>(s: seq<T>, rank: T -> int, lo: int, hi: int, x: int)
    requires 0 <= lo <= hi <= |s|
  {
    forall i :: lo <= i < hi ==> rank(s[i]) <= x
  }

  /** Every rank in [lo, hi) is at least x. */
  ghost predicate Above<T>(s: seq<T>, rank: T -> int, lo: int, hi: int, x: int)
    requires 0 <= lo <= hi <= |s|
  {
    forall i :: lo <= i < hi ==> x <= rank(s[i])
  }

  lemma PermRefl<T>(s: seq<T>, lo: int, hi: int)
    requires 0 <= lo <= hi <= |s|
    ensures Perm(s, s, lo, hi)
  {
  }

  lemma PermTrans<T>(u: seq<T>, t: seq<T>, s: seq<T>, lo: int, hi: int)
    requires Perm(u, t, lo, hi) && Perm(t, s, lo, hi)
    ensures Perm(u, s, lo, hi)
  {
  }

  /** A permutation of a sub-range is a permutation of any range around it. */
  lemma PermWiden<T>(t: seq<T>, s: seq<T>, lo: int, hi: int, lo': int, hi': int)
    requires Perm(t, s, lo, hi)
    requires 0 <= lo' <= lo && hi <= hi' <= |s|
    ensures Perm(t, s, lo', hi')
  {
  }

  /** The range itself holds the same elements before and after. */
  lemma PermSlice<T>(t: seq<T>, s: seq<T>, lo: int, hi: int)
    requires Perm(t, s, lo, hi)
    ensures multiset(t[lo..hi]) == multiset(s[lo..hi])
  {
    ThreePieces(t, lo, hi);
    ThreePieces(s, lo, hi);
    PermOutside(t, s, lo, hi);
    MultisetCancel(multiset(t[..lo]), multiset(t[lo..hi]), multiset(s[lo..hi]), multiset(t[hi..]));
  }

  /** A sequence is its prefix, middle and suffix, and so is its multiset. */
  lemma ThreePieces<T>(s: seq<T>, lo: int, hi: int)
    requires 0 <= lo <= hi <= |s|
    ensures s == s[..lo] + s[lo..hi] + s[hi..]
    ensures multiset(s) == multiset(s[..lo]) + multiset(s[lo..hi]) + multiset(s[hi..])
  {
    assert s == s[..lo] + s[lo..hi] + s[hi..];
  }

  /** A permutation of [lo, hi) leaves the prefix and the suffix alone. */
  lemma PermOutside<T>(t: seq<T>, s: seq<T>, lo: int, hi: int)
    requires Perm(t, s, lo, hi)
    ensures t[..lo] == s[..lo] && t[hi..] == s[hi..]
  {
    assert forall k | 0 <= k < lo :: t[..lo][k] == s[..lo][k];
    assert forall k | 0 <= k < |s| - hi :: t[hi..][k] == s[hi..][k];
  }

  /** Multiset union cancels. */
  lemma MultisetCancel<T>(a: multiset<T>, x: multiset<T>, y: multiset<T>, b: multiset<T>)
    requires a + x + b == a + y + b
    ensures x == y
  {
    forall e
      ensures x[e] == y[e]
    {
      assert (a + x + b)[e] == (a + y + b)[e];
    }
  }

  /** Every element of t[lo..hi) occurs in s[lo..hi). */
  lemma PermElement<T>(t: seq<T>, s: seq<T>, lo: int, hi: int, i: int)
    requires Perm(t, s, lo, hi) && lo <= i < hi
    ensures exists k :: lo <= k < hi && s[k] == t[i]
  {
    PermSlice(t, s, lo, hi);
    assert t[i] == t[lo..hi][i - lo];
    assert t[i] in multiset(s[lo..hi]);
    var k :| 0 <= k < hi - lo && s[lo..hi][k] == t[i];
    assert s[lo + k] == t[i];
  }

  /** Bounds on the ranks of a range survive a permutation of that range. */
  lemma PermBelow<T>(t: seq<T>, s: seq<T>, rank: T -> int, lo: int, hi: int, x: int)
    requires Perm(t, s, lo, hi) && Below(s, rank, lo, hi, x)
    ensures Below(t, rank, lo, hi, x)
  {
    forall i | lo <= i < hi
      ensures rank(t[i]) <= x
    {
      PermElement(t, s, lo, hi, i);
    }
  }

  lemma PermAbove<T>(t: seq<T>, s: seq<T>, rank: T -> int, lo: int, hi: int, x: int)
    requires Perm(t, s, lo, hi) && Above(s, rank, lo, hi, x)
    ensures Above(t, rank, lo, hi, x)
  {
    forall i | lo <= i < hi
      ensures x <= rank(t[i])
    {
      PermElement(t, s, lo, hi, i);
    }
  }

  /**
   * Swaps two elements of [lo, hi); the array stays a permutation of `orig`
   * over [lo, hi).
   */
  method Swap<T>(data: array<T>, i: int, j: int, ghost lo: int, ghost hi: int, ghost orig: seq<T>)
    requires 0 <= lo <= i < hi <= data.Length && lo <= j < hi
    requires Perm(data[..], orig, lo, hi)
    modifies data
    ensures Swapped(data[..], old(data[..]), i, j)
    ensures Perm(data[..], orig, lo, hi)
  {
    ghost var s := data[..];
    data[i], data[j] := data[j], data[i];
    assert data[lo..hi] == s[lo..hi][i - lo := s[j]][j - lo := s[i]];
  }

  /** t is s with the elements at i and j exchanged. */
  ghost predicate Swapped<T>(t: seq<T>, s: seq<T>, i: int, j: int)
  {
    |t| == |s| && 0 <= i < |s| && 0 <= j < |s| &&
    t[i] == s[j] && t[j] == s[i] &&
    forall k :: 0 <= k < |s| && k != i && k != j ==> t[k] == s[k]
  }

  /**
   * insertionSortAsc: grows a sorted prefix of [a, b) one element at a time,
   * moving the new element left past every element that ranks above it.
   */
  method InsertionSort<T>(data: array<T>, rank: T -> int, a: int, b: int)
    requires 0 <= a <= b <= data.Length
    modifies data
    ensures Perm(data[..], old(data[..]), a, b)
    ensures Stable(data[..], old(data[..]), rank, a, b)
    ensures Sorted(data[..], rank, a, b)
  {
    if a == b {
      StableRefl(data[..], rank, a, b);
      return;
    }
    var i := a + 1;
    StableRefl(data[..], rank, a, b);
    while i < b
      invariant a + 1 <= i <= b
      invariant Perm(data[..], old(data[..]), a, b)
      invariant Stable(data[..], old(data[..]), rank, a, b)
      invariant Sorted(data[..], rank, a, i)
    {
      InsertOne(data, rank, a, i, b, old(data[..]));
      i := i + 1;
    }
  }

  /**
   * One round of insertionSortAsc's outer loop: [a, i) is sorted, and
   * data[i] moves left past every element of it that ranks above it.
   */
  method InsertOne<T>(data: array<T>, rank: T -> int, a: int, i: int, b: int, ghost orig: seq<T>)
    requires 0 <= a <= i < b <= data.Length
    requires Perm(data[..], orig, a, b) && Stable(data[..], orig, rank, a, b)
    requires Sorted(data[..], rank, a, i)
    modifies data
    ensures Perm(data[..], orig, a, b) && Stable(data[..], orig, rank, a, b)
    ensures Sorted(data[..], rank, a, i + 1)
  {
    var j := i;
    while j > a && rank(data[j]) < rank(data[j - 1])
      invariant a <= j <= i
      invariant Perm(data[..], orig, a, b)
      invariant Stable(data[..], orig, rank, a, b)
      invariant forall k, l :: a <= k < l <= i && l != j ==> rank(data[k]) <= rank(data[l])
    {
      ghost var s := data[..];
      Swap(data, j, j - 1, a, b, orig);
      StableSwapNeighbours(s, data[..], orig, rank, a, b, j);
      j := j - 1;
    }
  }

  /** Heap parent of relative position c. */
  function Parent(c: int): int
  {
    (c - 1) / 2
  }

  /**
   * Relative position c (c >= 1) of the block starting at `first` ranks no
   * higher than its parent.
   */
  ghost predicate HeapPair<T>(s: seq<T>, rank: T -> int, first: int, c: int)
    requires 0 <= first && 1 <= c && first + c < |s|
  {
    rank(s[first + c]) <= rank(s[first + Parent(c)])
  }

  /**
   * The heap property over the relative positions [0, hi) of the block that
   * starts at `first`: each parent whose position is at least lo and is not
   * `skip` ranks at least as high as its children.
   */
  ghost predicate Heap<T>(s: seq<T>, rank: T -> int, first: int, lo: int, hi: int, skip: int)
    requires 0 <= first && first + hi <= |s|
  {
    forall c {:trigger HeapPair(s, rank, first, c)} :: 1 <= c < hi && lo <= Parent(c) && Parent(c) != skip ==> HeapPair(s, rank, first, c)
  }

  /** The root of a heap ranks at least as high as every element of it. */
  lemma {:induction false} HeapRoot<T>(s: seq<T>, rank: T -> int, first: int, hi: int, k: int)
    requires 0 <= first && first + hi <= |s| && Heap(s, rank, first, 0, hi, -1)
    requires 0 <= k < hi
    ensures rank(s[first + k]) <= rank(s[first])
    decreases k
  {
    if k > 0 {
      assert HeapPair(s, rank, first, k);
      HeapRoot(s, rank, first, hi, Parent(k));
    }
  }

  /**
   * The state of siftDown with the moving element at relative position root:
   * the heap property holds from lo except below root, and root's children
   * rank no higher than root's parent.
   */
  ghost predicate Sifting<T>(s: seq<T>, rank: T -> int, first: int, lo: int, hi: int, root: int)
    requires 0 <= lo && 0 <= first && first + hi <= |s|
  {
    lo <= root && (root < hi || root == lo) &&
    Heap(s, rank, first, lo, hi, root) &&
    (lo < root < hi ==>
      (2 * root + 1 < hi ==> rank(s[first + 2 * root + 1]) <= rank(s[first + Parent(root)])) &&
      (2 * root + 2 < hi ==> rank(s[first + 2 * root + 2]) <= rank(s[first + Parent(root)])))
  }

  /** child is root's highest-ranked child in [0, hi) and outranks root. */
  ghost predicate Outranked<T>(s: seq<T>, rank: T -> int, first: int, hi: int, root: int, child: int)
    requires 0 <= root && 0 <= first && first + hi <= |s|
  {
    (child == 2 * root + 1 || child == 2 * root + 2) && child < hi &&
    (child == 2 * root + 2 ==> rank(s[first + child - 1]) <= rank(s[first + child])) &&
    (child == 2 * root + 1 && child + 1 < hi ==> rank(s[first + child + 1]) <= rank(s[first + child])) &&
    rank(s[first + root]) < rank(s[first + child])
  }

  /** One step of siftDown: swapping root with its larger child moves it down. */
  lemma SiftStep<T>(s: seq<T>, t: seq<T>, rank: T -> int, first: int, lo: int, hi: int, root: int, child: int)
    requires 0 <= lo && 0 <= first && first + hi <= |s|
    requires Sifting(s, rank, first, lo, hi, root) && Outranked(s, rank, first, hi, root, child)
    requires Swapped(t, s, first + root, first + child)
    ensures Sifting(t, rank, first, lo, hi, child)
  {
    forall c | 1 <= c < hi && lo <= Parent(c) && Parent(c) != child
      ensures HeapPair(t, rank, first, c)
    {
      SiftStepPair(s, t, rank, first, lo, hi, root, child, c);
    }
    SiftStepCovers(s, t, rank, first, lo, hi, root, child);
  }

  lemma SiftStepPair<T>(s: seq<T>, t: seq<T>, rank: T -> int, first: int, lo: int, hi: int, root: int, child: int, c: int)
    requires 0 <= lo && 0 <= first && first + hi <= |s|
    requires Sifting(s, rank, first, lo, hi, root) && Outranked(s, rank, first, hi, root, child)
    requires Swapped(t, s, first + root, first + child)
    requires 1 <= c < hi && lo <= Parent(c) && Parent(c) != child
    ensures HeapPair(t, rank, first, c)
  {
    if Parent(c) == root {
      assert c == 2 * root + 1 || c == 2 * root + 2;
    } else if c == root {
      assert root > lo;
    } else {
      assert HeapPair(s, rank, first, c);
    }
  }

  lemma SiftStepCovers<T>(s: seq<T>, t: seq<T>, rank: T -> int, first: int, lo: int, hi: int, root: int, child: int)
    requires 0 <= lo <= root && 0 <= first && first + hi <= |s|
    requires child == 2 * root + 1 || child == 2 * root + 2
    requires child < hi
    requires Heap(s, rank, first, lo, hi, root)
    requires Swapped(t, s, first + root, first + child)
    ensures lo < child < hi ==>
      (2 * child + 1 < hi ==> rank(t[first + 2 * child + 1]) <= rank(t[first + Parent(child)])) &&
      (2 * child + 2 < hi ==> rank(t[first + 2 * child + 2]) <= rank(t[first + Parent(child)]))
  {
    assert Parent(child) == root;
    var g1, g2 := 2 * child + 1, 2 * child + 2;
    assert Parent(g1) == child && Parent(g2) == child;
    if g1 < hi {
      assert HeapPair(s, rank, first, g1);
    }
    if g2 < hi {
      assert HeapPair(s, rank, first, g2);
    }
  }

  /**
   * Once root ranks at least as high as each of its children in [0, hi), the
   * heap property holds everywhere from lo.
   */
  lemma SiftSettled<T>(s: seq<T>, rank: T -> int, first: int, lo: int, hi: int, root: int)
    requires 0 <= lo && 0 <= first && first + hi <= |s|
    requires Sifting(s, rank, first, lo, hi, root)
    requires 2 * root + 1 < hi ==> rank(s[first + 2 * root + 1]) <= rank(s[first + root])
    requires 2 * root + 2 < hi ==> rank(s[first + 2 * root + 2]) <= rank(s[first + root])
    ensures Heap(s, rank, first, lo, hi, -1)
  {
    forall c | 1 <= c < hi && lo <= Parent(c) && Parent(c) != -1
      ensures HeapPair(s, rank, first, c)
    {
      if Parent(c) == root {
        assert c == 2 * root + 1 || c == 2 * root + 2;
      }
    }
  }

  /**
   * siftDownAsc: moves the element at relative position lo down the heap
   * [lo, hi), swapping it with its higher-ranked child until neither child
   * outranks it.
   */
  method SiftDown<T>(data: array<T>, rank: T -> int, lo: int, hi: int, first: int)
    requires 0 <= lo <= hi && 0 <= first && first + hi <= data.Length
    requires Heap(data[..], rank, first, lo, hi, lo)
    modifies data
    ensures Perm(data[..], old(data[..]), first + lo, first + hi)
    ensures Heap(data[..], rank, first, lo, hi, -1)
  {
    ghost var orig := data[..];
    var root := lo;
    while true
      invariant Perm(data[..], orig, first + lo, first + hi)
      invariant Sifting(data[..], rank, first, lo, hi, root)
      decreases hi - root
    {
      var child := 2 * root + 1;
      if child >= hi {
        SiftSettled(data[..], rank, first, lo, hi, root);
        break;
      }
      if child + 1 < hi && rank(data[first + child]) < rank(data[first + child + 1]) {
        child := child + 1;
      }
      if !(rank(data[first + root]) < rank(data[first + child])) {
        SiftSettled(data[..], rank, first, lo, hi, root);
        return;
      }
      ghost var s := data[..];
      Swap(data, first + root, first + child, first + lo, first + hi, orig);
      SiftStep(s, data[..], rank, first, lo, hi, root, child);
      root := child;
    }
  }

  /** heapSortAsc: heap sort of [a, b). */
  method HeapSort<T>(data: array<T>, rank: T -> int, a: int, b: int)
    requires 0 <= a <= b <= data.Length
    modifies data
    ensures Perm(data[..], old(data[..]), a, b)
    ensures Sorted(data[..], rank, a, b)
  {
    var first := a;
    var hi := b - a;
    assert first + hi == b;
    Heapify(data, rank, first, hi);
    ghost var h := data[..];
    SortHeap(data, rank, first, hi);
    PermTrans(data[..], h, old(data[..]), a, b);
  }

  /** heapSortAsc's first loop: builds a heap on [0, hi) (relative to first), from the last parent down. */
  method Heapify<T>(data: array<T>, rank: T -> int, first: int, hi: int)
    requires 0 <= first && 0 <= hi && first + hi <= data.Length
    modifies data
    ensures Perm(data[..], old(data[..]), first, first + hi)
    ensures Heap(data[..], rank, first, 0, hi, -1)
  {
    PermRefl(data[..], first, first + hi);
    // Go's division truncates toward zero: (0 - 1) / 2 is 0 there
    var i := if hi == 0 then 0 else (hi - 1) / 2;
    while i >= 0
      invariant -1 <= i < hi || (hi == 0 && i == 0)
      invariant Perm(data[..], old(data[..]), first, first + hi)
      invariant Heap(data[..], rank, first, i + 1, hi, -1)
    {
      ghost var s := data[..];
      HeapSkip(s, rank, first, i, hi);
      SiftDown(data, rank, i, hi, first);
      PermWiden(data[..], s, first + i, first + hi, first, first + hi);
      PermTrans(data[..], s, old(data[..]), first, first + hi);
      i := i - 1;
    }
  }

  /** A heap on the parents from i + 1 on is one on the parents from i on, except i. */
  lemma HeapSkip<T>(s: seq<T>, rank: T -> int, first: int, i: int, hi: int)
    requires 0 <= first && first + hi <= |s| && Heap(s, rank, first, i + 1, hi, -1)
    ensures Heap(s, rank, first, i, hi, i)
  {
  }

  /**
   * heapSortAsc's second loop: moves the root of the heap [0, i] to i and
   * sifts the new root down, for i from hi - 1 down to 0 (siftDown's lo is
   * always 0 here).
   */
  method SortHeap<T>(data: array<T>, rank: T -> int, first: int, hi: int)
    requires 0 <= first && 0 <= hi && first + hi <= data.Length
    requires Heap(data[..], rank, first, 0, hi, -1)
    modifies data
    ensures Perm(data[..], old(data[..]), first, first + hi)
    ensures Sorted(data[..], rank, first, first + hi)
  {
    PermRefl(data[..], first, first + hi);
    var i := hi - 1;
    while i >= 0
      invariant -1 <= i < hi
      invariant Perm(data[..], old(data[..]), first, first + hi)
      invariant HeapSortInv(data[..], rank, first, i + 1, hi)
    {
      ghost var s := data[..];
      HeapSortStep(data, rank, first, i, hi);
      PermTrans(data[..], s, old(data[..]), first, first + hi);
      i := i - 1;
    }
    HeapSortDone(data[..], rank, first, hi);
  }

  /** One round of heapSortAsc's second loop. */
  method HeapSortStep<T>(data: array<T>, rank: T -> int, first: int, i: int, hi: int)
    requires 0 <= first && 0 <= i < hi && first + hi <= data.Length
    requires HeapSortInv(data[..], rank, first, i + 1, hi)
    modifies data
    ensures Perm(data[..], old(data[..]), first, first + hi)
    ensures HeapSortInv(data[..], rank, first, i, hi)
  {
    ghost var s0 := data[..];
    PermRefl(s0, first, first + hi);
    Swap(data, first, first + i, first, first + hi, s0);
    ghost var s1 := data[..];
    HeapSortSwapRoot(s0, s1, rank, first, i, hi);
    SiftDown(data, rank, 0, i, first);
    HeapSortSifted(s1, data[..], rank, first, 0, i, hi);
    PermWiden(data[..], s1, first + 0, first + i, first, first + hi);
    PermTrans(data[..], s1, s0, first, first + hi);
  }

  /** Once the heap is empty the whole range is sorted. */
  lemma HeapSortDone<T>(s: seq<T>, rank: T -> int, first: int, hi: int)
    requires 0 <= first && 0 <= hi && first + hi <= |s|
    requires HeapSortInv(s, rank, first, 0, hi)
    ensures Sorted(s, rank, first, first + hi)
  {
  }

  /**
   * Heap sort's second phase: [0, n) is a heap, [n, hi) is sorted and holds
   * the hi - n highest-ranked elements.
   */
  ghost predicate HeapSortInv<T>(s: seq<T>, rank: T -> int, first: int, n: int, hi: int)
    requires 0 <= first && 0 <= n <= hi && first + hi <= |s|
  {
    Heap(s, rank, first, 0, n, -1) &&
    Sorted(s, rank, first + n, first + hi) &&
    (n < hi ==> Below(s, rank, first, first + n, rank(s[first + n])))
  }

  /** Moving the root of the heap [0, i] to position i extends the sorted tail. */
  lemma HeapSortSwapRoot<T>(s0: seq<T>, s1: seq<T>, rank: T -> int, first: int, i: int, hi: int)
    requires 0 <= first && 0 <= i < hi && first + hi <= |s0|
    requires HeapSortInv(s0, rank, first, i + 1, hi)
    requires Swapped(s1, s0, first, first + i)
    ensures Heap(s1, rank, first, 0, i, 0)
    ensures Sorted(s1, rank, first + i, first + hi)
    ensures Below(s1, rank, first, first + i, rank(s1[first + i]))
  {
    HeapTop(s0, rank, first, i + 1);
    forall c | 1 <= c < i && 0 <= Parent(c) && Parent(c) != 0
      ensures HeapPair(s1, rank, first, c)
    {
      assert HeapPair(s0, rank, first, c);
    }
  }

  /** Sifting the new root down restores the invariant one position lower. */
  lemma HeapSortSifted<T>(s1: seq<T>, s2: seq<T>, rank: T -> int, first: int, lo: int, i: int, hi: int)
    requires 0 <= first && lo == 0 && 0 <= i < hi && first + hi <= |s1|
    requires Sorted(s1, rank, first + i, first + hi)
    requires Below(s1, rank, first, first + i, rank(s1[first + i]))
    requires Perm(s2, s1, first + lo, first + i) && Heap(s2, rank, first, lo, i, -1)
    ensures HeapSortInv(s2, rank, first, i, hi)
  {
    PermBelow(s2, s1, rank, first, first + i, rank(s1[first + i]));
  }

  /** The root of a heap bounds all of it. */
  lemma HeapTop<T>(s: seq<T>, rank: T -> int, first: int, hi: int)
    requires 0 <= first && first + hi <= |s| && hi >= 1 && Heap(s, rank, first, 0, hi, -1)
    ensures Below(s, rank, first, first + hi, rank(s[first]))
  {
    forall k | first <= k < first + hi
      ensures rank(s[k]) <= rank(s[first])
    {
      HeapRoot(s, rank, first, hi, k - first);
    }
  }

  /** Every rank in [lo, hi) is below x. */
  ghost predicate AllLess<T>(s: seq<T>, rank: T -> int, lo: int, hi: int, x: int)
    requires 0 <= lo <= hi <= |s|
  {
    forall i :: lo <= i < hi ==> rank(s[i]) < x
  }

  /** Every rank in [lo, hi) is x. */
  ghost predicate AllEqual<T>(s: seq<T>, rank: T -> int, lo: int, hi: int, x: int)
    requires 0 <= lo <= hi <= |s|
  {
    forall i :: lo <= i < hi ==> rank(s[i]) == x
  }

  /** Every rank in [lo, hi) is above x. */
  ghost predicate AllGreater<T>(s: seq<T>, rank: T -> int, lo: int, hi: int, x: int)
    requires 0 <= lo <= hi <= |s|
  {
    forall i :: lo <= i < hi ==> x < rank(s[i])
  }

  /** [lo, hi) is split three ways around the pivot rank x. */
  ghost predicate ThreeWay<T>(s: seq<T>, rank: T -> int, lo: int, midlo: int, midhi: int, hi: int, x: int)
    requires 0 <= lo <= midlo <= midhi <= hi <= |s|
  {
    AllLess(s, rank, lo, midlo, x) && AllEqual(s, rank, midlo, midhi, x) && AllGreater(s, rank, midhi, hi, x)
  }

  /** No element of [lo, mid) outranks an element of [mid, hi). */
  ghost predicate Split<T>(s: seq<T>, rank: T -> int, lo: int, mid: int, hi: int)
    requires 0 <= lo <= mid <= hi <= |s|
  {
    forall i, j :: lo <= i < mid <= j < hi ==> rank(s[i]) <= rank(s[j])
  }

  /** t is s with the blocks [x, x + n) and [y, y + n) exchanged. */
  ghost predicate BlocksSwapped<T>(t: seq<T>, s: seq<T>, x: int, y: int, n: int)
  {
    |t| == |s| && 0 <= x && 0 <= n && x + n <= y && y + n <= |s| &&
    (forall i :: x <= i < x + n ==> t[i] == s[i - x + y]) &&
    (forall i :: y <= i < y + n ==> t[i] == s[i - y + x]) &&
    (forall i {:trigger t[i]} :: 0 <= i < |s| && !(x <= i < x + n) && !(y <= i < y + n) ==> t[i] == s[i])
  }

  function Min(x: int, y: int): (r: int)
    ensures r <= x && r <= y && (r == x || r == y)
  {
    if x < y then x else y
  }

  /**
   * medianOfThree: bubble sort on three positions, so that the element at a
   * ends up between the elements at b and c.
   */
  method MedianOfThree<T>(data: array<T>, rank: T -> int, a: int, b: int, c: int, ghost lo: int, ghost hi: int, ghost orig: seq<T>)
    requires lo <= a < hi && lo <= b < hi && lo <= c < hi
    requires Perm(data[..], orig, lo, hi)
    modifies data
    ensures Perm(data[..], orig, lo, hi)
    ensures forall k :: 0 <= k < data.Length && k != a && k != b && k != c ==> data[k] == old(data[k])
    ensures a != b && b != c && a != c ==> rank(data[b]) <= rank(data[a]) <= rank(data[c])
  {
    if rank(data[a]) < rank(data[b]) {
      Swap(data, a, b, lo, hi, orig);
    }
    if rank(data[c]) < rank(data[a]) {
      Swap(data, c, a, lo, hi, orig);
    }
    if rank(data[a]) < rank(data[b]) {
      Swap(data, a, b, lo, hi, orig);
    }
  }

  /** s with the elements at i and j exchanged. */
  ghost function Exchange<T>(s: seq<T>, i: int, j: int): seq<T>
    requires 0 <= i < |s| && 0 <= j < |s|
  {
    seq(|s|, k requires 0 <= k < |s| => if k == j then s[i] else if k == i then s[j] else s[k])
  }

  /** Exchange is the two updates of a swap. */
  lemma ExchangeUpdate<T>(s: seq<T>, i: int, j: int)
    requires 0 <= i < |s| && 0 <= j < |s|
    ensures Exchange(s, i, j) == s[i := s[j]][j := s[i]]
  {
  }

  /**
   * The first n element pairs of the blocks from x and from y exchanged,
   * one pair at a time, as swapRange does.
   */
  ghost function SwapBlocks<T>(s: seq<T>, x: int, y: int, n: int): (t: seq<T>)
    requires 0 <= x && 0 <= n && x + n <= y && y + n <= |s|
    ensures |t| == |s|
    decreases n
  {
    if n == 0 then s else Exchange(SwapBlocks(s, x, y, n - 1), x + n - 1, y + n - 1)
  }

  /** The pairwise exchanges move each block to the other's place. */
  lemma {:induction false} SwapBlocksSwapped<T>(s: seq<T>, x: int, y: int, n: int)
    requires 0 <= x && 0 <= n && x + n <= y && y + n <= |s|
    ensures BlocksSwapped(SwapBlocks(s, x, y, n), s, x, y, n)
    decreases n
  {
    if n > 0 {
      SwapBlocksSwapped(s, x, y, n - 1);
    }
  }

  /** swapRange: exchanges the n elements from a with the n elements from b (blocks that do not overlap). */
  method SwapRange<T>(data: array<T>, a: int, b: int, n: int)
    requires 0 <= a && 0 <= n && a + n <= b && b + n <= data.Length
    modifies data
    ensures data[..] == SwapBlocks(old(data[..]), a, b, n)
  {
    var i := 0;
    while i < n
      invariant 0 <= i <= n
      invariant data[..] == SwapBlocks(old(data[..]), a, b, i)
    {
      ExchangeUpdate(data[..], a + i, b + i);
      data[a + i], data[b + i] := data[b + i], data[a + i];
      i := i + 1;
    }
  }

  /** An exchange of two elements keeps the multiset. */
  lemma ExchangePerm<T>(s: seq<T>, i: int, j: int)
    requires 0 <= i < |s| && 0 <= j < |s|
    ensures multiset(Exchange(s, i, j)) == multiset(s)
  {
    ExchangeUpdate(s, i, j);
    var u := s[i := s[j]];
    assert multiset(u) == multiset(s) - multiset{s[i]} + multiset{s[j]};
  }

  /** A permutation of [lo, hi) followed by an exchange inside [lo, hi') permutes [lo, hi'). */
  lemma PermExchange<T>(t: seq<T>, s: seq<T>, i: int, j: int, lo: int, hi: int, hi': int)
    requires Perm(t, s, lo, hi) && hi <= hi' <= |s| && lo <= i < hi' && lo <= j < hi'
    ensures Perm(Exchange(t, i, j), s, lo, hi')
  {
    ExchangePerm(t, i, j);
  }

  /** Exchanging two blocks permutes the range that spans them. */
  lemma {:induction false} SwapBlocksPerm<T>(s: seq<T>, a: int, b: int, n: int)
    requires 0 <= a && 0 <= n && a + n <= b && b + n <= |s|
    ensures Perm(SwapBlocks(s, a, b, n), s, a, b + n)
    decreases n
  {
    if n > 0 {
      SwapBlocksPerm(s, a, b, n - 1);
      PermExchange(SwapBlocks(s, a, b, n - 1), s, a + n - 1, b + n - 1, a, b + (n - 1), b + n);
    }
  }

  /** The state of doPivot's main loop, with pivot rank x held at lo. */
  ghost predicate Partitioned<T>(s: seq<T>, rank: T -> int, lo: int, a: int, b: int, c: int, d: int, hi: int, x: int)
    requires 0 <= lo < a <= b <= c <= d <= hi <= |s|
  {
    AllEqual(s, rank, lo, a, x) && AllLess(s, rank, a, b, x) &&
    AllGreater(s, rank, c, d, x) && AllEqual(s, rank, d, hi, x)
  }

  /**
   * doPivot: Bentley-McIlroy three-way partition of [lo, hi) around the
   * median of (up to) nine elements; returns the bounds of the block of
   * elements ranked equal to the pivot.
   */
  method DoPivot<T>(data: array<T>, rank: T -> int, lo: int, hi: int) returns (midlo: int, midhi: int)
    requires 0 <= lo < hi <= data.Length
    modifies data
    ensures lo <= midlo < midhi <= hi
    ensures Perm(data[..], old(data[..]), lo, hi)
    ensures ThreeWay(data[..], rank, lo, midlo, midhi, hi, rank(data[midlo]))
  {
    ghost var orig := data[..];
    ChoosePivot(data, rank, lo, hi, orig);
    var a, b, c, d := Partition(data, rank, lo, hi, orig);
    midlo, midhi := GatherPivot(data, rank, lo, a, b, c, d, hi, orig);
  }

  /**
   * The first part of doPivot: brings the median of lo, the middle and
   * hi - 1 (each first replaced by the median of its neighbourhood when the
   * range holds more than 40 elements) to position lo.
   */
  method ChoosePivot<T>(data: array<T>, rank: T -> int, lo: int, hi: int, ghost orig: seq<T>)
    requires 0 <= lo < hi <= data.Length
    requires Perm(data[..], orig, lo, hi)
    modifies data
    ensures Perm(data[..], orig, lo, hi)
  {
    var m := lo + (hi - lo) / 2;
    if hi - lo > 40 {
      var s := (hi - lo) / 8;
      MedianOfThree(data, rank, lo, lo + s, lo + 2 * s, lo, hi, orig);
      MedianOfThree(data, rank, m, m - s, m + s, lo, hi, orig);
      MedianOfThree(data, rank, hi - 1, hi - 1 - s, hi - 1 - 2 * s, lo, hi, orig);
    }
    MedianOfThree(data, rank, lo, m, hi - 1, lo, hi, orig);
  }

  /**
   * The last part of doPivot: exchanges the pivot-equal blocks [lo, a) and
   * [d, hi) with the ends of the smaller and larger blocks.
   */
  method GatherPivot<T>(data: array<T>, rank: T -> int, lo: int, a: int, b: int, c: int, d: int, hi: int, ghost orig: seq<T>) returns (midlo: int, midhi: int)
    requires 0 <= lo < a <= b == c <= d <= hi <= data.Length
    requires Perm(data[..], orig, lo, hi)
    requires Partitioned(data[..], rank, lo, a, b, c, d, hi, rank(data[lo]))
    modifies data
    ensures lo <= midlo < midhi <= hi
    ensures Perm(data[..], orig, lo, hi)
    ensures ThreeWay(data[..], rank, lo, midlo, midhi, hi, rank(data[midlo]))
  {
    ghost var pv := rank(data[lo]);
    GatherLow(data, rank, lo, a, b, c, d, hi, pv, orig);
    midlo := lo + b - a;
    GatherHigh(data, rank, lo, midlo, c, d, hi, pv, orig);
    midhi := hi - (d - c);
  }

  /** The first swapRange of doPivot: moves [lo, a) next to [c, d). */
  method GatherLow<T>(data: array<T>, rank: T -> int, lo: int, a: int, b: int, c: int, d: int, hi: int, ghost x: int, ghost orig: seq<T>)
    requires 0 <= lo < a <= b == c <= d <= hi <= data.Length
    requires Perm(data[..], orig, lo, hi)
    requires Partitioned(data[..], rank, lo, a, b, c, d, hi, x)
    modifies data
    ensures Perm(data[..], orig, lo, hi)
    ensures ThreeWay(data[..], rank, lo, lo + b - a, c, d, x) && AllEqual(data[..], rank, d, hi, x)
  {
    var n := Min(b - a, a - lo);
    ghost var s := data[..];
    SwapRange(data, lo, b - n, n);
    GatheredLow(s, orig, rank, lo, a, b, c, d, hi, n, x);
  }

  /** The second swapRange of doPivot: moves [d, hi) next to [lo, midlo). */
  method GatherHigh<T>(data: array<T>, rank: T -> int, lo: int, midlo: int, c: int, d: int, hi: int, ghost x: int, ghost orig: seq<T>)
    requires 0 <= lo <= midlo <= c <= d <= hi <= data.Length
    requires Perm(data[..], orig, lo, hi)
    requires ThreeWay(data[..], rank, lo, midlo, c, d, x) && AllEqual(data[..], rank, d, hi, x)
    modifies data
    ensures Perm(data[..], orig, lo, hi)
    ensures ThreeWay(data[..], rank, lo, midlo, hi - (d - c), hi, x)
  {
    var n := Min(hi - d, d - c);
    ghost var s := data[..];
    SwapRange(data, c, hi - n, n);
    GatheredHigh(s, orig, rank, lo, midlo, c, d, hi, n, x);
  }

  /**
   * The main loop of doPivot, with the pivot at lo: grows [lo, a) (equal to
   * the pivot) and [a, b) (below it) from the left and [c, d) (above it) and
   * [d, hi) (equal to it) from the right until b meets c.
   */
  method Partition<T>(data: array<T>, rank: T -> int, lo: int, hi: int, ghost orig: seq<T>) returns (a: int, b: int, c: int, d: int)
    requires 0 <= lo < hi <= data.Length
    requires Perm(data[..], orig, lo, hi)
    modifies data
    ensures lo < a <= b == c <= d <= hi
    ensures Perm(data[..], orig, lo, hi)
    ensures Partitioned(data[..], rank, lo, a, b, c, d, hi, rank(data[lo]))
  {
    ghost var pv := rank(data[lo]);
    a, b, c, d := lo + 1, lo + 1, hi, hi;
    while true
      invariant lo < a <= b <= c <= d <= hi
      invariant Perm(data[..], orig, lo, hi)
      invariant Partitioned(data[..], rank, lo, a, b, c, d, hi, pv)
      decreases c - b
    {
      a, b := ScanLow(data, rank, lo, a, b, c, d, hi, pv, orig);
      c, d := ScanHigh(data, rank, lo, a, b, c, d, hi, pv, orig);
      if b >= c {
        break;
      }
      ghost var s := data[..];
      Swap(data, b, c - 1, lo, hi, orig);
      PartitionExchange(s, data[..], rank, lo, a, b, c, d, hi, pv);
      b, c := b + 1, c - 1;
    }
  }

  /**
   * The first inner loop of doPivot: advances b past smaller elements,
   * moving pivot-equal ones into [lo, a), and stops at a larger one.
   */
  method ScanLow<T>(data: array<T>, rank: T -> int, lo: int, a0: int, b0: int, c: int, d: int, hi: int, ghost pv: int, ghost orig: seq<T>) returns (a: int, b: int)
    requires 0 <= lo < a0 <= b0 <= c <= d <= hi <= data.Length
    requires Perm(data[..], orig, lo, hi)
    requires Partitioned(data[..], rank, lo, a0, b0, c, d, hi, pv)
    modifies data
    ensures a0 <= a <= b <= c && b0 <= b
    ensures Perm(data[..], orig, lo, hi)
    ensures Partitioned(data[..], rank, lo, a, b, c, d, hi, pv)
    ensures b < c ==> pv < rank(data[b])
  {
    a, b := a0, b0;
    while b < c
      invariant a0 <= a <= b <= c && b0 <= b
      invariant Perm(data[..], orig, lo, hi)
      invariant Partitioned(data[..], rank, lo, a, b, c, d, hi, pv)
    {
      if rank(data[b]) < rank(data[lo]) {
        b := b + 1;
      } else if !(rank(data[lo]) < rank(data[b])) {
        ghost var s := data[..];
        Swap(data, a, b, lo, hi, orig);
        PartitionEqualLow(s, data[..], rank, lo, a, b, c, d, hi, pv);
        a, b := a + 1, b + 1;
      } else {
        break;
      }
    }
  }

  /**
   * The second inner loop of doPivot: moves c down past larger elements,
   * moving pivot-equal ones into [d, hi), and stops at a smaller one.
   */
  method ScanHigh<T>(data: array<T>, rank: T -> int, lo: int, a: int, b: int, c0: int, d0: int, hi: int, ghost pv: int, ghost orig: seq<T>) returns (c: int, d: int)
    requires 0 <= lo < a <= b <= c0 <= d0 <= hi <= data.Length
    requires Perm(data[..], orig, lo, hi)
    requires Partitioned(data[..], rank, lo, a, b, c0, d0, hi, pv)
    requires b < c0 ==> pv < rank(data[b])
    modifies data
    ensures b <= c <= d <= d0 && c <= c0
    ensures Perm(data[..], orig, lo, hi)
    ensures Partitioned(data[..], rank, lo, a, b, c, d, hi, pv)
    ensures b < c ==> pv < rank(data[b]) && rank(data[c - 1]) < pv
  {
    c, d := c0, d0;
    while b < c
      invariant b <= c <= d <= d0 && c <= c0
      invariant Perm(data[..], orig, lo, hi)
      invariant Partitioned(data[..], rank, lo, a, b, c, d, hi, pv)
      invariant b < c ==> pv < rank(data[b])
    {
      if rank(data[lo]) < rank(data[c - 1]) {
        c := c - 1;
      } else if !(rank(data[c - 1]) < rank(data[lo])) {
        ghost var s := data[..];
        Swap(data, c - 1, d - 1, lo, hi, orig);
        PartitionEqualHigh(s, data[..], rank, lo, a, b, c, d, hi, pv);
        c, d := c - 1, d - 1;
      } else {
        break;
      }
    }
  }

  /** The state after doPivot's first swapRange. */
  lemma GatheredLow<T>(s: seq<T>, orig: seq<T>, rank: T -> int, lo: int, a: int, b: int, c: int, d: int, hi: int, n: int, x: int)
    requires 0 <= lo < a <= b == c <= d <= hi <= |s|
    requires Perm(s, orig, lo, hi) && Partitioned(s, rank, lo, a, b, c, d, hi, x)
    requires n == Min(b - a, a - lo)
    ensures Perm(SwapBlocks(s, lo, b - n, n), orig, lo, hi)
    ensures ThreeWay(SwapBlocks(s, lo, b - n, n), rank, lo, lo + b - a, c, d, x)
    ensures AllEqual(SwapBlocks(s, lo, b - n, n), rank, d, hi, x)
  {
    var t := SwapBlocks(s, lo, b - n, n);
    SwapBlocksSwapped(s, lo, b - n, n);
    SwapBlocksPerm(s, lo, b - n, n);
    PermWiden(t, s, lo, b, lo, hi);
    PermTrans(t, s, orig, lo, hi);
    PivotLow(s, t, rank, lo, a, b, c, d, hi, n, x);
  }

  /** The state after doPivot's second swapRange. */
  lemma GatheredHigh<T>(s: seq<T>, orig: seq<T>, rank: T -> int, lo: int, midlo: int, c: int, d: int, hi: int, n: int, x: int)
    requires 0 <= lo <= midlo <= c <= d <= hi <= |s|
    requires Perm(s, orig, lo, hi)
    requires ThreeWay(s, rank, lo, midlo, c, d, x) && AllEqual(s, rank, d, hi, x)
    requires n == Min(hi - d, d - c)
    ensures Perm(SwapBlocks(s, c, hi - n, n), orig, lo, hi)
    ensures ThreeWay(SwapBlocks(s, c, hi - n, n), rank, lo, midlo, hi - (d - c), hi, x)
  {
    var t := SwapBlocks(s, c, hi - n, n);
    SwapBlocksSwapped(s, c, hi - n, n);
    SwapBlocksPerm(s, c, hi - n, n);
    PermWiden(t, s, c, hi, lo, hi);
    PermTrans(t, s, orig, lo, hi);
    PivotHigh(s, t, rank, lo, midlo, c, d, hi, n, x);
  }

  /** Moving the pivot-equal block [lo, a) next to the block of larger elements. */
  lemma PivotLow<T>(s: seq<T>, t: seq<T>, rank: T -> int, lo: int, a: int, b: int, c: int, d: int, hi: int, n: int, x: int)
    requires 0 <= lo < a <= b == c <= d <= hi <= |s|
    requires Partitioned(s, rank, lo, a, b, c, d, hi, x)
    requires n == Min(b - a, a - lo)
    requires BlocksSwapped(t, s, lo, b - n, n)
    ensures ThreeWay(t, rank, lo, lo + b - a, c, d, x) && AllEqual(t, rank, d, hi, x)
  {
  }

  /** Moving the pivot-equal block [d, hi) next to the block of smaller elements. */
  lemma PivotHigh<T>(s: seq<T>, t: seq<T>, rank: T -> int, lo: int, midlo: int, c: int, d: int, hi: int, n: int, x: int)
    requires 0 <= lo <= midlo <= c <= d <= hi <= |s|
    requires ThreeWay(s, rank, lo, midlo, c, d, x) && AllEqual(s, rank, d, hi, x)
    requires n == Min(hi - d, d - c)
    requires BlocksSwapped(t, s, c, hi - n, n)
    ensures ThreeWay(t, rank, lo, midlo, hi - (d - c), hi, x)
  {
  }

  /** A pivot-equal element at b joins the block [lo, a). */
  lemma PartitionEqualLow<T>(s: seq<T>, t: seq<T>, rank: T -> int, lo: int, a: int, b: int, c: int, d: int, hi: int, x: int)
    requires 0 <= lo < a <= b < c <= d <= hi <= |s|
    requires Partitioned(s, rank, lo, a, b, c, d, hi, x) && rank(s[b]) == x
    requires Swapped(t, s, a, b)
    ensures Partitioned(t, rank, lo, a + 1, b + 1, c, d, hi, x)
  {
  }

  /** A pivot-equal element at c - 1 joins the block [d, hi). */
  lemma PartitionEqualHigh<T>(s: seq<T>, t: seq<T>, rank: T -> int, lo: int, a: int, b: int, c: int, d: int, hi: int, x: int)
    requires 0 <= lo < a <= b < c <= d <= hi <= |s|
    requires Partitioned(s, rank, lo, a, b, c, d, hi, x) && rank(s[c - 1]) == x
    requires x < rank(s[b])
    requires Swapped(t, s, c - 1, d - 1)
    ensures Partitioned(t, rank, lo, a, b, c - 1, d - 1, hi, x)
    ensures b < c - 1 ==> x < rank(t[b])
  {
  }

  /** Exchanging a misplaced larger element at b with a smaller one at c - 1. */
  lemma PartitionExchange<T>(s: seq<T>, t: seq<T>, rank: T -> int, lo: int, a: int, b: int, c: int, d: int, hi: int, x: int)
    requires 0 <= lo < a <= b < c <= d <= hi <= |s|
    requires Partitioned(s, rank, lo, a, b, c, d, hi, x)
    requires x < rank(s[b]) && rank(s[c - 1]) < x
    requires Swapped(t, s, b, c - 1)
    ensures b + 1 <= c - 1
    ensures Partitioned(t, rank, lo, a, b + 1, c - 1, d, hi, x)
  {
  }

  /**
   * quickSort's loop state over [A, B): [A, a) and [b, B) are sorted, and
   * nothing in front of a or b outranks anything behind it.
   */
  ghost predicate Progress<T>(s: seq<T>, rank: T -> int, A: int, a: int, b: int, B: int)
    requires 0 <= A <= a <= b <= B <= |s|
  {
    Sorted(s, rank, A, a) && Sorted(s, rank, b, B) &&
    Split(s, rank, A, a, B) && Split(s, rank, A, b, B)
  }

  /** Permuting elements on one side of a split keeps the split. */
  lemma SplitPerm<T>(t: seq<T>, u: seq<T>, rank: T -> int, A: int, m: int, B: int, lo: int, hi: int)
    requires 0 <= A <= m <= B <= |t|
    requires Split(t, rank, A, m, B) && Perm(u, t, lo, hi)
    requires A <= lo <= hi <= m || m <= lo <= hi <= B
    ensures Split(u, rank, A, m, B)
  {
    forall i, j | A <= i < m <= j < B
      ensures rank(u[i]) <= rank(u[j])
    {
      if lo <= i < hi {
        PermElement(u, t, lo, hi, i);
      } else if lo <= j < hi {
        PermElement(u, t, lo, hi, j);
      }
    }
  }

  /** Two sorted ranges, the first not outranking the second, form a sorted range. */
  lemma SortedJoin<T>(s: seq<T>, rank: T -> int, lo: int, m: int, hi: int)
    requires 0 <= lo <= m <= hi <= |s|
    requires Sorted(s, rank, lo, m) && Sorted(s, rank, m, hi) && Split(s, rank, lo, m, hi)
    ensures Sorted(s, rank, lo, hi)
  {
  }

  /** doPivot's permutation of [a, b) keeps the loop state. */
  lemma QuickSortPivoted<T>(s: seq<T>, t: seq<T>, rank: T -> int, A: int, a: int, b: int, B: int)
    requires 0 <= A <= a <= b <= B <= |s|
    requires Progress(s, rank, A, a, b, B) && Perm(t, s, a, b)
    ensures Progress(t, rank, A, a, b, B)
  {
    SplitPerm(s, t, rank, A, a, B, a, b);
    SplitPerm(s, t, rank, A, b, B, a, b);
  }

  /** With [a, b) split three ways, the split points move to the pivot block. */
  lemma QuickSortSplit<T>(s: seq<T>, rank: T -> int, A: int, a: int, mlo: int, mhi: int, b: int, B: int, x: int)
    requires 0 <= A <= a <= mlo <= mhi <= b <= B <= |s|
    requires Progress(s, rank, A, a, b, B) && ThreeWay(s, rank, a, mlo, mhi, b, x)
    ensures Split(s, rank, A, mlo, B) && Split(s, rank, A, mhi, B)
  {
  }

  /** Sorting the smaller block [a, mlo) lets the left end move to mhi. */
  lemma QuickSortLeft<T>(t: seq<T>, u: seq<T>, rank: T -> int, A: int, a: int, mlo: int, mhi: int, b: int, B: int, x: int)
    requires 0 <= A <= a <= mlo <= mhi <= b <= B <= |t|
    requires Progress(t, rank, A, a, b, B) && ThreeWay(t, rank, a, mlo, mhi, b, x)
    requires Perm(u, t, a, mlo) && Sorted(u, rank, a, mlo)
    ensures Progress(u, rank, A, mhi, b, B)
  {
    QuickSortSplit(t, rank, A, a, mlo, mhi, b, B, x);
    SplitPerm(t, u, rank, A, a, B, a, mlo);
    SplitPerm(t, u, rank, A, mlo, B, a, mlo);
    SplitPerm(t, u, rank, A, mhi, B, a, mlo);
    SplitPerm(t, u, rank, A, b, B, a, mlo);
    SortedJoin(u, rank, A, a, mlo);
    SortedJoin(u, rank, A, mlo, mhi);
  }

  /** Sorting the smaller block [mhi, b) lets the right end move to mlo. */
  lemma QuickSortRight<T>(t: seq<T>, u: seq<T>, rank: T -> int, A: int, a: int, mlo: int, mhi: int, b: int, B: int, x: int)
    requires 0 <= A <= a <= mlo <= mhi <= b <= B <= |t|
    requires Progress(t, rank, A, a, b, B) && ThreeWay(t, rank, a, mlo, mhi, b, x)
    requires Perm(u, t, mhi, b) && Sorted(u, rank, mhi, b)
    ensures Progress(u, rank, A, a, mlo, B)
  {
    QuickSortSplit(t, rank, A, a, mlo, mhi, b, B, x);
    SplitPerm(t, u, rank, A, a, B, mhi, b);
    SplitPerm(t, u, rank, A, mlo, B, mhi, b);
    SplitPerm(t, u, rank, A, mhi, B, mhi, b);
    SplitPerm(t, u, rank, A, b, B, mhi, b);
    SortedJoin(u, rank, mlo, mhi, b);
    SortedJoin(u, rank, mlo, b, B);
  }

  /** Once the middle range is sorted, so is the whole. */
  lemma QuickSortDone<T>(t: seq<T>, u: seq<T>, rank: T -> int, A: int, a: int, b: int, B: int)
    requires 0 <= A <= a <= b <= B <= |t|
    requires Progress(t, rank, A, a, b, B) && Perm(u, t, a, b) && Sorted(u, rank, a, b)
    ensures Sorted(u, rank, A, B)
  {
    SplitPerm(t, u, rank, A, a, B, a, b);
    SplitPerm(t, u, rank, A, b, B, a, b);
    SortedJoin(u, rank, A, a, b);
    SortedJoin(u, rank, A, b, B);
  }

  /**
   * quickSortAsc: pivots [a, b) while it holds more than 7 elements, sorts
   * the smaller side recursively and loops on the larger one; heap sort
   * takes over once maxDepth pivots have been spent, and insertion sort
   * finishes the short range that is left.
   */
  method QuickSort<T>(data: array<T>, rank: T -> int, a0: int, b0: int, maxDepth: int)
    requires 0 <= a0 <= b0 <= data.Length && 0 <= maxDepth
    modifies data
    ensures Perm(data[..], old(data[..]), a0, b0)
    ensures Sorted(data[..], rank, a0, b0)
    decreases maxDepth
  {
    ghost var orig := data[..];
    var a, b, depth := a0, b0, maxDepth;
    while b - a > 7
      invariant a0 <= a <= b <= b0 && 0 <= depth <= maxDepth
      invariant Perm(data[..], orig, a0, b0)
      invariant Progress(data[..], rank, a0, a, b, b0)
      decreases b - a
    {
      if depth == 0 {
        QuickSortFinish(data, rank, a0, a, b, b0, true, orig);
        return;
      }
      depth := depth - 1;
      ghost var s := data[..];
      var mlo, mhi := DoPivot(data, rank, a, b);
      QuickSortPivoted(s, data[..], rank, a0, a, b, b0);
      ghost var t := data[..];
      if mlo - a < b - mhi {
        QuickSort(data, rank, a, mlo, depth);
        QuickSortLeft(t, data[..], rank, a0, a, mlo, mhi, b, b0, rank(t[mlo]));
        a := mhi;
      } else {
        QuickSort(data, rank, mhi, b, depth);
        QuickSortRight(t, data[..], rank, a0, a, mlo, mhi, b, b0, rank(t[mlo]));
        b := mlo;
      }
    }
    QuickSortFinish(data, rank, a0, a, b, b0, false, orig);
  }

  /** Sorts the middle range [a, b) with heap sort or, when it holds more than one element, insertion sort. */
  method QuickSortFinish<T>(data: array<T>, rank: T -> int, A: int, a: int, b: int, B: int, heap: bool, ghost orig: seq<T>)
    requires 0 <= A <= a <= b <= B <= data.Length
    requires Perm(data[..], orig, A, B) && Progress(data[..], rank, A, a, b, B)
    modifies data
    ensures Perm(data[..], orig, A, B)
    ensures Sorted(data[..], rank, A, B)
  {
    ghost var t := data[..];
    if heap {
      HeapSort(data, rank, a, b);
    } else if b - a > 1 {
      InsertionSort(data, rank, a, b);
    }
    QuickSortDone(t, data[..], rank, A, a, b, B);
  }

  function Pow2(k: nat): (p: nat)
    ensures 1 <= p
  {
    if k == 0 then 1 else 2 * Pow2(k - 1)
  }

  /** The number of binary digits of n: 2^(r-1) <= n < 2^r for positive n. */
  function BitLen(n: nat): (r: nat)
    ensures n < Pow2(r)
    ensures n == 0 <==> r == 0
    ensures 0 < n ==> Pow2(r - 1) <= n
  {
    if n == 0 then 0 else 1 + BitLen(n / 2)
  }

  /** The recursion budget of Asc: twice the bit length of n. */
  method MaxDepth(n: int) returns (depth: int)
    requires 0 <= n
    ensures depth == 2 * BitLen(n)
  {
    depth := 0;
    var i := n;
    while i > 0
      invariant 0 <= i && depth + BitLen(i) == BitLen(n)
    {
      depth := depth + 1;
      i := i / 2;
    }
    depth := depth * 2;
  }

  /** Asc: sorts the whole array. */
  method Sort<T>(data: array<T>, rank: T -> int)
    modifies data
    ensures multiset(data[..]) == multiset(old(data[..]))
    ensures Sorted(data[..], rank, 0, data.Length)
  {
    var maxDepth := MaxDepth(data.Length);
    QuickSort(data, rank, 0, data.Length, maxDepth);
  }

  /** IsSortedAsc: scans from the end for an element ranked below its predecessor. */
  method IsSorted<T>(data: array<T>, rank: T -> int) returns (r: bool)
    ensures r <==> Sorted(data[..], rank, 0, data.Length)
  {
    var i := data.Length - 1;
    while i > 0
      invariant data.Length == 0 || (0 <= i < data.Length && Sorted(data[..], rank, i, data.Length))
    {
      if rank(data[i]) < rank(data[i - 1]) {
        return false;
      }
      i := i - 1;
    }
    return true;
  }

  /** The elements of s ranked v, in their order in s. */
  function Filter<T>(s: seq<T>, rank: T -> int, v: int): (f: seq<T>)
    ensures |f| <= |s|
    ensures forall x :: x in f ==> x in s && rank(x) == v
  {
    if s == [] then []
    else (if rank(s[0]) == v then [s[0]] else []) + Filter(s[1..], rank, v)
  }

  lemma {:induction false} FilterConcat<T>(s: seq<T>, t: seq<T>, rank: T -> int, v: int)
    ensures Filter(s + t, rank, v) == Filter(s, rank, v) + Filter(t, rank, v)
  {
    if s == [] {
      assert s + t == t;
    } else {
      assert (s + t)[0] == s[0];
      assert (s + t)[1..] == s[1..] + t;
      FilterConcat(s[1..], t, rank, v);
    }
  }

  /** Two elements of different rank can trade places without changing any Filter. */
  lemma FilterPair<T>(x: T, y: T, rank: T -> int, v: int)
    requires rank(x) != rank(y)
    ensures Filter([x, y], rank, v) == Filter([y, x], rank, v)
  {
    assert [x, y][1..] == [y] && [y, x][1..] == [x];
    assert [x][1..] == [] && [y][1..] == [];
  }

  /**
   * t equals s outside [lo, hi), and inside it the elements of each rank
   * keep their relative order: a stable rearrangement.
   */
  ghost predicate Stable<T>(t: seq<T>, s: seq<T>, rank: T -> int, lo: int, hi: int)
  {
    0 <= lo <= hi <= |s| && |t| == |s| &&
    (forall k {:trigger t[k]} :: 0 <= k < |s| && !(lo <= k < hi) ==> t[k] == s[k]) &&
    forall v :: Filter(t[lo..hi], rank, v) == Filter(s[lo..hi], rank, v)
  }

  lemma StableRefl<T>(s: seq<T>, rank: T -> int, lo: int, hi: int)
    requires 0 <= lo <= hi <= |s|
    ensures Stable(s, s, rank, lo, hi)
  {
  }

  lemma StableTrans<T>(u: seq<T>, t: seq<T>, s: seq<T>, rank: T -> int, lo: int, hi: int)
    requires Stable(u, t, rank, lo, hi) && Stable(t, s, rank, lo, hi)
    ensures Stable(u, s, rank, lo, hi)
  {
  }

  /** A stable rearrangement of a sub-range is one of any range around it. */
  lemma StableWiden<T>(t: seq<T>, s: seq<T>, rank: T -> int, lo: int, hi: int, lo': int, hi': int)
    requires Stable(t, s, rank, lo, hi)
    requires 0 <= lo' <= lo && hi <= hi' <= |s|
    ensures Stable(t, s, rank, lo', hi')
  {
    assert t[lo'..hi'] == t[lo'..lo] + t[lo..hi] + t[hi..hi'];
    assert s[lo'..hi'] == s[lo'..lo] + s[lo..hi] + s[hi..hi'];
    assert t[lo'..lo] == s[lo'..lo] && t[hi..hi'] == s[hi..hi'];
    forall v
      ensures Filter(t[lo'..hi'], rank, v) == Filter(s[lo'..hi'], rank, v)
    {
      FilterConcat(t[lo'..lo] + t[lo..hi], t[hi..hi'], rank, v);
      FilterConcat(t[lo'..lo], t[lo..hi], rank, v);
      FilterConcat(s[lo'..lo] + s[lo..hi], s[hi..hi'], rank, v);
      FilterConcat(s[lo'..lo], s[lo..hi], rank, v);
    }
  }

  /** Exchanging two neighbours of different rank is stable. */
  lemma StableSwapNeighbours<T>(s: seq<T>, t: seq<T>, orig: seq<T>, rank: T -> int, lo: int, hi: int, j: int)
    requires Stable(s, orig, rank, lo, hi) && lo < j < hi
    requires Swapped(t, s, j, j - 1) && rank(s[j]) != rank(s[j - 1])
    ensures Stable(t, orig, rank, lo, hi)
  {
    var x, y := t[j - 1..j + 1], s[j - 1..j + 1];
    assert x == [s[j], s[j - 1]] && y == [s[j - 1], s[j]];
    forall v
      ensures Filter(x, rank, v) == Filter(y, rank, v)
    {
      FilterPair(s[j - 1], s[j], rank, v);
    }
    StableWiden(t, s, rank, j - 1, j + 1, lo, hi);
  }
}
