/** `hshm::sort`, `insertion_sort`, `quick_sort`, `heapify`, `heap_sort` and `is_sorted`,
    in place over a range [lo, hi) of an array, for any strict weak order. */
module Sorting {

  // ---- orders and ranges ------------------------------------------------------------

  ghost predicate StrictWeakOrder<T(!new)>(cmp: (T, T) -> bool) {
    && (forall x :: !cmp(x, x))
    && (forall x, y :: cmp(x, y) ==> !cmp(y, x))
    && (forall x, y, z :: !cmp(x, y) && !cmp(y, z) ==> !cmp(x, z))
  }

  /** No later element of [lo, hi) is less than an earlier one. */
  ghost predicate Sorted<T>(cmp: (T, T) -> bool, s: seq<T>, lo: int, hi: int)
    requires 0 <= lo <= hi <= |s|
  {
    forall i, j :: lo <= i < j < hi ==> !cmp(s[j], s[i])
  }

  /** t is s with the elements of [lo, hi) rearranged. */
  ghost predicate Rearranged<T>(s: seq<T>, t: seq<T>, lo: int, hi: int)
    requires 0 <= lo <= hi <= |s|
  {
    && |t| == |s|
    && multiset(t[lo..hi]) == multiset(s[lo..hi])
    && t[..lo] == s[..lo]
    && t[hi..] == s[hi..]
  }

  lemma RearrangedTrans<T>(s: seq<T>, t: seq<T>, u: seq<T>, lo: int, hi: int)
    requires 0 <= lo <= hi <= |s|
    requires Rearranged(s, t, lo, hi) && Rearranged(t, u, lo, hi)
    ensures Rearranged(s, u, lo, hi)
  {
  }

  /** Rearranging a part rearranges the whole. */
  lemma RearrangedWider<T>(s: seq<T>, t: seq<T>, lo: int, hi: int, lo': int, hi': int)
    requires 0 <= lo' <= lo <= hi <= hi' <= |s|
    requires Rearranged(s, t, lo, hi)
    ensures Rearranged(s, t, lo', hi')
  {
    assert s[lo'..hi'] == s[..lo][lo'..] + s[lo..hi] + s[hi..][..hi' - hi];
    assert t[lo'..hi'] == t[..lo][lo'..] + t[lo..hi] + t[hi..][..hi' - hi];
    assert s[..lo'] == s[..lo][..lo'] && t[..lo'] == t[..lo][..lo'];
    assert s[hi'..] == s[hi..][hi' - hi..] && t[hi'..] == t[hi..][hi' - hi..];
  }

  function Swapped<T>(s: seq<T>, i: int, j: int): seq<T>
    requires 0 <= i < |s| && 0 <= j < |s|
  {
    s[i := s[j]][j := s[i]]
  }

  /** One more swap inside the range. */
  lemma SwapRearranges<T>(orig: seq<T>, s: seq<T>, lo: int, hi: int, i: int, j: int)
    requires 0 <= lo <= i < hi <= |orig| && lo <= j < hi
    requires Rearranged(orig, s, lo, hi)
    ensures Rearranged(orig, Swapped(s, i, j), lo, hi)
  {
    var t := Swapped(s, i, j);
    assert t[lo..hi] == Swapped(s[lo..hi], i - lo, j - lo);
    assert t[..lo] == s[..lo] && t[hi..] == s[hi..];
  }

  /** What holds of every element of the range still does after rearranging it. */
  lemma RearrangedKeeps<T>(s: seq<T>, t: seq<T>, lo: int, hi: int, p: T -> bool)
    requires 0 <= lo <= hi <= |s| && Rearranged(s, t, lo, hi)
    requires forall i :: lo <= i < hi ==> p(s[i])
    ensures forall i :: lo <= i < hi ==> p(t[i])
  {
    forall i | lo <= i < hi
      ensures p(t[i])
    {
      assert t[i] == t[lo..hi][i - lo];
      assert t[i] in multiset(t[lo..hi]);
      assert t[i] in s[lo..hi];
    }
  }

  method Swap<T>(a: array<T>, i: int, j: int)
    requires 0 <= i < a.Length && 0 <= j < a.Length
    modifies a
    ensures a[..] == Swapped(old(a[..]), i, j)
    ensures forall k :: 0 <= k < a.Length && k != i && k != j ==> a[k] == old(a[k])
    ensures a[i] == old(a[j]) && a[j] == old(a[i])
  {
    var tmp := a[i];
    a[i] := a[j];
    a[j] := tmp;
  }

  // ---- insertion sort ---------------------------------------------------------------

  /** Sorted but for the element at j, which belongs at j or below. */
  ghost predicate SortedBut<T>(cmp: (T, T) -> bool, s: seq<T>, lo: int, hi: int, j: int)
    requires 0 <= lo <= hi <= |s|
  {
    forall k, l :: lo <= k < l < hi && l != j ==> !cmp(s[l], s[k])
  }

  lemma SinkStart<T>(cmp: (T, T) -> bool, s: seq<T>, lo: int, i: int)
    requires 0 <= lo <= i < |s| && Sorted(cmp, s, lo, i)
    ensures SortedBut(cmp, s, lo, i + 1, i)
  {
  }

  lemma SinkStep<T(!new)>(cmp: (T, T) -> bool, s: seq<T>, lo: int, i: int, j: int)
    requires StrictWeakOrder(cmp) && 0 <= lo < j <= i < |s|
    requires SortedBut(cmp, s, lo, i + 1, j) && cmp(s[j], s[j - 1])
    ensures SortedBut(cmp, Swapped(s, j, j - 1), lo, i + 1, j - 1)
  {
  }

  lemma SinkDone<T(!new)>(cmp: (T, T) -> bool, s: seq<T>, lo: int, i: int, j: int)
    requires StrictWeakOrder(cmp) && 0 <= lo <= j <= i < |s|
    requires SortedBut(cmp, s, lo, i + 1, j) && (j == lo || !cmp(s[j], s[j - 1]))
    ensures Sorted(cmp, s, lo, i + 1)
  {
  }

  method InsertionSort<T(!new)>(a: array<T>, lo: int, hi: int, cmp: (T, T) -> bool)
    requires 0 <= lo <= hi <= a.Length && StrictWeakOrder(cmp)
    modifies a
    ensures Rearranged(old(a[..]), a[..], lo, hi)
    ensures Sorted(cmp, a[..], lo, hi)
  {
    assert Rearranged(a[..], a[..], lo, hi) && Sorted(cmp, a[..], lo, lo);
    hide StrictWeakOrder, SortedBut, Rearranged, Sorted;
    if lo == hi {
      return;
    }
    var i := lo;
    while i != hi
      invariant lo <= i <= hi
      invariant Rearranged(old(a[..]), a[..], lo, hi)
      invariant Sorted(cmp, a[..], lo, i)
    {
      var j := i;
      SinkStart(cmp, a[..], lo, i);
      while j != lo && cmp(a[j], a[j - 1])
        invariant lo <= j <= i
        invariant Rearranged(old(a[..]), a[..], lo, hi)
        invariant SortedBut(cmp, a[..], lo, i + 1, j)
      {
        ghost var before := a[..];
        SinkStep(cmp, before, lo, i, j);
        Swap(a, j, j - 1);
        assert a[..] == Swapped(before, j, j - 1);
        SwapRearranges(old(a[..]), before, lo, hi, j, j - 1);
        j := j - 1;
      }
      SinkDone(cmp, a[..], lo, i, j);
      i := i + 1;
    }
  }

  // ---- quick sort -------------------------------------------------------------------

  const INSERT_SORT_CUTOFF := 32

  method Sort<T(!new)>(a: array<T>, lo: int, hi: int, cmp: (T, T) -> bool)
    requires 0 <= lo <= hi <= a.Length && StrictWeakOrder(cmp)
    modifies a
    ensures Rearranged(old(a[..]), a[..], lo, hi)
    ensures Sorted(cmp, a[..], lo, hi)
    decreases hi - lo, 1
  {
    if hi - lo < INSERT_SORT_CUTOFF {
      InsertionSort(a, lo, hi, cmp);
    } else {
      QuickSort(a, lo, hi, cmp);
    }
  }

  method QuickSort<T(!new)>(a: array<T>, lo: int, hi: int, cmp: (T, T) -> bool)
    requires 0 <= lo <= hi <= a.Length && StrictWeakOrder(cmp)
    modifies a
    ensures Rearranged(old(a[..]), a[..], lo, hi)
    ensures Sorted(cmp, a[..], lo, hi)
    decreases hi - lo, 0
  {
    assert lo >= hi - 1 ==> Rearranged(a[..], a[..], lo, hi) && Sorted(cmp, a[..], lo, hi);
    hide StrictWeakOrder, Rearranged, Sorted;
    if lo >= hi - 1 {
      return;
    }
    var store := Partition(a, lo, hi, cmp);
    ghost var parted := a[..];
    Sort(a, lo, store, cmp);
    ghost var leftDone := a[..];
    Sort(a, store + 1, hi, cmp);
    PartsMakeWhole(cmp, old(a[..]), parted, leftDone, a[..], lo, store, hi);
  }

  /** Splitting around a pivot and sorting both sides sorts the range. */
  lemma PartsMakeWhole<T(!new)>(cmp: (T, T) -> bool, orig: seq<T>, parted: seq<T>, leftDone: seq<T>, s: seq<T>,
                                lo: int, store: int, hi: int)
    requires 0 <= lo <= store < hi <= |orig| == |parted| == |leftDone| == |s| && StrictWeakOrder(cmp)
    requires Rearranged(orig, parted, lo, hi)
    requires forall k :: lo <= k < store ==> cmp(parted[k], parted[store])
    requires forall k :: store < k < hi ==> !cmp(parted[k], parted[store])
    requires Rearranged(parted, leftDone, lo, store) && Sorted(cmp, leftDone, lo, store)
    requires Rearranged(leftDone, s, store + 1, hi) && Sorted(cmp, s, store + 1, hi)
    ensures Rearranged(orig, s, lo, hi) && Sorted(cmp, s, lo, hi)
  {
    RearrangedWider(parted, leftDone, lo, store, lo, hi);
    RearrangedWider(leftDone, s, store + 1, hi, lo, hi);
    RearrangedTrans(orig, parted, leftDone, lo, hi);
    RearrangedTrans(orig, leftDone, s, lo, hi);
    var p := parted[store];
    OutsideStays(parted, leftDone, lo, store);
    OutsideStays(leftDone, s, store + 1, hi);
    RearrangedKeeps(parted, leftDone, lo, store, x => cmp(x, p));
    RearrangedKeeps(leftDone, s, store + 1, hi, x => !cmp(x, p));
    JoinSorted(cmp, s, lo, store, hi);
  }

  lemma OutsideStays<T>(s: seq<T>, t: seq<T>, lo: int, hi: int)
    requires 0 <= lo <= hi <= |s| && Rearranged(s, t, lo, hi)
    ensures forall k :: 0 <= k < lo || hi <= k < |s| ==> t[k] == s[k]
  {
    assert forall k :: 0 <= k < lo ==> t[k] == t[..lo][k] && s[k] == s[..lo][k];
    assert forall k :: hi <= k < |s| ==> t[k] == t[hi..][k - hi] && s[k] == s[hi..][k - hi];
  }

  lemma JoinSorted<T(!new)>(cmp: (T, T) -> bool, s: seq<T>, lo: int, store: int, hi: int)
    requires 0 <= lo <= store < hi <= |s| && StrictWeakOrder(cmp)
    requires forall i, j :: lo <= i < j < store ==> !cmp(s[j], s[i])
    requires Sorted(cmp, s, store + 1, hi)
    requires forall i :: lo <= i < store ==> cmp(s[i], s[store])
    requires forall i :: store < i < hi ==> !cmp(s[i], s[store])
    ensures Sorted(cmp, s, lo, hi)
  {
    forall i, j | lo <= i < j < hi
      ensures !cmp(s[j], s[i])
    {
      if i < store && j > store {
        assert !cmp(s[j], s[store]) && !cmp(s[store], s[i]);
      }
    }
  }

  /** Partway through the partition loop: [lo, store) is less than the pivot, [store, i) is
      not, and the pivot waits at the end. */
  ghost predicate Parting<T(!new)>(cmp: (T, T) -> bool, s: seq<T>, lo: int, store: int, i: int, hi: int)
    requires 0 <= lo <= store <= i < hi <= |s|
  {
    && (forall k :: lo <= k < store ==> cmp(s[k], s[hi - 1]))
    && (forall k :: store <= k < i ==> !cmp(s[k], s[hi - 1]))
  }

  lemma PartingStep<T(!new)>(cmp: (T, T) -> bool, s: seq<T>, lo: int, store: int, i: int, hi: int)
    requires 0 <= lo <= store <= i < hi - 1 < |s| && Parting(cmp, s, lo, store, i, hi)
    ensures cmp(s[i], s[hi - 1]) ==> Parting(cmp, Swapped(s, store, i), lo, store + 1, i + 1, hi)
    ensures !cmp(s[i], s[hi - 1]) ==> Parting(cmp, s, lo, store, i + 1, hi)
  {
  }

  lemma PartingEnds<T(!new)>(cmp: (T, T) -> bool, s: seq<T>, lo: int, store: int, hi: int)
    requires 0 <= lo <= store < hi <= |s| && StrictWeakOrder(cmp) && Parting(cmp, s, lo, store, hi - 1, hi)
    ensures var t := Swapped(s, store, hi - 1);
            && t[store] == s[hi - 1]
            && (forall k :: lo <= k < store ==> cmp(t[k], t[store]))
            && (forall k :: store < k < hi ==> !cmp(t[k], t[store]))
  {
  }

  /** The body of quick_sort up to its two recursive calls: the middle element ends up at
      the returned index, smaller elements before it, the rest after it. */
  method Partition<T(!new)>(a: array<T>, lo: int, hi: int, cmp: (T, T) -> bool) returns (store: int)
    requires 0 <= lo < hi - 1 < a.Length && StrictWeakOrder(cmp)
    modifies a
    ensures lo <= store < hi
    ensures Rearranged(old(a[..]), a[..], lo, hi)
    ensures a[store] == old(a[lo + (hi - lo) / 2])
    ensures forall k :: lo <= k < store ==> cmp(a[k], a[store])
    ensures forall k :: store < k < hi ==> !cmp(a[k], a[store])
  {
    hide Rearranged;
    ghost var orig := a[..];
    var pivot := lo + (hi - lo) / 2;
    SwapRearranges(orig, orig, lo, hi, pivot, hi - 1);
    Swap(a, pivot, hi - 1);
    ghost var s := a[..];
    store := lo;
    var i := lo;
    while i < hi - 1
      invariant lo <= store <= i <= hi - 1
      invariant a[..] == s && Rearranged(orig, s, lo, hi) && s[hi - 1] == orig[pivot]
      invariant Parting(cmp, s, lo, store, i, hi)
    {
      PartingStep(cmp, s, lo, store, i, hi);
      if cmp(a[i], a[hi - 1]) {
        SwapRearranges(orig, s, lo, hi, store, i);
        Swap(a, store, i);
        s := Swapped(s, store, i);
        store := store + 1;
      }
      i := i + 1;
    }
    SwapRearranges(orig, s, lo, hi, store, hi - 1);
    PartingEnds(cmp, s, lo, store, hi);
    Swap(a, store, hi - 1);
  }

  // ---- heap sort --------------------------------------------------------------------

  /** Among the first n elements every parent from index i on is not less than its
      children. */
  ghost predicate HeapFrom<T>(cmp: (T, T) -> bool, s: seq<T>, n: int, i: int)
    requires 0 <= n <= |s|
  {
    forall k, c :: i <= k && 0 <= k < n && (c == 2 * k + 1 || c == 2 * k + 2) && c < n ==> !cmp(s[k], s[c])
  }

  /** k lies in the subtree below r. */
  predicate Below(r: nat, k: nat)
    decreases k
  {
    k == r || (k > r && Below(r, (k - 1) / 2))
  }

  lemma BelowIsTransitive(r: nat, m: nat, k: nat)
    requires Below(r, m) && Below(m, k)
    ensures Below(r, k)
    decreases k
  {
    if k > m {
      BelowIsTransitive(r, m, (k - 1) / 2);
    }
  }

  /** The choice made by heapify among node i and its two children. */
  function Largest<T>(cmp: (T, T) -> bool, s: seq<T>, n: int, i: nat): (m: int)
    requires i < n <= |s|
    ensures i <= m < n && (m == i || m == 2 * i + 1 || m == 2 * i + 2)
  {
    var m := if 2 * i + 1 < n && cmp(s[i], s[2 * i + 1]) then 2 * i + 1 else i;
    if 2 * i + 2 < n && cmp(s[m], s[2 * i + 2]) then 2 * i + 2 else m
  }

  lemma LargestIsLargest<T(!new)>(cmp: (T, T) -> bool, s: seq<T>, n: int, i: nat)
    requires i < n <= |s| && StrictWeakOrder(cmp)
    ensures var m := Largest(cmp, s, n, i);
            && !cmp(s[m], s[i])
            && (2 * i + 1 < n ==> !cmp(s[m], s[2 * i + 1]))
            && (2 * i + 2 < n ==> !cmp(s[m], s[2 * i + 2]))
  {
  }

  /** t is s with node i sifted down: only the subtree of i changes, and what comes up to i
      was i or one of its children. */
  ghost predicate Sifted<T>(s: seq<T>, t: seq<T>, n: int, i: nat)
    requires i < n <= |s|
  {
    && Rearranged(s, t, 0, n)
    && (forall k: nat :: k < n && !Below(i, k) ==> t[k] == s[k])
    && (t[i] == s[i] || (2 * i + 1 < n && t[i] == s[2 * i + 1]) || (2 * i + 2 < n && t[i] == s[2 * i + 2]))
  }

  /** Swapping node i with its largest child m and sifting m down changes only the subtree
      of i. */
  lemma SiftDownFrame<T(!new)>(cmp: (T, T) -> bool, s: seq<T>, u: seq<T>, n: int, i: nat)
    requires i < n <= |s| && Largest(cmp, s, n, i) != i
    requires var m := Largest(cmp, s, n, i); Sifted(Swapped(s, i, m), u, n, m)
    ensures Sifted(s, u, n, i)
  {
    var m := Largest(cmp, s, n, i);
    var t := Swapped(s, i, m);
    assert Below(i, i) && Below(i, m);
    assert !Below(m, i);
    forall k: nat | k < n && !Below(i, k)
      ensures u[k] == s[k]
    {
      if Below(m, k) { BelowIsTransitive(i, m, k); }
    }
    assert Rearranged(s, u, 0, n) by {
      RearrangedRefl(s, 0, n);
      SwapRearranges(s, s, 0, n, i, m);
      RearrangedTrans(s, t, u, 0, n);
    }
  }

  /** ... and leaves a heap from i on. */
  lemma SiftDownHeap<T(!new)>(cmp: (T, T) -> bool, s: seq<T>, u: seq<T>, n: int, i: nat)
    requires i < n <= |s| == |u| && StrictWeakOrder(cmp) && HeapFrom(cmp, s, n, i + 1)
    requires Largest(cmp, s, n, i) != i
    requires var m := Largest(cmp, s, n, i); Sifted(Swapped(s, i, m), u, n, m) && HeapFrom(cmp, u, n, m)
    ensures HeapFrom(cmp, u, n, i)
  {
    hide Rearranged;
    var m := Largest(cmp, s, n, i);
    var t := Swapped(s, i, m);
    LargestIsLargest(cmp, s, n, i);
    assert !Below(m, i) && u[i] == t[i] == s[m];
    forall k, c | i <= k < n && (c == 2 * k + 1 || c == 2 * k + 2) && c < n
      ensures !cmp(u[k], u[c])
    {
      SiftDownParent(cmp, s, u, n, i, k, c);
    }
  }

  /** One parent k and child c after the sift. */
  lemma SiftDownParent<T(!new)>(cmp: (T, T) -> bool, s: seq<T>, u: seq<T>, n: int, i: nat, k: nat, c: nat)
    requires i <= k < c < n <= |s| == |u| && (c == 2 * k + 1 || c == 2 * k + 2)
    requires StrictWeakOrder(cmp) && HeapFrom(cmp, s, n, i + 1)
    requires Largest(cmp, s, n, i) != i
    requires var m := Largest(cmp, s, n, i); Sifted(Swapped(s, i, m), u, n, m) && HeapFrom(cmp, u, n, m)
    ensures !cmp(u[k], u[c])
  {
    hide Rearranged;
    var m := Largest(cmp, s, n, i);
    var t := Swapped(s, i, m);
    assert (c - 1) / 2 == k;
    if k >= m {
      assert !cmp(u[k], u[c]);   // the recursive call left a heap from m on
    } else {
      assert !Below(m, k) && u[k] == t[k];
      if c == m {
        assert k == i;
        LargestIsLargest(cmp, s, n, i);
        assert !cmp(s[m], u[m]);
      } else {
        assert !Below(m, c) && u[c] == t[c] == s[c];
        if k == i { LargestIsLargest(cmp, s, n, i); }
      }
    }
  }

  lemma SiftNothing<T(!new)>(cmp: (T, T) -> bool, s: seq<T>, n: int, i: nat)
    requires i < n <= |s| && StrictWeakOrder(cmp) && HeapFrom(cmp, s, n, i + 1)
    requires Largest(cmp, s, n, i) == i
    ensures Sifted(s, s, n, i) && HeapFrom(cmp, s, n, i)
  {
    LargestIsLargest(cmp, s, n, i);
  }

  lemma SwapKeepsHeapBeyond<T>(cmp: (T, T) -> bool, s: seq<T>, n: int, i: nat, m: int)
    requires i < m < n <= |s| && HeapFrom(cmp, s, n, i + 1)
    ensures HeapFrom(cmp, Swapped(s, i, m), n, m + 1)
  {
  }

  /** A swap inside a[lo..hi) is a swap of that slice, and nothing outside it changes. */
  lemma SliceOfSwap<T>(s: seq<T>, lo: int, hi: int, i: int, j: int)
    requires 0 <= lo <= hi <= |s| && 0 <= i < hi - lo && 0 <= j < hi - lo
    ensures var t := Swapped(s, lo + i, lo + j);
            t[lo..hi] == Swapped(s[lo..hi], i, j) && t[..lo] == s[..lo] && t[hi..] == s[hi..]
  {
  }

  /** heapify: sifts node i of the heap that takes the first n places from lo on. */
  method Heapify<T(!new)>(a: array<T>, lo: nat, n: int, i: nat, cmp: (T, T) -> bool, ghost hi: nat)
    requires i < n && lo + n <= hi <= a.Length && StrictWeakOrder(cmp)
    requires HeapFrom(cmp, a[lo..hi], n, i + 1)
    modifies a
    ensures Sifted(old(a[lo..hi]), a[lo..hi], n, i)
    ensures HeapFrom(cmp, a[lo..hi], n, i)
    ensures a[..lo] == old(a[..lo]) && a[hi..] == old(a[hi..])
    decreases n - i
  {
    hide Sifted, HeapFrom, StrictWeakOrder;
    ghost var s := a[lo..hi];
    var largest := i;
    var left := 2 * i + 1;
    var right := 2 * i + 2;
    if left < n && cmp(a[lo + largest], a[lo + left]) {
      largest := left;
    }
    if right < n && cmp(a[lo + largest], a[lo + right]) {
      largest := right;
    }
    assert largest == Largest(cmp, s, n, i);
    if largest != i {
      SwapKeepsHeapBeyond(cmp, s, n, i, largest);
      SwapSlice(a, lo, hi, i, largest);
      Heapify(a, lo, n, largest, cmp, hi);
      SiftDownFrame(cmp, s, a[lo..hi], n, i);
      SiftDownHeap(cmp, s, a[lo..hi], n, i);
    } else {
      SiftNothing(cmp, s, n, i);
    }
  }

  /** A swap of two places counted from lo. */
  method SwapSlice<T>(a: array<T>, lo: nat, ghost hi: nat, i: int, j: int)
    requires lo <= hi <= a.Length && 0 <= i < hi - lo && 0 <= j < hi - lo
    modifies a
    ensures a[lo..hi] == Swapped(old(a[lo..hi]), i, j)
    ensures a[..lo] == old(a[..lo]) && a[hi..] == old(a[hi..])
  {
    SliceOfSwap(a[..], lo, hi, i, j);
    ghost var s := a[..];
    Swap(a, lo + i, lo + j);
    assert a[..] == Swapped(s, lo + i, lo + j);
    assert a[..][lo..hi] == a[lo..hi] && a[..][..lo] == a[..lo] && a[..][hi..] == a[hi..];
    assert s[lo..hi] == old(a[lo..hi]) && s[..lo] == old(a[..lo]) && s[hi..] == old(a[hi..]);
  }

  lemma RootIsLargest<T(!new)>(cmp: (T, T) -> bool, s: seq<T>, n: int, k: nat)
    requires k < n <= |s| && StrictWeakOrder(cmp) && HeapFrom(cmp, s, n, 0)
    ensures !cmp(s[0], s[k])
    decreases k
  {
    if k > 0 {
      var parent := (k - 1) / 2;
      RootIsLargest(cmp, s, n, parent);
      assert !cmp(s[parent], s[k]);
    }
  }

  /** Partway through the extraction loop: a heap in front, the final tail behind it. */
  ghost predicate Extracting<T>(cmp: (T, T) -> bool, s: seq<T>, m: int)
    requires 0 <= m <= |s|
  {
    && HeapFrom(cmp, s, m, 0)
    && Sorted(cmp, s, m, |s|)
    && (forall k, l :: 0 <= k < m <= l < |s| ==> !cmp(s[l], s[k]))
  }

  /** Moving the root behind the heap and sifting its replacement down. */
  lemma ExtractStep<T(!new)>(cmp: (T, T) -> bool, s: seq<T>, u: seq<T>, m: int)
    requires 1 < m <= |s| && StrictWeakOrder(cmp) && Extracting(cmp, s, m)
    requires Sifted(Swapped(s, 0, m - 1), u, m - 1, 0) && HeapFrom(cmp, u, m - 1, 0)
    ensures Extracting(cmp, u, m - 1)
  {
    var t := Swapped(s, 0, m - 1);
    forall k | 0 <= k < m ensures !cmp(s[0], s[k]) {
      RootIsLargest(cmp, s, m, k);
    }
    OutsideStays(t, u, 0, m - 1);
    forall l, k | m - 1 <= l < |s| && 0 <= k < m - 1
      ensures !cmp(u[l], u[k])
    {
      var top := u[l];
      assert forall j :: 0 <= j < m - 1 ==> !cmp(top, t[j]);
      RearrangedKeeps(t, u, 0, m - 1, x => !cmp(top, x));
    }
    forall k, l | m - 1 <= k < l < |s|
      ensures !cmp(u[l], u[k])
    {
      if k == m - 1 { assert u[k] == s[0]; }
    }
  }

  lemma SwapRootKeepsHeapBeyond<T>(cmp: (T, T) -> bool, s: seq<T>, m: int)
    requires 1 < m <= |s| && HeapFrom(cmp, s, m, 0)
    ensures HeapFrom(cmp, Swapped(s, 0, m - 1), m - 1, 1)
  {
  }

  lemma SiftIsWithin<T>(orig: seq<T>, s: seq<T>, u: seq<T>, n: int, i: nat)
    requires i < n <= |s| == |orig| && Rearranged(orig, s, 0, |s|) && Sifted(s, u, n, i)
    ensures Rearranged(orig, u, 0, |s|)
  {
    RearrangedWider(s, u, 0, n, 0, |s|);
    RearrangedTrans(orig, s, u, 0, |s|);
  }

  method HeapSort<T(!new)>(a: array<T>, lo: nat, hi: nat, cmp: (T, T) -> bool)
    requires lo <= hi <= a.Length && StrictWeakOrder(cmp)
    modifies a
    ensures Rearranged(old(a[..]), a[..], lo, hi)
    ensures Sorted(cmp, a[..], lo, hi)
  {
    hide Rearranged, StrictWeakOrder, HeapFrom, Sorted;
    BuildHeap(a, lo, hi, cmp);
    ghost var built := a[lo..hi];
    ExtractAll(a, lo, hi, cmp);
    RearrangedTrans(old(a[lo..hi]), built, a[lo..hi], 0, hi - lo);
    SliceIsRearranged(old(a[..]), a[..], lo, hi);
    SliceIsSorted(cmp, a[..], lo, hi);
  }

  /** The first loop of heap_sort. */
  method BuildHeap<T(!new)>(a: array<T>, lo: nat, hi: nat, cmp: (T, T) -> bool)
    requires lo <= hi <= a.Length && StrictWeakOrder(cmp)
    modifies a
    ensures Rearranged(old(a[lo..hi]), a[lo..hi], 0, hi - lo) && HeapFrom(cmp, a[lo..hi], hi - lo, 0)
    ensures a[..lo] == old(a[..lo]) && a[hi..] == old(a[hi..])
  {
    hide Rearranged, Sifted, StrictWeakOrder, HeapFrom;
    ghost var orig := a[lo..hi];
    var n := hi - lo;
    RearrangedRefl(orig, 0, n);
    LeavesAreHeaps(cmp, orig, n, n / 2);
    var i := n / 2 - 1;
    while i >= 0
      invariant -1 <= i < n && a[..lo] == old(a[..lo]) && a[hi..] == old(a[hi..])
      invariant Rearranged(orig, a[lo..hi], 0, n)
      invariant HeapFrom(cmp, a[lo..hi], n, i + 1)
    {
      ghost var s := a[lo..hi];
      Heapify(a, lo, n, i, cmp, hi);
      SiftIsWithin(orig, s, a[lo..hi], n, i);
      i := i - 1;
    }
  }

  /** The second loop of heap_sort. */
  method ExtractAll<T(!new)>(a: array<T>, lo: nat, hi: nat, cmp: (T, T) -> bool)
    requires lo <= hi <= a.Length && StrictWeakOrder(cmp) && HeapFrom(cmp, a[lo..hi], hi - lo, 0)
    modifies a
    ensures Rearranged(old(a[lo..hi]), a[lo..hi], 0, hi - lo) && Sorted(cmp, a[lo..hi], 0, hi - lo)
    ensures a[..lo] == old(a[..lo]) && a[hi..] == old(a[hi..])
  {
    hide Rearranged, Sifted, StrictWeakOrder, Swapped, HeapFrom, Extracting, Sorted;
    ghost var orig := a[lo..hi];
    var n := hi - lo;
    RearrangedRefl(orig, 0, n);
    HeapIsExtracting(cmp, orig);
    var i := n - 1;
    while i > 0
      invariant (i == -1 || 0 <= i) && i < n && a[..lo] == old(a[..lo]) && a[hi..] == old(a[hi..])
      invariant Rearranged(orig, a[lo..hi], 0, n)
      invariant Extracting(cmp, a[lo..hi], i + 1)
    {
      ghost var s := a[lo..hi];
      ExtractingIsHeap(cmp, s, i + 1);
      SwapRootKeepsHeapBeyond(cmp, s, i + 1);
      SwapRearranges(orig, s, 0, n, 0, i);
      SwapSlice(a, lo, hi, 0, i);
      Heapify(a, lo, i, 0, cmp, hi);
      SiftIsWithin(orig, Swapped(s, 0, i), a[lo..hi], i, 0);
      ExtractStep(cmp, s, a[lo..hi], i + 1);
      i := i - 1;
    }
    ExtractedIsSorted(cmp, a[lo..hi], i + 1);
  }

  lemma LeavesAreHeaps<T>(cmp: (T, T) -> bool, s: seq<T>, n: int, i: int)
    requires 0 <= n <= |s| && n <= 2 * i + 1
    ensures HeapFrom(cmp, s, n, i)
  {
  }

  lemma HeapIsExtracting<T>(cmp: (T, T) -> bool, s: seq<T>)
    requires HeapFrom(cmp, s, |s|, 0)
    ensures Extracting(cmp, s, |s|)
  {
  }

  lemma ExtractingIsHeap<T>(cmp: (T, T) -> bool, s: seq<T>, m: int)
    requires 0 <= m <= |s| && Extracting(cmp, s, m)
    ensures HeapFrom(cmp, s, m, 0)
  {
  }

  lemma ExtractedIsSorted<T>(cmp: (T, T) -> bool, s: seq<T>, m: int)
    requires 0 <= m <= |s| && m <= 1 && Extracting(cmp, s, m)
    ensures Sorted(cmp, s, 0, |s|)
  {
  }

  lemma SliceIsRearranged<T>(s: seq<T>, t: seq<T>, lo: int, hi: int)
    requires 0 <= lo <= hi <= |s| == |t| && Rearranged(s[lo..hi], t[lo..hi], 0, hi - lo)
    requires s[..lo] == t[..lo] && s[hi..] == t[hi..]
    ensures Rearranged(s, t, lo, hi)
  {
    assert s[lo..hi][0..hi - lo] == s[lo..hi] && t[lo..hi][0..hi - lo] == t[lo..hi];
  }

  lemma SliceIsSorted<T>(cmp: (T, T) -> bool, s: seq<T>, lo: int, hi: int)
    requires 0 <= lo <= hi <= |s| && Sorted(cmp, s[lo..hi], 0, hi - lo)
    ensures Sorted(cmp, s, lo, hi)
  {
    forall i, j | lo <= i < j < hi ensures !cmp(s[j], s[i]) {
      assert s[lo..hi][i - lo] == s[i] && s[lo..hi][j - lo] == s[j];
    }
  }

  lemma RearrangedRefl<T>(s: seq<T>, lo: int, hi: int)
    requires 0 <= lo <= hi <= |s|
    ensures Rearranged(s, s, lo, hi)
  {
  }

  // ---- is_sorted --------------------------------------------------------------------

  /** is_sorted compares neighbours with `cmp` itself, so it accepts exactly the strictly
      increasing ranges. */
  method IsSorted<T(!new)>(a: array<T>, lo: int, hi: int, cmp: (T, T) -> bool) returns (ok: bool)
    requires 0 <= lo <= hi <= a.Length && StrictWeakOrder(cmp)
    ensures ok <==> forall i, j :: lo <= i < j < hi ==> cmp(a[i], a[j])
  {
    if lo == hi {
      return true;
    }
    var prev := lo;
    var start := lo + 1;
    while start != hi
      invariant prev == start - 1 && lo < start <= hi
      invariant forall i, j :: lo <= i < j < start ==> cmp(a[i], a[j])
    {
      if !cmp(a[prev], a[start]) {
        return false;
      }
      start := start + 1;
      prev := prev + 1;
    }
    return true;
  }

  /** No two elements are equivalent: all occur once, and any two are in order one way. */
  ghost predicate NoneEquivalent<T(!new)>(cmp: (T, T) -> bool, m: multiset<T>) {
    && (forall x :: x in m ==> m[x] == 1)
    && (forall x, y :: x in m && y in m && x != y ==> cmp(x, y) || cmp(y, x))
  }

  lemma {:induction false} TwiceMeansTwoPlaces<T>(s: seq<T>, x: T) returns (i: int, j: int)
    requires multiset(s)[x] > 1
    ensures 0 <= i < j < |s| && s[i] == x && s[j] == x
  {
    var last := |s| - 1;
    assert s == s[..last] + [s[last]];
    if multiset(s[..last])[x] > 1 {
      i, j := TwiceMeansTwoPlaces(s[..last], x);
    } else {
      assert x in multiset(s[..last]) && s[last] == x;
      i :| 0 <= i < last && s[..last][i] == x;
      j := last;
    }
  }

  lemma TwoPlacesMeanTwice<T>(s: seq<T>, i: int, j: int)
    requires 0 <= i < j < |s| && s[i] == s[j]
    ensures multiset(s)[s[i]] > 1
  {
    assert s == s[..j] + s[j..];
    assert s[i] in s[..j] && s[i] in s[j..];
  }

  ghost predicate Increasing<T>(cmp: (T, T) -> bool, s: seq<T>) {
    forall i, j :: 0 <= i < j < |s| ==> cmp(s[i], s[j])
  }

  lemma IncreasingHasNoneEquivalent<T(!new)>(cmp: (T, T) -> bool, s: seq<T>)
    requires (forall x :: !cmp(x, x)) && Increasing(cmp, s)
    ensures NoneEquivalent(cmp, multiset(s))
  {
    forall x | x in multiset(s) ensures multiset(s)[x] == 1 {
      if multiset(s)[x] > 1 {
        var i, j := TwiceMeansTwoPlaces(s, x);
      }
    }
    forall x, y | x in multiset(s) && y in multiset(s) && x != y ensures cmp(x, y) || cmp(y, x) {
      var i :| 0 <= i < |s| && s[i] == x;
      var j :| 0 <= j < |s| && s[j] == y;
    }
  }

  lemma NoneEquivalentIncreases<T(!new)>(cmp: (T, T) -> bool, s: seq<T>)
    requires NoneEquivalent(cmp, multiset(s)) && Sorted(cmp, s, 0, |s|)
    ensures Increasing(cmp, s)
  {
    forall i, j | 0 <= i < j < |s| ensures cmp(s[i], s[j]) {
      if s[i] == s[j] { TwoPlacesMeanTwice(s, i, j); }
      assert s[i] in multiset(s) && s[j] in multiset(s) && !cmp(s[j], s[i]);
    }
  }

  /** A sorted range is strictly increasing exactly when no two of its elements are equivalent. */
  lemma StrictlyIncreasingIff<T(!new)>(cmp: (T, T) -> bool, s: seq<T>, lo: int, hi: int)
    requires 0 <= lo <= hi <= |s| && StrictWeakOrder(cmp) && Sorted(cmp, s, lo, hi)
    ensures (forall i, j :: lo <= i < j < hi ==> cmp(s[i], s[j])) <==> NoneEquivalent(cmp, multiset(s[lo..hi]))
  {
    var r := s[lo..hi];
    assert (forall i, j :: lo <= i < j < hi ==> cmp(s[i], s[j])) <==> Increasing(cmp, r) by {
      if Increasing(cmp, r) {
        forall i, j | lo <= i < j < hi ensures cmp(s[i], s[j]) {
          assert cmp(r[i - lo], r[j - lo]);
        }
      }
    }
    hide NoneEquivalent, Increasing;
    if Increasing(cmp, r) {
      IncreasingHasNoneEquivalent(cmp, r);
    }
    if NoneEquivalent(cmp, multiset(r)) {
      NoneEquivalentIncreases(cmp, r);
    }
  }

  /** Sorting and then asking is_sorted answers true exactly when no two elements of the range
      were equivalent to begin with. */
  method SortThenCheck<T(!new)>(a: array<T>, lo: int, hi: int, cmp: (T, T) -> bool) returns (ok: bool)
    requires 0 <= lo <= hi <= a.Length && StrictWeakOrder(cmp)
    modifies a
    ensures Rearranged(old(a[..]), a[..], lo, hi) && Sorted(cmp, a[..], lo, hi)
    ensures ok <==> NoneEquivalent(cmp, multiset(old(a[lo..hi])))
  {
    Sort(a, lo, hi, cmp);
    StrictlyIncreasingIff(cmp, a[..], lo, hi);
    assert a[..][lo..hi] == a[lo..hi] && old(a[..])[lo..hi] == old(a[lo..hi]);
    ok := IsSorted(a, lo, hi, cmp);
  }

  /** A range of two equal elements, sorted, is reported as not sorted. */
  method EqualPairIsRefused<T(!new)>(x: T, cmp: (T, T) -> bool) returns (a: array<T>, ok: bool)
    requires StrictWeakOrder(cmp)
    ensures a[..] == [x, x] && Sorted(cmp, a[..], 0, 2) && !ok
  {
    a := new T[2](_ => x);
    ok := IsSorted(a, 0, 2, cmp);
    assert !cmp(a[0], a[1]);
  }
}
