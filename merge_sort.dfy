/**
 * The source's sequential merge sort over an int array, in place: `Merge`
 * stages the merged range in the scratch array `b` at the same absolute
 * indices and copies it back, and `MergeSort` is the top-down recursion
 * that calls it. Both are proved against the value-level functions of
 * module Sorting.
 */
module MergeSortArray {
  import Sorting

  /**
   * Merges the adjacent runs a[low..mid] and a[mid+1..high] (bounds
   * inclusive) through the scratch array b: the two-cursor phase, then the
   * copy of the run that is not used up, then the copy of b[low..high]
   * back into a. Either run may be empty.
   */
  method Merge(a: array<int>, b: array<int>, low: int, mid: int, high: int)
    requires a != b
    requires 0 <= low <= mid + 1 <= high + 1 <= a.Length
    requires high < b.Length
    modifies a, b
    ensures a[..] == old(a[..low]) + Sorting.Merge(old(a[low..mid + 1]), old(a[mid + 1..high + 1]), Sorting.IntKey) + old(a[high + 1..])
    ensures forall k :: 0 <= k < b.Length && !(low <= k <= high) ==> b[k] == old(b[k])
  {
    MergeInto(a, b, low, mid, high);
    CopyRange(b, a, low, high + 1, low);
  }

  /**
   * The first two phases of Merge: b[low..high] receives the merge of
   * a[low..mid] and a[mid+1..high]; nothing else in b changes.
   */
  method MergeInto(a: array<int>, b: array<int>, low: int, mid: int, high: int)
    requires a != b
    requires 0 <= low <= mid + 1 <= high + 1 <= a.Length
    requires high < b.Length
    modifies b
    ensures b[low..high + 1] == Sorting.Merge(a[low..mid + 1], a[mid + 1..high + 1], Sorting.IntKey)
    ensures forall k :: 0 <= k < b.Length && !(low <= k <= high) ==> b[k] == old(b[k])
  {
    var h, i, j := MergeHeads(a, b, low, mid, high);
    ghost var A, B := a[..], b[..];
    var from, to := if mid < h then j else h, if mid < h then high + 1 else mid + 1;
    CopyRange(a, b, from, to, i);
    FinishMerge(A, B, b[..], low, mid, high, h, i, j, from, to);
  }

  /**
   * The copy phase of Merge on snapshots (A the array being merged, B the
   * scratch array after the two-cursor phase, B' after the copy of the run
   * that is not used up, A[from..to)): b[low..high] then holds the whole
   * merge.
   */
  lemma FinishMerge(A: seq<int>, B: seq<int>, B': seq<int>, low: int, mid: int, high: int, h: int, i: int, j: int, from: int, to: int)
    requires 0 <= low <= mid + 1 <= high + 1 <= |A| && high < |B|
    requires low <= h <= mid + 1 <= j <= high + 1 && i == h + (j - (mid + 1))
    requires mid < h || high < j
    requires B[low..i] + Sorting.Merge(A[h..mid + 1], A[j..high + 1], Sorting.IntKey) ==
             Sorting.Merge(A[low..mid + 1], A[mid + 1..high + 1], Sorting.IntKey)
    requires from == (if mid < h then j else h) && to == (if mid < h then high + 1 else mid + 1)
    requires B' == B[..i] + A[from..to] + B[i + (to - from)..]
    ensures B'[low..high + 1] == Sorting.Merge(A[low..mid + 1], A[mid + 1..high + 1], Sorting.IntKey)
  {
    if mid < h {
      assert A[h..mid + 1] == [];
      assert B'[low..high + 1] == B[low..i] + A[j..high + 1];
    } else {
      assert A[j..high + 1] == [];
      assert B'[low..high + 1] == B[low..i] + A[h..mid + 1];
    }
  }

  /**
   * The two-cursor phase of Merge: while both runs have elements left, the
   * smaller head (the left one on equal keys) goes to b[i]. On return one
   * run is used up, and b[low..i] followed by the merge of what is left is
   * the merge of the two whole runs.
   */
  method MergeHeads(a: array<int>, b: array<int>, low: int, mid: int, high: int) returns (h: int, i: int, j: int)
    requires a != b
    requires 0 <= low <= mid + 1 <= high + 1 <= a.Length
    requires high < b.Length
    modifies b
    ensures low <= h <= mid + 1 <= j <= high + 1 && i == h + (j - (mid + 1))
    ensures mid < h || high < j
    ensures b[low..i] + Sorting.Merge(a[h..mid + 1], a[j..high + 1], Sorting.IntKey) ==
            Sorting.Merge(a[low..mid + 1], a[mid + 1..high + 1], Sorting.IntKey)
    ensures forall k :: 0 <= k < b.Length && !(low <= k < i) ==> b[k] == old(b[k])
  {
    ghost var A := a[..];
    ghost var merged := Sorting.Merge(A[low..mid + 1], A[mid + 1..high + 1], Sorting.IntKey);
    h, i, j := low, low, mid + 1;
    while h <= mid && j <= high
      invariant low <= h <= mid + 1 <= j <= high + 1
      invariant i == h + (j - (mid + 1))
      invariant b[low..i] + Sorting.Merge(A[h..mid + 1], A[j..high + 1], Sorting.IntKey) == merged
      invariant forall k :: 0 <= k < b.Length && !(low <= k < i) ==> b[k] == old(b[k])
      decreases (mid - h) + (high - j)
    {
      ghost var B := b[..];
      if a[h] <= a[j] {
        b[i] := a[h];
        assert b[..] == B[i := A[h]];
        TakeLeft(B, b[..], A, low, i, h, mid, j, high, merged);
        h := h + 1;
      } else {
        b[i] := a[j];
        assert b[..] == B[i := A[j]];
        TakeRight(B, b[..], A, low, i, h, mid, j, high, merged);
        j := j + 1;
      }
      i := i + 1;
    }
    assert A[h..mid + 1] == a[h..mid + 1] && A[j..high + 1] == a[j..high + 1];
    assert A[low..mid + 1] == a[low..mid + 1] && A[mid + 1..high + 1] == a[mid + 1..high + 1];
  }

  /**
   * One step of the two-cursor phase on snapshots (B before the write, B'
   * after it, A the array being merged): writing the left head to b[i] when
   * it is not greater than the right head keeps output-then-merge-of-the-rest
   * equal to the whole merge.
   */
  lemma TakeLeft(B: seq<int>, B': seq<int>, A: seq<int>, low: int, i: int, h: int, mid: int, j: int, high: int, merged: seq<int>)
    requires 0 <= low <= i < |B| && 0 <= h <= mid < j <= high < |A|
    requires A[h] <= A[j] && B' == B[i := A[h]]
    requires B[low..i] + Sorting.Merge(A[h..mid + 1], A[j..high + 1], Sorting.IntKey) == merged
    ensures B'[low..i + 1] + Sorting.Merge(A[h + 1..mid + 1], A[j..high + 1], Sorting.IntKey) == merged
  {
    var x := A[h..mid + 1];
    assert x[0] == A[h] && x[1..] == A[h + 1..mid + 1];
    assert B'[low..i + 1] == B[low..i] + [A[h]];
  }

  /** The mirror of TakeLeft: the right head is strictly smaller and goes to b[i]. */
  lemma TakeRight(B: seq<int>, B': seq<int>, A: seq<int>, low: int, i: int, h: int, mid: int, j: int, high: int, merged: seq<int>)
    requires 0 <= low <= i < |B| && 0 <= h <= mid < j <= high < |A|
    requires A[j] < A[h] && B' == B[i := A[j]]
    requires B[low..i] + Sorting.Merge(A[h..mid + 1], A[j..high + 1], Sorting.IntKey) == merged
    ensures B'[low..i + 1] + Sorting.Merge(A[h..mid + 1], A[j + 1..high + 1], Sorting.IntKey) == merged
  {
    var y := A[j..high + 1];
    assert y[0] == A[j] && y[1..] == A[j + 1..high + 1];
    assert B'[low..i + 1] == B[low..i] + [A[j]];
  }

  /**
   * Copies src[from..to) to dst[at..at + to - from), one element at a time,
   * and changes nothing else in dst.
   */
  method CopyRange(src: array<int>, dst: array<int>, from: int, to: int, at: int)
    requires src != dst
    requires 0 <= from <= to <= src.Length
    requires 0 <= at && at + (to - from) <= dst.Length
    modifies dst
    ensures dst[..] == old(dst[..at]) + old(src[from..to]) + old(dst[at + (to - from)..])
    ensures forall t :: 0 <= t < dst.Length && !(at <= t < at + (to - from)) ==> dst[t] == old(dst[t])
  {
    var i := at;
    for k := from to to
      invariant i == at + (k - from)
      invariant forall t :: at <= t < i ==> dst[t] == src[t - at + from]
      invariant forall t :: 0 <= t < dst.Length && !(at <= t < i) ==> dst[t] == old(dst[t])
    {
      dst[i] := src[k];
      i := i + 1;
    }
    assert dst[..] == old(dst[..at]) + old(src[from..to]) + old(dst[at + (to - from)..]);
  }

  /**
   * Sorts a[low..high] (bounds inclusive) ascending in place, using b as
   * scratch at the same indices. Does nothing when low >= high.
   */
  method MergeSort(a: array<int>, b: array<int>, low: int, high: int)
    requires a != b
    requires low < high ==> 0 <= low && high < a.Length && high < b.Length
    modifies a, b
    ensures 0 <= low <= high + 1 <= a.Length ==>
              a[..] == old(a[..low]) + Sorting.Sort(old(a[low..high + 1]), Sorting.IntKey) + old(a[high + 1..])
    ensures low >= high ==> unchanged(a) && unchanged(b)
    decreases high - low
  {
    if low < high {
      var mid := (low + high) / 2;
      ghost var A0 := a[..];
      MergeSort(a, b, low, mid);
      ghost var A1 := a[..];
      MergeSort(a, b, mid + 1, high);
      ghost var A2 := a[..];
      Merge(a, b, low, mid, high);
      SortStep(A0, A1, A2, a[..], low, mid, high);
    } else if 0 <= low <= high + 1 <= a.Length {
      assert a[..] == a[..low] + a[low..high + 1] + a[high + 1..];
    }
  }

  /**
   * The recursive case of MergeSort on whole-array snapshots: sorting the
   * two halves in turn and merging them sorts the range and leaves the rest
   * of the array alone.
   */
  lemma SortStep(A0: seq<int>, A1: seq<int>, A2: seq<int>, A3: seq<int>, low: int, mid: int, high: int)
    requires 0 <= low < high < |A0| && mid == (low + high) / 2
    requires |A1| == |A0| && |A2| == |A0|
    requires A1 == A0[..low] + Sorting.Sort(A0[low..mid + 1], Sorting.IntKey) + A0[mid + 1..]
    requires A2 == A1[..mid + 1] + Sorting.Sort(A1[mid + 1..high + 1], Sorting.IntKey) + A1[high + 1..]
    requires A3 == A2[..low] + Sorting.Merge(A2[low..mid + 1], A2[mid + 1..high + 1], Sorting.IntKey) + A2[high + 1..]
    ensures A3 == A0[..low] + Sorting.Sort(A0[low..high + 1], Sorting.IntKey) + A0[high + 1..]
  {
    var s := A0[low..high + 1];
    var m := mid - low + 1;
    assert m == (|s| - 1) / 2 + 1;
    var sortedLeft := Sorting.Sort(s[..m], Sorting.IntKey);
    var sortedRight := Sorting.Sort(s[m..], Sorting.IntKey);
    assert s[..m] == A0[low..mid + 1];
    Sorting.SortLength(s[..m], Sorting.IntKey);
    assert A1[mid + 1..high + 1] == s[m..];
    Sorting.SortLength(s[m..], Sorting.IntKey);
    assert A2[low..mid + 1] == sortedLeft;
    assert A2[mid + 1..high + 1] == sortedRight;
    assert A2[..low] == A0[..low] && A2[high + 1..] == A0[high + 1..];
    SortSplit(s, s[..m], s[m..]);
  }

  /** One unfolding of Sorting.Sort at the source's split point. */
  lemma SortSplit(s: seq<int>, left: seq<int>, right: seq<int>)
    requires |s| > 1 && left == s[..(|s| - 1) / 2 + 1] && right == s[(|s| - 1) / 2 + 1..]
    ensures Sorting.Sort(s, Sorting.IntKey) ==
            Sorting.Merge(Sorting.Sort(left, Sorting.IntKey), Sorting.Sort(right, Sorting.IntKey), Sorting.IntKey)
  {
  }

  // ---------------------------------------------------------------------
  // What the postconditions of Merge and MergeSort mean for the array

  /**
   * An array in the state Merge leaves it in: a[low..high] holds exactly
   * the elements of the two runs, sorted when both runs were sorted, and
   * every other element is unchanged.
   */
  lemma MergedRange(A: seq<int>, A': seq<int>, low: int, mid: int, high: int)
    requires 0 <= low <= mid + 1 <= high + 1 <= |A|
    requires A' == A[..low] + Sorting.Merge(A[low..mid + 1], A[mid + 1..high + 1], Sorting.IntKey) + A[high + 1..]
    ensures |A'| == |A|
    ensures forall k :: 0 <= k < |A| && !(low <= k <= high) ==> A'[k] == A[k]
    ensures multiset(A'[low..high + 1]) == multiset(A[low..high + 1])
    ensures Sorting.SortedBy(A[low..mid + 1], Sorting.IntKey) && Sorting.SortedBy(A[mid + 1..high + 1], Sorting.IntKey) ==>
              Sorting.SortedBy(A'[low..high + 1], Sorting.IntKey)
  {
    var x, y := A[low..mid + 1], A[mid + 1..high + 1];
    var m := Sorting.Merge(x, y, Sorting.IntKey);
    Sorting.MergeLength(x, y, Sorting.IntKey);
    Splice(A, A', m, low, high);
    Sorting.MergePermutation(x, y, Sorting.IntKey);
    assert A[low..high + 1] == x + y;
    if Sorting.SortedBy(x, Sorting.IntKey) && Sorting.SortedBy(y, Sorting.IntKey) {
      Sorting.MergeSorted(x, y, Sorting.IntKey);
    }
  }

  /**
   * An array in the state MergeSort leaves it in: a[low..high] is sorted
   * ascending and a permutation of its old contents, every other element
   * is unchanged, and a range that was already sorted is left as it was.
   */
  lemma SortedRange(A: seq<int>, A': seq<int>, low: int, high: int)
    requires 0 <= low <= high + 1 <= |A|
    requires A' == A[..low] + Sorting.Sort(A[low..high + 1], Sorting.IntKey) + A[high + 1..]
    ensures |A'| == |A|
    ensures forall k :: 0 <= k < |A| && !(low <= k <= high) ==> A'[k] == A[k]
    ensures Sorting.SortedBy(A'[low..high + 1], Sorting.IntKey)
    ensures multiset(A'[low..high + 1]) == multiset(A[low..high + 1])
    ensures Sorting.SortedBy(A[low..high + 1], Sorting.IntKey) ==> A' == A
  {
    var s := A[low..high + 1];
    Sorting.SortLength(s, Sorting.IntKey);
    Splice(A, A', Sorting.Sort(s, Sorting.IntKey), low, high);
    Sorting.SortSorted(s, Sorting.IntKey);
    Sorting.SortPermutation(s, Sorting.IntKey);
    if Sorting.SortedBy(s, Sorting.IntKey) {
      Sorting.SortFixesSorted(s, Sorting.IntKey);
      assert A == A[..low] + s + A[high + 1..];
    }
  }

  /** Replacing the range [low, high] of A by m changes nothing else. */
  lemma Splice(A: seq<int>, A': seq<int>, m: seq<int>, low: int, high: int)
    requires 0 <= low <= high + 1 <= |A| && |m| == high + 1 - low
    requires A' == A[..low] + m + A[high + 1..]
    ensures |A'| == |A| && A'[low..high + 1] == m
    ensures forall k :: 0 <= k < |A| && !(low <= k <= high) ==> A'[k] == A[k]
  {
    forall k | 0 <= k < |A| && !(low <= k <= high) ensures A'[k] == A[k] {
      if k < low {
        assert A'[k] == A[..low][k];
      } else {
        assert A'[k] == A[high + 1..][k - (high + 1)];
      }
    }
  }
}
