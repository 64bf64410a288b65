/**
 * The value-level specification of the sequential merge sort: the two-cursor
 * merge of two runs, the top-down merge sort built on it, and what is proved
 * about them (sortedness, permutation, stability from the left-first
 * tie-break, fixed points and uniqueness of the result).
 *
 * Elements are compared through an integer key. The source sorts plain ints,
 * which is the instance `key == IntKey`; keeping the element type open lets
 * the model observe which of two equal keys the merge takes first.
 */
module Sorting {

  /** The key under which the source compares its ints: the int itself. */
  function IntKey(x: int): int { x }

  /** Keys never decrease from left to right. */
  ghost predicate SortedBy<T>(s: seq<T>, key: T -> int) {
    forall i, j :: 0 <= i < j < |s| ==> key(s[i]) <= key(s[j])
  }

  /** Among elements with equal keys, the tag `pos` increases from left to right. */
  ghost predicate TiesInOrder<T>(s: seq<T>, key: T -> int, pos: T -> int) {
    forall i, j :: 0 <= i < j < |s| && key(s[i]) == key(s[j]) ==> pos(s[i]) < pos(s[j])
  }

  /** Every element of `x` carries a smaller tag than every equal-keyed element of `y`. */
  ghost predicate TiesPrecede<T>(x: seq<T>, y: seq<T>, key: T -> int, pos: T -> int) {
    forall u, v :: u in x && v in y && key(u) == key(v) ==> pos(u) < pos(v)
  }

  /** A slice of a sorted sequence is sorted. */
  lemma SortedSlice<T>(s: seq<T>, i: int, j: int, key: T -> int)
    requires 0 <= i <= j <= |s| && SortedBy(s, key)
    ensures SortedBy(s[i..j], key)
  {
    var t := s[i..j];
    forall p, q | 0 <= p < q < |t| ensures key(t[p]) <= key(t[q]) {
      assert t[p] == s[i + p] && t[q] == s[i + q];
    }
  }

  /** A slice keeps the order of equal keys of the sequence it is cut from. */
  lemma TiesInOrderSlice<T>(s: seq<T>, i: int, j: int, key: T -> int, pos: T -> int)
    requires 0 <= i <= j <= |s| && TiesInOrder(s, key, pos)
    ensures TiesInOrder(s[i..j], key, pos)
  {
    var t := s[i..j];
    forall p, q | 0 <= p < q < |t| && key(t[p]) == key(t[q]) ensures pos(t[p]) < pos(t[q]) {
      assert t[p] == s[i + p] && t[q] == s[i + q];
    }
  }

  /**
   * Two-cursor merge of the runs `x` and `y`: the smaller head is taken, the
   * head of `x` on equal keys; once one run is used up the rest of the other
   * follows unchanged.
   */
  function Merge<T>(x: seq<T>, y: seq<T>, key: T -> int): seq<T>
    decreases |x| + |y|, 1
  {
    if x == [] then y
    else if y == [] then x
    else MergeNonEmpty(x, y, key)
  }

  /** Both runs non-empty: the smaller head goes first, the head of `x` on equal keys. */
  function MergeNonEmpty<T>(x: seq<T>, y: seq<T>, key: T -> int): seq<T>
    requires x != [] && y != []
    decreases |x| + |y|, 0
  {
    if key(x[0]) <= key(y[0]) then [x[0]] + Merge(x[1..], y, key)
    else [y[0]] + Merge(x, y[1..], key)
  }

  /**
   * Top-down merge sort with the source's split: for a range [0, n-1] the
   * middle is (n-1)/2, the left half is [0, mid] and the right [mid+1, n-1].
   */
  function Sort<T>(s: seq<T>, key: T -> int): seq<T>
    decreases |s|, 1
  {
    if |s| <= 1 then s else MergeHalves(s, key)
  }

  /** Sorts both halves of `s` at the source's split point and merges them. */
  function MergeHalves<T>(s: seq<T>, key: T -> int): seq<T>
    requires |s| > 1
    decreases |s|, 0
  {
    var mid := (|s| - 1) / 2;
    Merge(Sort(s[..mid + 1], key), Sort(s[mid + 1..], key), key)
  }

  // ---------------------------------------------------------------------
  // Merge

  /** The merge holds exactly the elements of both runs: nothing is lost or duplicated. */
  lemma {:induction false} MergePermutation<T>(x: seq<T>, y: seq<T>, key: T -> int)
    ensures multiset(Merge(x, y, key)) == multiset(x) + multiset(y)
    decreases |x| + |y|
  {
    if x != [] && y != [] {
      if key(x[0]) <= key(y[0]) {
        assert Merge(x, y, key) == [x[0]] + Merge(x[1..], y, key);
        MergePermutation(x[1..], y, key);
        ConsPermutation(x[0], x[1..], y, Merge(x[1..], y, key), x, Merge(x, y, key));
      } else {
        assert Merge(x, y, key) == [y[0]] + Merge(x, y[1..], key);
        MergePermutation(x, y[1..], key);
        ConsPermutation(y[0], y[1..], x, Merge(x, y[1..], key), y, Merge(x, y, key));
      }
    }
  }

  /** Putting the same head in front of a permutation of t and other keeps it one. */
  lemma ConsPermutation<T>(h: T, t: seq<T>, other: seq<T>, rest: seq<T>, whole: seq<T>, merged: seq<T>)
    requires whole == [h] + t && merged == [h] + rest
    requires multiset(rest) == multiset(t) + multiset(other) || multiset(rest) == multiset(other) + multiset(t)
    ensures multiset(merged) == multiset(whole) + multiset(other)
    ensures multiset(merged) == multiset(other) + multiset(whole)
  {
    assert multiset(rest) == multiset(t) + multiset(other);
  }

  /** The merge is as long as both runs together. */
  lemma MergeLength<T>(x: seq<T>, y: seq<T>, key: T -> int)
    ensures |Merge(x, y, key)| == |x| + |y|
  {
    MergePermutation(x, y, key);
    assert |multiset(Merge(x, y, key))| == |multiset(x) + multiset(y)|;
  }

  /** Every element of the merge has a key at least `lo` when every element of both runs has. */
  lemma MergeKeysAtLeast<T>(x: seq<T>, y: seq<T>, key: T -> int, lo: int)
    requires forall u :: u in x ==> lo <= key(u)
    requires forall v :: v in y ==> lo <= key(v)
    ensures forall k :: 0 <= k < |Merge(x, y, key)| ==> lo <= key(Merge(x, y, key)[k])
  {
    var m := Merge(x, y, key);
    MergePermutation(x, y, key);
    forall k | 0 <= k < |m| ensures lo <= key(m[k]) {
      assert m[k] in multiset(m);
    }
  }

  /** Merging two sorted runs gives a sorted run. */
  lemma {:induction false} MergeSorted<T>(x: seq<T>, y: seq<T>, key: T -> int)
    requires SortedBy(x, key) && SortedBy(y, key)
    ensures SortedBy(Merge(x, y, key), key)
    decreases |x| + |y|
  {
    if x != [] && y != [] {
      if key(x[0]) <= key(y[0]) {
        MergeSorted(x[1..], y, key);
        forall u | u in x[1..] ensures key(x[0]) <= key(u) {
          var k :| 0 <= k < |x[1..]| && x[1..][k] == u;
          assert x[k + 1] == u;
        }
        forall v | v in y ensures key(x[0]) <= key(v) {
          var k :| 0 <= k < |y| && y[k] == v;
          assert key(y[0]) <= key(y[k]) || k == 0;
        }
        MergeKeysAtLeast(x[1..], y, key, key(x[0]));
      } else {
        MergeSorted(x, y[1..], key);
        forall u | u in x ensures key(y[0]) <= key(u) {
          var k :| 0 <= k < |x| && x[k] == u;
          assert key(x[0]) <= key(x[k]) || k == 0;
        }
        forall v | v in y[1..] ensures key(y[0]) <= key(v) {
          var k :| 0 <= k < |y[1..]| && y[1..][k] == v;
          assert y[k + 1] == v;
        }
        MergeKeysAtLeast(x, y[1..], key, key(y[0]));
      }
    }
  }

  /**
   * Ties-in-order splits over concatenation: `a + b` keeps equal keys in tag
   * order exactly when `a` and `b` each do and `a`'s elements precede `b`'s
   * equal-keyed ones.
   */
  lemma TiesInOrderConcat<T>(a: seq<T>, b: seq<T>, key: T -> int, pos: T -> int)
    ensures TiesInOrder(a + b, key, pos) <==>
            TiesInOrder(a, key, pos) && TiesInOrder(b, key, pos) && TiesPrecede(a, b, key, pos)
  {
    var s := a + b;
    if TiesInOrder(s, key, pos) {
      forall i, j | 0 <= i < j < |a| && key(a[i]) == key(a[j]) ensures pos(a[i]) < pos(a[j]) {
        assert s[i] == a[i] && s[j] == a[j];
      }
      forall i, j | 0 <= i < j < |b| && key(b[i]) == key(b[j]) ensures pos(b[i]) < pos(b[j]) {
        assert s[|a| + i] == b[i] && s[|a| + j] == b[j];
      }
      forall u, v | u in a && v in b && key(u) == key(v) ensures pos(u) < pos(v) {
        var i :| 0 <= i < |a| && a[i] == u;
        var j :| 0 <= j < |b| && b[j] == v;
        assert s[i] == u && s[|a| + j] == v;
      }
    }
    if TiesInOrder(a, key, pos) && TiesInOrder(b, key, pos) && TiesPrecede(a, b, key, pos) {
      forall i, j | 0 <= i < j < |s| && key(s[i]) == key(s[j]) ensures pos(s[i]) < pos(s[j]) {
        if j < |a| {
          assert s[i] == a[i] && s[j] == a[j];
        } else if |a| <= i {
          assert s[i] == b[i - |a|] && s[j] == b[j - |a|];
        } else {
          assert s[i] == a[i] && s[j] == b[j - |a|];
        }
      }
    }
  }

  /** Whether ties precede depends only on which elements the runs hold. */
  lemma TiesPrecedeByContents<T>(x: seq<T>, y: seq<T>, x': seq<T>, y': seq<T>, key: T -> int, pos: T -> int)
    requires multiset(x') == multiset(x) && multiset(y') == multiset(y)
    requires TiesPrecede(x, y, key, pos)
    ensures TiesPrecede(x', y', key, pos)
  {
    forall u, v | u in x' && v in y' && key(u) == key(v) ensures pos(u) < pos(v) {
      assert u in multiset(x') && v in multiset(y');
    }
  }

  /** A head whose equal-keyed successors all carry larger tags keeps ties in order. */
  lemma ConsTiesInOrder<T>(h: T, rest: seq<T>, key: T -> int, pos: T -> int)
    requires TiesInOrder(rest, key, pos)
    requires forall k :: 0 <= k < |rest| && key(rest[k]) == key(h) ==> pos(h) < pos(rest[k])
    ensures TiesInOrder([h] + rest, key, pos)
  {
    var s := [h] + rest;
    forall i, j | 0 <= i < j < |s| && key(s[i]) == key(s[j]) ensures pos(s[i]) < pos(s[j]) {
      assert s[j] == rest[j - 1];
      if i > 0 {
        assert s[i] == rest[i - 1];
      }
    }
  }

  /**
   * The left-first tie-break makes the merge stable: if equal keys are in tag
   * order within each sorted run, and the left run's elements come before the
   * right run's equal-keyed ones, the merge keeps equal keys in tag order.
   */
  lemma {:induction false} MergeStable<T>(x: seq<T>, y: seq<T>, key: T -> int, pos: T -> int)
    requires SortedBy(x, key) && SortedBy(y, key)
    requires TiesInOrder(x, key, pos) && TiesInOrder(y, key, pos)
    requires TiesPrecede(x, y, key, pos)
    ensures TiesInOrder(Merge(x, y, key), key, pos)
    decreases |x| + |y|
  {
    if x != [] && y != [] {
      if key(x[0]) <= key(y[0]) {
        MergeStableTakeLeft(x, y, key, pos);
      } else {
        MergeStableTakeRight(x, y, key, pos);
      }
    }
  }

  /** The step of MergeStable where the head of the left run is taken. */
  lemma {:induction false} MergeStableTakeLeft<T>(x: seq<T>, y: seq<T>, key: T -> int, pos: T -> int)
    requires x != [] && y != [] && key(x[0]) <= key(y[0])
    requires SortedBy(x, key) && SortedBy(y, key)
    requires TiesInOrder(x, key, pos) && TiesInOrder(y, key, pos)
    requires TiesPrecede(x, y, key, pos)
    ensures TiesInOrder(Merge(x, y, key), key, pos)
    decreases |x| + |y|, 0
  {
    var rest := Merge(x[1..], y, key);
    DropHead(x, key, pos);
    assert TiesPrecede(x[1..], y, key, pos) by {
      forall u | u in x[1..] ensures u in x { }
    }
    MergeStable(x[1..], y, key, pos);
    MergePermutation(x[1..], y, key);
    LeftHeadFirst(x, y, rest, key, pos);
    ConsTiesInOrder(x[0], rest, key, pos);
  }

  /** The step of MergeStable where the head of the right run is taken. */
  lemma {:induction false} MergeStableTakeRight<T>(x: seq<T>, y: seq<T>, key: T -> int, pos: T -> int)
    requires x != [] && y != [] && key(y[0]) < key(x[0])
    requires SortedBy(x, key) && SortedBy(y, key)
    requires TiesInOrder(x, key, pos) && TiesInOrder(y, key, pos)
    requires TiesPrecede(x, y, key, pos)
    ensures TiesInOrder(Merge(x, y, key), key, pos)
    decreases |x| + |y|, 0
  {
    var rest := Merge(x, y[1..], key);
    DropHead(y, key, pos);
    assert TiesPrecede(x, y[1..], key, pos) by {
      forall v | v in y[1..] ensures v in y { }
    }
    MergeStable(x, y[1..], key, pos);
    MergePermutation(x, y[1..], key);
    RightHeadFirst(x, y, rest, key, pos);
    ConsTiesInOrder(y[0], rest, key, pos);
  }

  /** Dropping the head of a run keeps it sorted and its ties in order. */
  lemma DropHead<T>(x: seq<T>, key: T -> int, pos: T -> int)
    requires x != [] && SortedBy(x, key) && TiesInOrder(x, key, pos)
    ensures SortedBy(x[1..], key) && TiesInOrder(x[1..], key, pos)
  {
    assert x[1..|x|] == x[1..];
    SortedSlice(x, 1, |x|, key);
    TiesInOrderSlice(x, 1, |x|, key, pos);
  }

  /**
   * When the left head is taken, it carries a smaller tag than every
   * equal-keyed element of the rest of the merge.
   */
  lemma LeftHeadFirst<T>(x: seq<T>, y: seq<T>, rest: seq<T>, key: T -> int, pos: T -> int)
    requires x != [] && TiesInOrder(x, key, pos) && TiesPrecede(x, y, key, pos)
    requires multiset(rest) == multiset(x[1..]) + multiset(y)
    ensures forall k :: 0 <= k < |rest| && key(rest[k]) == key(x[0]) ==> pos(x[0]) < pos(rest[k])
  {
    var tail := x[1..];
    forall k | 0 <= k < |rest| && key(rest[k]) == key(x[0]) ensures pos(x[0]) < pos(rest[k]) {
      var v := rest[k];
      assert v in multiset(rest);
      if v in tail {
        var i :| 0 <= i < |tail| && tail[i] == v;
        assert x[i + 1] == v;
      } else {
        assert v in y;
      }
    }
  }

  /**
   * When the right head is taken, its key is below every key of the left
   * run, so only elements of the right run can tie with it, and those come
   * after it.
   */
  lemma RightHeadFirst<T>(x: seq<T>, y: seq<T>, rest: seq<T>, key: T -> int, pos: T -> int)
    requires x != [] && y != [] && key(y[0]) < key(x[0])
    requires SortedBy(x, key) && TiesInOrder(y, key, pos)
    requires multiset(rest) == multiset(x) + multiset(y[1..])
    ensures forall k :: 0 <= k < |rest| && key(rest[k]) == key(y[0]) ==> pos(y[0]) < pos(rest[k])
  {
    var tail := y[1..];
    forall k | 0 <= k < |rest| && key(rest[k]) == key(y[0]) ensures pos(y[0]) < pos(rest[k]) {
      var v := rest[k];
      assert v in multiset(rest);
      if v in tail {
        var i :| 0 <= i < |tail| && tail[i] == v;
        assert y[i + 1] == v;
      }
    }
  }

  /**
   * On two runs that together are already in order the merge is their
   * concatenation; on equal keys at the seam it is the left-first tie-break
   * that keeps the left run in front.
   */
  lemma {:induction false} MergeOfOrderedRuns<T>(x: seq<T>, y: seq<T>, key: T -> int)
    requires SortedBy(x + y, key)
    ensures Merge(x, y, key) == x + y
    decreases |x|
  {
    if x != [] && y != [] {
      assert (x + y)[0] == x[0] && (x + y)[|x|] == y[0];
      assert x[1..] + y == (x + y)[1..];
      MergeOfOrderedRuns(x[1..], y, key);
      assert x == [x[0]] + x[1..];
    }
  }

  // ---------------------------------------------------------------------
  // Sort

  /** Merge sort's result is a permutation of its input. */
  lemma {:induction false} SortPermutation<T>(s: seq<T>, key: T -> int)
    ensures multiset(Sort(s, key)) == multiset(s)
    decreases |s|
  {
    if |s| > 1 {
      var mid := (|s| - 1) / 2;
      var left, right := s[..mid + 1], s[mid + 1..];
      assert Sort(s, key) == Merge(Sort(left, key), Sort(right, key), key);
      SortPermutation(left, key);
      SortPermutation(right, key);
      MergePermutation(Sort(left, key), Sort(right, key), key);
      assert s == left + right;
    }
  }

  /** Merge sort keeps the length of its input. */
  lemma {:induction false} SortLength<T>(s: seq<T>, key: T -> int)
    ensures |Sort(s, key)| == |s|
    decreases |s|
  {
    if |s| > 1 {
      var mid := (|s| - 1) / 2;
      SortLength(s[..mid + 1], key);
      SortLength(s[mid + 1..], key);
      MergeLength(Sort(s[..mid + 1], key), Sort(s[mid + 1..], key), key);
    }
  }

  /** Merge sort's result is sorted. */
  lemma {:induction false} SortSorted<T>(s: seq<T>, key: T -> int)
    ensures SortedBy(Sort(s, key), key)
    decreases |s|
  {
    if |s| > 1 {
      var mid := (|s| - 1) / 2;
      SortSorted(s[..mid + 1], key);
      SortSorted(s[mid + 1..], key);
      MergeSorted(Sort(s[..mid + 1], key), Sort(s[mid + 1..], key), key);
    }
  }

  /** Merge sort is stable: equal keys keep their relative order. */
  lemma {:induction false} SortStable<T>(s: seq<T>, key: T -> int, pos: T -> int)
    requires TiesInOrder(s, key, pos)
    ensures TiesInOrder(Sort(s, key), key, pos)
    decreases |s|
  {
    if |s| > 1 {
      var mid := (|s| - 1) / 2;
      var left, right := s[..mid + 1], s[mid + 1..];
      assert s == left + right;
      TiesInOrderConcat(left, right, key, pos);
      SortStable(left, key, pos);
      SortStable(right, key, pos);
      SortSorted(left, key);
      SortSorted(right, key);
      SortPermutation(left, key);
      SortPermutation(right, key);
      TiesPrecedeByContents(left, right, Sort(left, key), Sort(right, key), key, pos);
      MergeStable(Sort(left, key), Sort(right, key), key, pos);
    }
  }

  /** Merge sort leaves an already sorted sequence exactly as it is. */
  lemma {:induction false} SortFixesSorted<T>(s: seq<T>, key: T -> int)
    requires SortedBy(s, key)
    ensures Sort(s, key) == s
    decreases |s|
  {
    if |s| > 1 {
      var mid := (|s| - 1) / 2;
      var left, right := s[..mid + 1], s[mid + 1..];
      assert s == left + right;
      assert s[0..mid + 1] == left && s[mid + 1..|s|] == right;
      SortedSlice(s, 0, mid + 1, key);
      SortedSlice(s, mid + 1, |s|, key);
      SortFixesSorted(left, key);
      SortFixesSorted(right, key);
      MergeOfOrderedRuns(left, right, key);
    }
  }

  /** Sorting twice gives the same result as sorting once. */
  lemma SortIdempotent<T>(s: seq<T>, key: T -> int)
    ensures Sort(Sort(s, key), key) == Sort(s, key)
  {
    SortSorted(s, key);
    SortFixesSorted(Sort(s, key), key);
  }

  // ---------------------------------------------------------------------
  // Plain ints

  /** The least element of an ascending int sequence is its head. */
  lemma AscendingHeadIsLeast(x: seq<int>, v: int)
    requires SortedBy(x, IntKey) && v in x
    ensures x[0] <= v
  {
    var i :| 0 <= i < |x| && x[i] == v;
    assert IntKey(x[0]) <= IntKey(x[i]) || i == 0;
  }

  /** Two nonempty ascending int sequences with the same elements have the same head. */
  lemma AscendingSameHead(x: seq<int>, y: seq<int>)
    requires x != [] && y != []
    requires SortedBy(x, IntKey) && SortedBy(y, IntKey)
    requires multiset(x) == multiset(y)
    ensures x[0] == y[0]
  {
    assert y[0] in multiset(x) && x[0] in multiset(y);
    AscendingHeadIsLeast(x, y[0]);
    AscendingHeadIsLeast(y, x[0]);
  }

  /** Sequences with the same elements and the same head have the same elements after it. */
  lemma SameTailElements<T>(x: seq<T>, y: seq<T>)
    requires x != [] && y != [] && x[0] == y[0]
    requires multiset(x) == multiset(y)
    ensures multiset(x[1..]) == multiset(y[1..])
  {
    assert x == [x[0]] + x[1..] && y == [y[0]] + y[1..];
    assert multiset(x[1..]) == multiset(x) - multiset{x[0]};
    assert multiset(y[1..]) == multiset(y) - multiset{y[0]};
  }

  /** Two ascending int sequences with the same elements are equal. */
  lemma {:induction false} SortedPermutationUnique(x: seq<int>, y: seq<int>)
    requires SortedBy(x, IntKey) && SortedBy(y, IntKey)
    requires multiset(x) == multiset(y)
    ensures x == y
    decreases |x|
  {
    assert |x| == |multiset(x)| == |y|;
    if x != [] {
      AscendingSameHead(x, y);
      SameTailElements(x, y);
      assert x[1..|x|] == x[1..] && y[1..|y|] == y[1..];
      SortedSlice(x, 1, |x|, IntKey);
      SortedSlice(y, 1, |y|, IntKey);
      SortedPermutationUnique(x[1..], y[1..]);
      assert x == [x[0]] + x[1..] && y == [y[0]] + y[1..];
    }
  }

  /** On ints, merge sort's result is exactly the ascending permutation of its input. */
  lemma SortIsAscendingPermutation(s: seq<int>, t: seq<int>)
    ensures t == Sort(s, IntKey) <==> SortedBy(t, IntKey) && multiset(t) == multiset(s)
  {
    SortSorted(s, IntKey);
    SortPermutation(s, IntKey);
    if SortedBy(t, IntKey) && multiset(t) == multiset(s) {
      SortedPermutationUnique(t, Sort(s, IntKey));
    }
  }
}
