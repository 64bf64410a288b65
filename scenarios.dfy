/**
 * Two concrete runs of the two-phase sort, worked through on small inputs:
 * eight values over two ranks, and four values over four ranks (one value
 * per rank). The sorts are evaluated merge step by merge step.
 */
module Scenarios {
  import Sorting
  import Pipeline

  /** Sorting two values merges two one-element runs. */
  lemma SortPair(a: int, b: int)
    ensures Sorting.Sort([a, b], Sorting.IntKey) == if a <= b then [a, b] else [b, a]
  {
    assert [a, b][..1] == [a] && [a, b][1..] == [b];
    assert Sorting.Merge([], [b], Sorting.IntKey) == [b];
    assert Sorting.Merge([a], [], Sorting.IntKey) == [a];
    assert [a][1..] == [] && [b][1..] == [];
    assert Sorting.Sort([a], Sorting.IntKey) == [a] && Sorting.Sort([b], Sorting.IntKey) == [b];
    assert Sorting.Sort([a, b], Sorting.IntKey) == Sorting.MergeHalves([a, b], Sorting.IntKey);
    assert Sorting.Sort([a, b], Sorting.IntKey) == Sorting.Merge([a], [b], Sorting.IntKey);
    assert Sorting.Merge([a], [b], Sorting.IntKey) == Sorting.MergeNonEmpty([a], [b], Sorting.IntKey);
  }

  /** Rank 0 of two sorts [5, 3, 8, 1]. */
  lemma LocalSortRank0()
    ensures Sorting.Sort([5, 3, 8, 1], Sorting.IntKey) == [1, 3, 5, 8]
  {
    var s := [5, 3, 8, 1];
    assert s[..2] == [5, 3] && s[2..] == [8, 1];
    SortPair(5, 3);
    SortPair(8, 1);
    assert Sorting.Merge([5], [8], Sorting.IntKey) == [5, 8];
    assert Sorting.Merge([3, 5], [8], Sorting.IntKey) == [3, 5, 8];
    assert Sorting.Merge([3, 5], [1, 8], Sorting.IntKey) == [1, 3, 5, 8];
  }

  /** Rank 1 of two sorts [9, 2, 7, 4]. */
  lemma LocalSortRank1()
    ensures Sorting.Sort([9, 2, 7, 4], Sorting.IntKey) == [2, 4, 7, 9]
  {
    var s := [9, 2, 7, 4];
    assert s[..2] == [9, 2] && s[2..] == [7, 4];
    SortPair(9, 2);
    SortPair(7, 4);
    assert Sorting.Merge([9], [7], Sorting.IntKey) == [7, 9];
    assert Sorting.Merge([9], [4, 7], Sorting.IntKey) == [4, 7, 9];
    assert Sorting.Merge([2, 9], [4, 7], Sorting.IntKey) == [2, 4, 7, 9];
  }

  /** The last five steps of the root's merge of the two gathered runs. */
  lemma RootMergeTail()
    ensures Sorting.Merge([5, 8], [4, 7, 9], Sorting.IntKey) == [4, 5, 7, 8, 9]
  {
    assert Sorting.Merge([8], [9], Sorting.IntKey) == [8, 9];
    assert Sorting.Merge([8], [7, 9], Sorting.IntKey) == [7, 8, 9];
    assert Sorting.Merge([5, 8], [7, 9], Sorting.IntKey) == [5, 7, 8, 9];
  }

  /** The root's merge of the two gathered runs. */
  lemma RootMerge()
    ensures Sorting.Merge([1, 3, 5, 8], [2, 4, 7, 9], Sorting.IntKey) == [1, 2, 3, 4, 5, 7, 8, 9]
  {
    RootMergeTail();
    assert Sorting.Merge([3, 5, 8], [4, 7, 9], Sorting.IntKey) == [3, 4, 5, 7, 8, 9];
    assert Sorting.Merge([3, 5, 8], [2, 4, 7, 9], Sorting.IntKey) == [2, 3, 4, 5, 7, 8, 9];
  }

  /** The root sorts the gathered buffer: its halves are already sorted, so one merge does it. */
  lemma RootSort()
    ensures Sorting.Sort([1, 3, 5, 8, 2, 4, 7, 9], Sorting.IntKey) == [1, 2, 3, 4, 5, 7, 8, 9]
  {
    var g := [1, 3, 5, 8, 2, 4, 7, 9];
    assert g[..4] == [1, 3, 5, 8] && g[4..] == [2, 4, 7, 9];
    assert Sorting.SortedBy([1, 3, 5, 8], Sorting.IntKey);
    assert Sorting.SortedBy([2, 4, 7, 9], Sorting.IntKey);
    Sorting.SortFixesSorted([1, 3, 5, 8], Sorting.IntKey);
    Sorting.SortFixesSorted([2, 4, 7, 9], Sorting.IntKey);
    assert Sorting.Sort(g, Sorting.IntKey) == Sorting.MergeHalves(g, Sorting.IntKey);
    assert Sorting.Sort(g, Sorting.IntKey) == Sorting.Merge([1, 3, 5, 8], [2, 4, 7, 9], Sorting.IntKey);
    RootMerge();
  }

  /** Scattering eight values over two ranks gives each rank four of them. */
  lemma ScatterEightOverTwo()
    ensures Pipeline.Scatter([5, 3, 8, 1, 9, 2, 7, 4], 2) == [[5, 3, 8, 1], [9, 2, 7, 4]]
  {
    var s := [5, 3, 8, 1, 9, 2, 7, 4];
    assert |s| / 2 == 4;
    Pipeline.ScatterBlock(s, 2, 0);
    Pipeline.ScatterBlock(s, 2, 1);
    assert s[0..4] == [5, 3, 8, 1] && s[4..8] == [9, 2, 7, 4];
  }

  /** The root's buffer after the gather holds the two sorted runs in rank order. */
  lemma GatheredEightOverTwo()
    ensures Pipeline.Gathered([5, 3, 8, 1, 9, 2, 7, 4], 2, Sorting.IntKey) == [1, 3, 5, 8, 2, 4, 7, 9]
  {
    ScatterEightOverTwo();
    LocalSortRank0();
    LocalSortRank1();
    var sorted := Pipeline.SortEach([[5, 3, 8, 1], [9, 2, 7, 4]], Sorting.IntKey);
    assert sorted == [[1, 3, 5, 8], [2, 4, 7, 9]];
    var first: seq<seq<int>> := sorted[..1];
    assert first == [[1, 3, 5, 8]];
    assert Pipeline.Gather(first) == [1, 3, 5, 8] by {
      assert first[..0] == [];
    }
    assert Pipeline.Gather(sorted) == [1, 3, 5, 8, 2, 4, 7, 9];
  }

  /**
   * Eight values over two ranks: each rank sorts its half of four values,
   * the gathered buffer holds the two sorted runs one after the other, and
   * the root's final sort produces the ascending list.
   */
  lemma TwoRanksOfFour()
    ensures Pipeline.Scatter([5, 3, 8, 1, 9, 2, 7, 4], 2) == [[5, 3, 8, 1], [9, 2, 7, 4]]
    ensures Pipeline.Gathered([5, 3, 8, 1, 9, 2, 7, 4], 2, Sorting.IntKey) == [1, 3, 5, 8, 2, 4, 7, 9]
    ensures Pipeline.TwoPhaseSort([5, 3, 8, 1, 9, 2, 7, 4], 2, Sorting.IntKey) == [1, 2, 3, 4, 5, 7, 8, 9]
  {
    ScatterEightOverTwo();
    GatheredEightOverTwo();
    RootSort();
  }

  /** The root sorts [4, 3, 2, 1]. */
  lemma RootSortDescending()
    ensures Sorting.Sort([4, 3, 2, 1], Sorting.IntKey) == [1, 2, 3, 4]
  {
    var s := [4, 3, 2, 1];
    assert s[..2] == [4, 3] && s[2..] == [2, 1];
    SortPair(4, 3);
    SortPair(2, 1);
    assert Sorting.Merge([4], [2], Sorting.IntKey) == [2, 4];
    assert Sorting.Merge([3, 4], [2], Sorting.IntKey) == [2, 3, 4];
    assert Sorting.Merge([3, 4], [1, 2], Sorting.IntKey) == [1, 2, 3, 4];
  }

  /**
   * Four values over four ranks: every rank holds one value, so the
   * gathered buffer is the input itself and the root's sort does all the
   * work.
   */
  lemma FourRanksOfOne()
    ensures Pipeline.Gathered([4, 3, 2, 1], 4, Sorting.IntKey) == [4, 3, 2, 1]
    ensures Pipeline.TwoPhaseSort([4, 3, 2, 1], 4, Sorting.IntKey) == [1, 2, 3, 4]
  {
    var s := [4, 3, 2, 1];
    var blocks := Pipeline.Scatter(s, 4);
    assert |s| / 4 == 1;
    Pipeline.ScatterBlock(s, 4, 0);
    Pipeline.ScatterBlock(s, 4, 1);
    Pipeline.ScatterBlock(s, 4, 2);
    Pipeline.ScatterBlock(s, 4, 3);
    assert s[0..1] == [4] && s[1..2] == [3] && s[2..3] == [2] && s[3..4] == [1];
    assert blocks == [[4], [3], [2], [1]];
    assert Pipeline.SortEach(blocks, Sorting.IntKey) == blocks;
    Pipeline.ScatterGather(s, 4);
    RootSortDescending();
  }
}
