/**
 * The two-phase parallel sort of the program's main routine. The root's
 * array of N ints is cut into W blocks of N/W (MPI_Scatter from rank 0),
 * every rank sorts its block with the sequential merge sort, the sorted
 * blocks are collected at the root in rank order (MPI_Gather), and the
 * root runs the sequential merge sort once more over the whole array.
 *
 * The value-level functions below say what each phase computes; the lemmas
 * prove that the result is the sorted permutation of the input (the very
 * result the sequential sort gives), and that the pipeline is stable.
 * `RunPipeline` runs the ranks one after another over arrays and is proved
 * to compute `TwoPhaseSort`.
 */
module Pipeline {
  import Sorting
  import MergeSortArray

  // ---------------------------------------------------------------------
  // Block arithmetic

  /** A length that W divides is W blocks of length/W. */
  lemma DivExact(len: int, w: int)
    requires 0 <= len && 0 < w && len % w == 0
    ensures len == w * (len / w) && 0 <= len / w
  {
  }

  /** Block r of W blocks of length n starts at r*n and ends at (r+1)*n <= W*n. */
  lemma BlockBounds(r: int, w: int, n: int)
    requires 0 <= r < w && 0 <= n
    ensures 0 <= r * n && r * n + n == (r + 1) * n && (r + 1) * n <= w * n
  {
    assert (w - (r + 1)) * n >= 0;
    assert w * n - (r + 1) * n == (w - (r + 1)) * n;
  }

  // ---------------------------------------------------------------------
  // The phases as functions

  /**
   * MPI_Scatter from the root: rank r receives the r-th block of |s|/w
   * elements.
   */
  function Scatter<T>(s: seq<T>, w: nat): (blocks: seq<seq<T>>)
    requires 0 < w && |s| % w == 0
    ensures |blocks| == w
    ensures forall r :: 0 <= r < w ==> |blocks[r]| == |s| / w
  {
    DivExact(|s|, w);
    var n := |s| / w;
    seq(w, r requires 0 <= r < w => BlockBounds(r, w, n); Block(s, n, r))
  }

  /** Rank r's scattered block is the slice [r*N/W, (r+1)*N/W) of the root's array. */
  lemma ScatterBlock<T>(s: seq<T>, w: nat, r: int)
    requires 0 < w && |s| % w == 0 && 0 <= r < w
    ensures 0 <= r * (|s| / w) <= (r + 1) * (|s| / w) <= |s|
    ensures Scatter(s, w)[r] == s[r * (|s| / w)..(r + 1) * (|s| / w)]
  {
    DivExact(|s|, w);
    BlockBounds(r, w, |s| / w);
  }

  /** The r-th block of length n of `s`. */
  function Block<T>(s: seq<T>, n: nat, r: nat): (block: seq<T>)
    requires r * n + n == (r + 1) * n <= |s|
    ensures |block| == n
  {
    s[r * n..(r + 1) * n]
  }

  /** Every rank sorts its own block with the sequential merge sort. */
  function SortEach<T>(blocks: seq<seq<T>>, key: T -> int): (sorted: seq<seq<T>>)
    ensures |sorted| == |blocks|
    ensures forall r :: 0 <= r < |blocks| ==> sorted[r] == Sorting.Sort(blocks[r], key)
  {
    seq(|blocks|, r requires 0 <= r < |blocks| => Sorting.Sort(blocks[r], key))
  }

  /**
   * MPI_Gather at the root: the blocks are laid out one after another in
   * rank order.
   */
  function Gather<T>(blocks: seq<seq<T>>): seq<T>
    decreases |blocks|
  {
    if blocks == [] then [] else Gather(blocks[..|blocks| - 1]) + blocks[|blocks| - 1]
  }

  /** What the root holds after the gather: the sorted blocks in rank order. */
  function Gathered<T>(s: seq<T>, w: nat, key: T -> int): seq<T>
    requires 0 < w && |s| % w == 0
  {
    Gather(SortEach(Scatter(s, w), key))
  }

  /** The whole pipeline: the root's final merge sort over the gathered array. */
  function TwoPhaseSort<T>(s: seq<T>, w: nat, key: T -> int): (sorted: seq<T>)
    requires 0 < w && |s| % w == 0
    ensures Sorting.SortedBy(sorted, key)
    ensures multiset(sorted) == multiset(s)
  {
    var gathered := Gathered(s, w, key);
    Sorting.SortSorted(gathered, key);
    Sorting.SortPermutation(gathered, key);
    GatheredPermutation(s, w, key);
    Sorting.Sort(gathered, key)
  }

  // ---------------------------------------------------------------------
  // Gather

  /** The gathered array is as long as all blocks together. */
  lemma {:induction false} GatherLength<T>(blocks: seq<seq<T>>, n: int)
    requires forall r :: 0 <= r < |blocks| ==> |blocks[r]| == n
    ensures |Gather(blocks)| == |blocks| * n
    decreases |blocks|
  {
    if blocks != [] {
      var init := blocks[..|blocks| - 1];
      GatherLength(init, n);
      assert |blocks| * n == (|blocks| - 1) * n + n;
    }
  }

  /**
   * With blocks of equal length n, rank r's block lands at offsets
   * [r*n, (r+1)*n) of the gathered array.
   */
  lemma {:induction false} GatherBlock<T>(blocks: seq<seq<T>>, n: int, r: int)
    requires 0 <= n && 0 <= r < |blocks|
    requires forall q :: 0 <= q < |blocks| ==> |blocks[q]| == n
    ensures |Gather(blocks)| == |blocks| * n
    ensures 0 <= r * n && (r + 1) * n <= |blocks| * n
    ensures Gather(blocks)[r * n..(r + 1) * n] == blocks[r]
    decreases |blocks|
  {
    BlockBounds(r, |blocks|, n);
    GatherLength(blocks, n);
    var init := blocks[..|blocks| - 1];
    GatherLength(init, n);
    if r < |blocks| - 1 {
      GatherBlock(init, n, r);
      assert Gather(blocks)[r * n..(r + 1) * n] == Gather(init)[r * n..(r + 1) * n];
    }
  }

  /** Scatter then gather gives back the root's array. */
  lemma ScatterGather<T>(s: seq<T>, w: nat)
    requires 0 < w && |s| % w == 0
    ensures Gather(Scatter(s, w)) == s
  {
    DivExact(|s|, w);
    GatherPrefix(s, w, w);
    assert Scatter(s, w)[..w] == Scatter(s, w);
    assert s[..w * (|s| / w)] == s;
  }

  /** The first r scattered blocks, gathered, are the first r*n elements. */
  lemma {:induction false} GatherPrefix<T>(s: seq<T>, w: nat, r: int)
    requires 0 < w && |s| % w == 0 && 0 <= r <= w
    ensures 0 <= r * (|s| / w) <= |s|
    ensures Gather(Scatter(s, w)[..r]) == s[..r * (|s| / w)]
    decreases r
  {
    DivExact(|s|, w);
    var n := |s| / w;
    if r > 0 {
      BlockBounds(r - 1, w, n);
      GatherPrefix(s, w, r - 1);
      var blocks := Scatter(s, w)[..r];
      assert blocks[..r - 1] == Scatter(s, w)[..r - 1];
      assert s[..r * n] == s[..(r - 1) * n] + s[(r - 1) * n..r * n];
    } else {
      assert r * n == 0;
    }
  }

  /** Blocks with the same contents, block by block, gather to the same contents. */
  lemma {:induction false} GatherPermutation<T>(blocks: seq<seq<T>>, blocks': seq<seq<T>>)
    requires |blocks'| == |blocks|
    requires forall r :: 0 <= r < |blocks| ==> multiset(blocks'[r]) == multiset(blocks[r])
    ensures multiset(Gather(blocks')) == multiset(Gather(blocks))
    decreases |blocks|
  {
    if blocks != [] {
      var k := |blocks| - 1;
      GatherPermutation(blocks[..k], blocks'[..k]);
    }
  }

  /**
   * If the gathered original blocks keep equal keys in order, and every new
   * block has the contents of the old one with its own ties in order, the
   * gathered new blocks keep equal keys in order too.
   */
  lemma {:induction false} GatherTiesInOrder<T>(blocks: seq<seq<T>>, blocks': seq<seq<T>>, key: T -> int, pos: T -> int)
    requires |blocks'| == |blocks|
    requires forall r :: 0 <= r < |blocks| ==> multiset(blocks'[r]) == multiset(blocks[r])
    requires forall r :: 0 <= r < |blocks| ==> Sorting.TiesInOrder(blocks'[r], key, pos)
    requires Sorting.TiesInOrder(Gather(blocks), key, pos)
    ensures Sorting.TiesInOrder(Gather(blocks'), key, pos)
    decreases |blocks|
  {
    if blocks != [] {
      var k := |blocks| - 1;
      var g, g' := Gather(blocks[..k]), Gather(blocks'[..k]);
      Sorting.TiesInOrderConcat(g, blocks[k], key, pos);
      GatherTiesInOrder(blocks[..k], blocks'[..k], key, pos);
      GatherPermutation(blocks[..k], blocks'[..k]);
      Sorting.TiesPrecedeByContents(g, blocks[k], g', blocks'[k], key, pos);
      Sorting.TiesInOrderConcat(g', blocks'[k], key, pos);
    }
  }

  // ---------------------------------------------------------------------
  // What the pipeline computes

  /** The gathered array is a permutation of the root's array. */
  lemma GatheredPermutation<T>(s: seq<T>, w: nat, key: T -> int)
    requires 0 < w && |s| % w == 0
    ensures multiset(Gathered(s, w, key)) == multiset(s)
  {
    var blocks := Scatter(s, w);
    var sorted := SortEach(blocks, key);
    forall r | 0 <= r < w ensures multiset(sorted[r]) == multiset(blocks[r]) {
      Sorting.SortPermutation(blocks[r], key);
    }
    GatherPermutation(blocks, sorted);
    ScatterGather(s, w);
  }

  /**
   * After the gather the root holds W sorted runs of N/W: rank r's block,
   * sorted, at offsets [r*N/W, (r+1)*N/W).
   */
  lemma GatheredRuns<T>(s: seq<T>, w: nat, key: T -> int, n: int, r: int)
    requires 0 < w && |s| % w == 0 && n == |s| / w && 0 <= r < w
    ensures |Gathered(s, w, key)| == |s|
    ensures 0 <= r * n && (r + 1) * n <= |s|
    ensures Gathered(s, w, key)[r * n..(r + 1) * n] == Sorting.Sort(s[r * n..(r + 1) * n], key)
    ensures Sorting.SortedBy(Gathered(s, w, key)[r * n..(r + 1) * n], key)
  {
    DivExact(|s|, w);
    var blocks := Scatter(s, w);
    var sorted := SortEach(blocks, key);
    forall q | 0 <= q < w ensures |sorted[q]| == n {
      Sorting.SortLength(blocks[q], key);
    }
    GatherBlock(sorted, n, r);
    Sorting.SortSorted(blocks[r], key);
  }

  /**
   * The pipeline is stable: elements with equal keys leave in the order in
   * which they stood in the root's array.
   */
  lemma TwoPhaseSortStable<T>(s: seq<T>, w: nat, key: T -> int, pos: T -> int)
    requires 0 < w && |s| % w == 0
    requires Sorting.TiesInOrder(s, key, pos)
    ensures Sorting.TiesInOrder(TwoPhaseSort(s, w, key), key, pos)
  {
    DivExact(|s|, w);
    var n := |s| / w;
    var blocks := Scatter(s, w);
    var sorted := SortEach(blocks, key);
    ScatterGather(s, w);
    forall r | 0 <= r < w
      ensures multiset(sorted[r]) == multiset(blocks[r])
      ensures Sorting.TiesInOrder(sorted[r], key, pos)
    {
      BlockBounds(r, w, n);
      Sorting.TiesInOrderSlice(s, r * n, (r + 1) * n, key, pos);
      Sorting.SortPermutation(blocks[r], key);
      Sorting.SortStable(blocks[r], key, pos);
    }
    GatherTiesInOrder(blocks, sorted, key, pos);
    Sorting.SortStable(Gathered(s, w, key), key, pos);
  }

  /** On an already sorted array the pipeline changes nothing. */
  lemma TwoPhaseSortOfSorted<T>(s: seq<T>, w: nat, key: T -> int)
    requires 0 < w && |s| % w == 0
    requires Sorting.SortedBy(s, key)
    ensures TwoPhaseSort(s, w, key) == s
  {
    DivExact(|s|, w);
    var n := |s| / w;
    var blocks := Scatter(s, w);
    var sorted := SortEach(blocks, key);
    forall r | 0 <= r < w ensures sorted[r] == blocks[r] {
      BlockBounds(r, w, n);
      Sorting.SortedSlice(s, r * n, (r + 1) * n, key);
      Sorting.SortFixesSorted(blocks[r], key);
    }
    assert sorted == blocks;
    ScatterGather(s, w);
    Sorting.SortFixesSorted(s, key);
  }

  /** Running the pipeline on its own output changes nothing. */
  lemma TwoPhaseSortIdempotent<T>(s: seq<T>, w: nat, key: T -> int)
    requires 0 < w && |s| % w == 0
    ensures |TwoPhaseSort(s, w, key)| == |s|
    ensures TwoPhaseSort(TwoPhaseSort(s, w, key), w, key) == TwoPhaseSort(s, w, key)
  {
    var t := TwoPhaseSort(s, w, key);
    assert |t| == |multiset(t)| == |multiset(s)| == |s|;
    TwoPhaseSortOfSorted(t, w, key);
  }

  /**
   * On the source's ints the pipeline gives exactly what one sequential
   * merge sort over the whole array gives, whatever the number of ranks.
   */
  lemma TwoPhaseSortMatchesSequential(s: seq<int>, w: nat)
    requires 0 < w && |s| % w == 0
    ensures TwoPhaseSort(s, w, Sorting.IntKey) == Sorting.Sort(s, Sorting.IntKey)
  {
    Sorting.SortIsAscendingPermutation(s, TwoPhaseSort(s, w, Sorting.IntKey));
  }

  // ---------------------------------------------------------------------
  // The pipeline over arrays

  /**
   * The main routine with the ranks run one after another: the local
   * phase fills the root's receive buffer with the sorted blocks, and the
   * root then sorts the whole buffer with a scratch array of N ints.
   */
  method RunPipeline(global: array<int>, worldSize: nat) returns (sorted: array<int>)
    requires 0 < worldSize && global.Length % worldSize == 0
    ensures fresh(sorted)
    ensures sorted[..] == TwoPhaseSort(global[..], worldSize, Sorting.IntKey)
  {
    sorted := ScatterSortGather(global, worldSize);
    var tempArray1 := new int[global.Length];
    ghost var gathered := sorted[..];
    MergeSortArray.MergeSort(sorted, tempArray1, 0, global.Length - 1);
    WholeRange(gathered, sorted[..]);
  }

  /** Sorting the whole range [0, N-1] leaves nothing outside it. */
  lemma WholeRange(g: seq<int>, after: seq<int>)
    requires after == g[..0] + Sorting.Sort(g[0..|g|], Sorting.IntKey) + g[|g|..]
    ensures after == Sorting.Sort(g, Sorting.IntKey)
  {
    assert g[..0] == [] && g[0..|g|] == g && g[|g|..] == [];
  }

  /**
   * The local phase: rank r copies its block of N/W elements out of the
   * root's array, sorts it with a scratch array of its own, and copies it
   * into the root's receive buffer at offset r*N/W.
   */
  method ScatterSortGather(global: array<int>, worldSize: nat) returns (sorted: array<int>)
    requires 0 < worldSize && global.Length % worldSize == 0
    ensures fresh(sorted) && sorted.Length == global.Length
    ensures sorted[..] == Gathered(global[..], worldSize, Sorting.IntKey)
  {
    DivExact(global.Length, worldSize);
    var localSize := global.Length / worldSize;
    ghost var blocks := SortEach(Scatter(global[..], worldSize), Sorting.IntKey);
    sorted := new int[global.Length];
    ghost var initial := sorted[..];
    var rank := 0;
    while rank < worldSize
      invariant 0 <= rank <= worldSize
      invariant 0 <= rank * localSize <= global.Length
      invariant sorted[..] == Gather(blocks[..rank]) + initial[rank * localSize..]
    {
      BlockBounds(rank, worldSize, localSize);
      var localArray := SortLocalBlock(global, localSize, rank);
      ghost var before := sorted[..];
      MergeSortArray.CopyRange(localArray, sorted, 0, localSize, rank * localSize);
      GatherStep(global[..], worldSize, localSize, rank, localArray[..], before, sorted[..], blocks, initial);
      rank := rank + 1;
    }
    assert blocks[..worldSize] == blocks;
  }

  /**
   * One rank's work between the scatter and the gather: receive the block
   * [rank*n, (rank+1)*n) into a local array of n ints and merge-sort it.
   */
  method SortLocalBlock(global: array<int>, n: int, rank: int) returns (local: array<int>)
    requires 0 <= n && 0 <= rank * n && rank * n + n == (rank + 1) * n <= global.Length
    ensures fresh(local) && local.Length == n
    ensures local[..] == Sorting.Sort(global[rank * n..(rank + 1) * n], Sorting.IntKey)
  {
    local := new int[n];
    ghost var empty := local[..];
    MergeSortArray.CopyRange(global, local, rank * n, (rank + 1) * n, 0);
    ghost var block := local[..];
    var tempArray := new int[n];
    MergeSortArray.MergeSort(local, tempArray, 0, n - 1);
    ReceivedBlock(global[..], rank * n, (rank + 1) * n, empty, block, local[..]);
  }

  /** The received block is the source slice, and its sorted copy is Sort of it. */
  lemma ReceivedBlock(s: seq<int>, from: int, to: int, empty: seq<int>, block: seq<int>, after: seq<int>)
    requires 0 <= from <= to <= |s| && |empty| == to - from
    requires block == empty[..0] + s[from..to] + empty[0 + (to - from)..]
    requires after == block[..0] + Sorting.Sort(block[0..|block|], Sorting.IntKey) + block[|block|..]
    ensures after == Sorting.Sort(s[from..to], Sorting.IntKey)
  {
    assert block == s[from..to];
    WholeRange(block, after);
  }

  /**
   * One rank of the local phase on snapshots: the sorted block is that
   * rank's entry of SortEach, and copying it into the receive buffer at
   * offset rank*n extends the gathered prefix by that entry.
   */
  lemma GatherStep(s: seq<int>, w: nat, n: int, rank: int, local: seq<int>,
                   before: seq<int>, after: seq<int>, blocks: seq<seq<int>>, initial: seq<int>)
    requires 0 < w && |s| % w == 0 && n == |s| / w && 0 <= rank < w && |initial| == |s|
    requires 0 <= rank * n && rank * n + n == (rank + 1) * n && (rank + 1) * n <= |s|
    requires local == Sorting.Sort(s[rank * n..(rank + 1) * n], Sorting.IntKey)
    requires blocks == SortEach(Scatter(s, w), Sorting.IntKey)
    requires before == Gather(blocks[..rank]) + initial[rank * n..]
    requires |before| == |s| && |local| == n
    requires after == before[..rank * n] + local[0..n] + before[rank * n + (n - 0)..]
    ensures after == Gather(blocks[..rank + 1]) + initial[(rank + 1) * n..]
  {
    DivExact(|s|, w);
    assert s[rank * n..(rank + 1) * n] == Scatter(s, w)[rank];
    assert local == blocks[rank];
    forall q | 0 <= q < w ensures |blocks[q]| == n {
      Sorting.SortLength(Scatter(s, w)[q], Sorting.IntKey);
    }
    GatherLength(blocks[..rank], n);
    assert blocks[..rank + 1][..rank] == blocks[..rank];
  }
}
