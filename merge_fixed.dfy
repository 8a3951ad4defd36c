/** Bottom-up merge sort with the pass bound under which every block pair
    starting inside the buffer is merged, the last one
    possibly short, so no tail of the write buffer is left stale. The
    sort is then a sorted permutation for every length. */
module MergeFixed {
  import opened SortUtil
  import opened MergeSpec

  /** One pass with the block loop running while `i * blockSize < n`: the
      first block of a pair ends at `Min((i + 1) * blockSize, n)`. */
  function FixedPass(read: seq<int>, blockSize: nat): (next: seq<int>)
    requires blockSize > 0
    ensures |next| == |read|
    decreases |read|
  {
    if |read| == 0 then []
    else
      var firstEnd, secondEnd := Min(blockSize, |read|), Min(2 * blockSize, |read|);
      Merge(read[..firstEnd], read[firstEnd..secondEnd]) + FixedPass(read[secondEnd..], blockSize)
  }

  /** The passes of the fixed sort, block size doubling, while `blockSize < n`. */
  function FixedPasses(read: seq<int>, blockSize: nat): (r: seq<int>)
    requires blockSize > 0
    ensures |r| == |read|
    decreases |read| - blockSize
  {
    if blockSize < |read| then FixedPasses(FixedPass(read, blockSize), 2 * blockSize) else read
  }

  /** The fixed sort: passes from block size 1. */
  function FixedBottomUp(s: seq<int>): (r: seq<int>)
    ensures |r| == |s|
  {
    FixedPasses(s, 1)
  }

  /** The first pair of a fixed pass, with the bounds spelled out. */
  lemma FixedPassHead(read: seq<int>, blockSize: nat, firstEnd: nat, secondEnd: nat)
    requires blockSize > 0 && |read| > 0
    requires firstEnd == Min(blockSize, |read|) && secondEnd == Min(2 * blockSize, |read|)
    ensures firstEnd <= secondEnd <= |read|
    ensures FixedPass(read, blockSize) ==
      Merge(read[..firstEnd], read[firstEnd..secondEnd]) + FixedPass(read[secondEnd..], blockSize)
  {
  }

  /** A fixed pass only rearranges the buffer. */
  lemma {:induction false} FixedPassPermutation(read: seq<int>, blockSize: nat)
    requires blockSize > 0
    ensures multiset(FixedPass(read, blockSize)) == multiset(read)
    decreases |read|
  {
    if |read| > 0 {
      var firstEnd, secondEnd := Min(blockSize, |read|), Min(2 * blockSize, |read|);
      FixedPassHead(read, blockSize, firstEnd, secondEnd);
      FixedPassPermutation(read[secondEnd..], blockSize);
      MergePairMultiset(read, firstEnd, secondEnd);
    }
  }

  /** The fixed sort only rearranges its input. */
  lemma {:induction false} FixedPassesPermutation(read: seq<int>, blockSize: nat)
    requires blockSize > 0
    ensures multiset(FixedPasses(read, blockSize)) == multiset(read)
    decreases |read| - blockSize
  {
    if blockSize < |read| {
      FixedPassPermutation(read, blockSize);
      FixedPassesPermutation(FixedPass(read, blockSize), 2 * blockSize);
    }
  }

  /** A short buffer holds a single chunk. */
  lemma ChunksSortedShort(s: seq<int>, c: nat)
    requires c > 0 && |s| <= c
    ensures ChunksSorted(s, c) <==> Sorted(s)
  {
  }

  /** A fixed pass turns sorted blocks into sorted block pairs, whatever the
      length of the buffer. */
  lemma {:induction false} FixedPassChunksSorted(read: seq<int>, blockSize: nat)
    requires blockSize > 0 && ChunksSorted(read, blockSize)
    ensures ChunksSorted(FixedPass(read, blockSize), 2 * blockSize)
    decreases |read|
  {
    var n := |read|;
    if n == 0 {
    } else if n <= 2 * blockSize {
      FixedPassLastSorted(read, blockSize);
    } else {
      var c := 2 * blockSize;
      FixedPassHead(read, blockSize, blockSize, c);
      ChunksSortedSplit(read, blockSize);
      MergeSorted(read[..blockSize], read[blockSize..c]);
      FixedPassChunksSorted(read[c..], blockSize);
      ChunksSortedCons(Merge(read[..blockSize], read[blockSize..c]), FixedPass(read[c..], blockSize), c);
    }
  }

  /** The last, possibly short, pair of a fixed pass is merged into one
      sorted chunk. */
  lemma FixedPassLastSorted(read: seq<int>, blockSize: nat)
    requires blockSize > 0 && 0 < |read| <= 2 * blockSize
    requires ChunksSorted(read, blockSize)
    ensures Sorted(FixedPass(read, blockSize))
  {
    var n := |read|;
    var firstEnd := Min(blockSize, n);
    FixedPassHead(read, blockSize, firstEnd, n);
    assert read[n..] == [] && read[firstEnd..n] == read[firstEnd..];
    assert FixedPass([], blockSize) == [];
    if n <= blockSize {
      assert read[..n] == read;
    } else {
      ChunksSortedShort(read[blockSize..], blockSize);
    }
    MergeSorted(read[..firstEnd], read[firstEnd..]);
    assert FixedPass(read, blockSize) == Merge(read[..firstEnd], read[firstEnd..]) + [];
  }

  lemma {:induction false} FixedPassesSorted(read: seq<int>, blockSize: nat)
    requires blockSize > 0 && ChunksSorted(read, blockSize)
    ensures Sorted(FixedPasses(read, blockSize))
    decreases |read| - blockSize
  {
    if blockSize < |read| {
      FixedPassChunksSorted(read, blockSize);
      FixedPassesSorted(FixedPass(read, blockSize), 2 * blockSize);
    } else {
      ChunksSortedShort(read, blockSize);
    }
  }

  /** The fixed sort returns a sorted permutation of its input, for every
      length. */
  lemma FixedBottomUpSorts(s: seq<int>)
    ensures Sorted(FixedBottomUp(s))
    ensures multiset(FixedBottomUp(s)) == multiset(s)
  {
    ChunksSortedOne(s);
    FixedPassesSorted(s, 1);
    FixedPassesPermutation(s, 1);
  }

  /** With the fixed bound, n = 11 is sorted. */
  lemma FixedBottomUpEleven()
    ensures Sorted(FixedBottomUp([100, 100, 100, 100, 100, 100, 100, 100, 5, 6, 1]))
  {
    FixedBottomUpSorts([100, 100, 100, 100, 100, 100, 100, 100, 5, 6, 1]);
  }
}
