/** Value-level description of the bottom-up merge sort of Sorting.h:61-194.
    A pass reads one buffer and writes the other; `Pass` gives the new
    contents of the write buffer, `Passes` runs passes with doubling block
    size and swapped buffer roles, and `BottomUp` is the whole sort.
    The lemmas say what the sort achieves: a permutation always, sorted
    input returned unchanged, a sorted result when the length is a power
    of two (and for some other lengths, such as 3 and 100), but not for every
    length. */
module MergeSpec {
  import opened SortUtil

  // ---------------------------------------------------------------------------
  // The merge of one block pair
  // ---------------------------------------------------------------------------

  /** The two-cursor merge of Sorting.h:94-110, branch for branch: drain the
      left block when the right one is spent, drain the right one when the
      left is spent, take the right head only when it is strictly smaller. */
  function Merge(left: seq<int>, right: seq<int>): (m: seq<int>)
    ensures |m| == |left| + |right|
    decreases |left| + |right|
  {
    if |right| == 0 then
      if |left| == 0 then [] else [left[0]] + Merge(left[1..], right)
    else if |left| == 0 || right[0] < left[0] then
      [right[0]] + Merge(left, right[1..])
    else
      [left[0]] + Merge(left[1..], right)
  }

  /** The merge writes every element of both blocks, each exactly once. */
  lemma {:induction false} MergeMultiset(left: seq<int>, right: seq<int>)
    ensures multiset(Merge(left, right)) == multiset(left) + multiset(right)
    decreases |left| + |right|
  {
    if |right| == 0 {
      if |left| > 0 {
        MergeMultiset(left[1..], right);
        MultisetHeadTail(left);
      }
    } else if |left| == 0 || right[0] < left[0] {
      MergeMultiset(left, right[1..]);
      MultisetHeadTail(right);
    } else {
      MergeMultiset(left[1..], right);
      MultisetHeadTail(left);
    }
  }

  /** Merging the pair `[0, mid)`, `[mid, end)` of `s` and keeping what
      follows holds the elements of `s`. */
  lemma MergePairMultiset(s: seq<int>, mid: nat, end: nat)
    requires mid <= end <= |s|
    ensures multiset(Merge(s[..mid], s[mid..end])) + multiset(s[end..]) == multiset(s)
  {
    MergeMultiset(s[..mid], s[mid..end]);
    assert s == s[..mid] + s[mid..end] + s[end..];
  }

  /** Merging with an empty right block copies the left block. */
  lemma {:induction false} MergeEmptyRight(left: seq<int>)
    ensures Merge(left, []) == left
    decreases |left|
  {
    if |left| > 0 {
      MergeEmptyRight(left[1..]);
    }
  }

  /** Merging with an empty left block copies the right block. */
  lemma {:induction false} MergeEmptyLeft(right: seq<int>)
    ensures Merge([], right) == right
    decreases |right|
  {
    if |right| > 0 {
      MergeEmptyLeft(right[1..]);
    }
  }

  /** A left block no element of which exceeds the right head merges first. */
  lemma {:induction false} MergeLeftFirst(left: seq<int>, right: seq<int>)
    requires |right| > 0 && forall i :: 0 <= i < |left| ==> left[i] <= right[0]
    ensures Merge(left, right) == left + right
    decreases |left|
  {
    if |left| == 0 {
      MergeEmptyLeft(right);
      assert left + right == right;
    } else {
      assert forall i :: 0 <= i < |left[1..]| ==> left[1..][i] == left[i + 1];
      MergeLeftFirst(left[1..], right);
      HeadAppend(left, right);
    }
  }

  /** A right block all smaller than the left head merges first. */
  lemma {:induction false} MergeRightFirst(left: seq<int>, right: seq<int>)
    requires |left| > 0 && forall i :: 0 <= i < |right| ==> right[i] < left[0]
    ensures Merge(left, right) == right + left
    decreases |right|
  {
    if |right| == 0 {
      MergeEmptyRight(left);
      assert right + left == left;
    } else {
      assert forall i :: 0 <= i < |right[1..]| ==> right[1..][i] == right[i + 1];
      MergeRightFirst(left, right[1..]);
      HeadAppend(right, left);
    }
  }

  lemma SortedPrepend(x: int, s: seq<int>)
    requires Sorted(s)
    requires Below(x, s)
    ensures Sorted([x] + s)
  {
    forall i, j | 0 <= i < j < |[x] + s| ensures ([x] + s)[i] <= ([x] + s)[j] {
      if i == 0 { assert ([x] + s)[j] == s[j - 1]; assert s[j - 1] in s; }
    }
  }

  /** `x` is a lower bound of every element of `s`. */
  ghost predicate Below(x: int, s: seq<int>)
  {
    forall y :: y in s ==> x <= y
  }

  /** The head of a sorted sequence bounds it from below. */
  lemma SortedHeadBelow(s: seq<int>)
    requires |s| > 0 && Sorted(s)
    ensures Below(s[0], s)
  {
    forall y | y in s ensures s[0] <= y {
      var k :| 0 <= k < |s| && s[k] == y;
    }
  }

  /** A lower bound of `s` bounds every suffix of it. */
  lemma BelowDrop(x: int, s: seq<int>, c: nat)
    requires c <= |s| && Below(x, s)
    ensures Below(x, s[c..])
  {
    forall y | y in s[c..] ensures x <= y {
      var k :| 0 <= k < |s[c..]| && s[c..][k] == y;
      assert s[c + k] == y && s[c + k] in s;
    }
  }

  /** A common lower bound of both blocks bounds their merge. */
  lemma MergeBelow(x: int, left: seq<int>, right: seq<int>)
    requires Below(x, left) && Below(x, right)
    ensures Below(x, Merge(left, right))
  {
    MergeMultiset(left, right);
    forall y | y in Merge(left, right) ensures x <= y {
      assert y in multiset(Merge(left, right));
      assert y in left || y in right;
    }
  }

  /** Merging two sorted blocks gives a sorted run. */
  lemma {:induction false} MergeSorted(left: seq<int>, right: seq<int>)
    requires Sorted(left) && Sorted(right)
    ensures Sorted(Merge(left, right))
    decreases |left| + |right|
  {
    if |right| == 0 && |left| == 0 {
    } else if |right| == 0 || (|left| > 0 && !(right[0] < left[0])) {
      SortedDrop(left, 1);
      MergeSorted(left[1..], right);
      SortedHeadBelow(left);
      BelowDrop(left[0], left, 1);
      if |right| > 0 { SortedHeadBelow(right); }
      MergeBelow(left[0], left[1..], right);
      SortedPrepend(left[0], Merge(left[1..], right));
    } else {
      SortedDrop(right, 1);
      MergeSorted(left, right[1..]);
      SortedHeadBelow(right);
      BelowDrop(right[0], right, 1);
      if |left| > 0 { SortedHeadBelow(left); }
      MergeBelow(right[0], left, right[1..]);
      SortedPrepend(right[0], Merge(left, right[1..]));
    }
  }

  // ---------------------------------------------------------------------------
  // Passes
  // ---------------------------------------------------------------------------

  /** One pass of the `for (i = 0; i < numBlocks; i += 2)` loop of
      Sorting.h:81-111 / :150-180, on a read buffer that starts at a block
      pair boundary and the matching part of the write buffer. A pair is
      merged only while a whole first block remains (`i < numBlocks` with
      `numBlocks = n / blockSize`); the second block is clipped to the end
      (`Detail::Min` at :90, :159). Whatever no pair covers keeps the old
      contents of the write buffer. */
  function Pass(read: seq<int>, write: seq<int>, blockSize: nat): (next: seq<int>)
    requires blockSize > 0 && |read| == |write|
    ensures |next| == |read|
    decreases |read|
  {
    if |read| < blockSize then write
    else
      var secondEnd := Min(2 * blockSize, |read|);
      Merge(read[..blockSize], read[blockSize..secondEnd])
        + Pass(read[secondEnd..], write[secondEnd..], blockSize)
  }

  /** A pass over a buffer holding at least one whole block pair. */
  lemma PassFull(read: seq<int>, write: seq<int>, blockSize: nat)
    requires blockSize > 0 && |read| == |write| >= 2 * blockSize
    ensures Pass(read, write, blockSize) ==
      Merge(read[..blockSize], read[blockSize..2 * blockSize])
        + Pass(read[2 * blockSize..], write[2 * blockSize..], blockSize)
  {
    assert Min(2 * blockSize, |read|) == 2 * blockSize;
  }

  /** The first pair of a pass over a buffer holding at least one whole
      block: it ends at `e`, after two blocks or at the end of the buffer. */
  lemma PassHead(read: seq<int>, write: seq<int>, blockSize: nat, e: nat)
    requires blockSize > 0 && |read| == |write| >= blockSize && e == Min(2 * blockSize, |read|)
    ensures Pass(read, write, blockSize) ==
      Merge(read[..blockSize], read[blockSize..e]) + Pass(read[e..], write[e..], blockSize)
  {
  }

  /** The last pair of a pass: one whole block and a shorter one. */
  lemma PassLast(read: seq<int>, write: seq<int>, blockSize: nat)
    requires blockSize > 0 && blockSize <= |read| == |write| < 2 * blockSize
    ensures Pass(read, write, blockSize) == Merge(read[..blockSize], read[blockSize..])
  {
    assert Min(2 * blockSize, |read|) == |read|;
    assert read[blockSize..|read|] == read[blockSize..];
    assert Pass(read[|read|..], write[|read|..], blockSize) == [];
  }

  /** The pass loop of Sorting.h:77-119 / :146-188: passes run while
      `blockSize < n`; after each the buffers swap roles and the block size
      doubles. The result is the final read buffer. */
  function Passes(read: seq<int>, write: seq<int>, blockSize: nat): (r: seq<int>)
    requires blockSize > 0 && |read| == |write|
    ensures |r| == |read|
    decreases |read| - blockSize
  {
    if blockSize >= |read| then read
    else Passes(Pass(read, write, blockSize), read, 2 * blockSize)
  }

  /** The working area starts value-initialised (Sorting.h:71, :140). */
  function Zeros(n: nat): (z: seq<int>)
    ensures |z| == n && forall k :: 0 <= k < n ==> z[k] == 0
  {
    seq(n, _ => 0)
  }

  /** The whole merge sort, as written. */
  function BottomUp(s: seq<int>): (r: seq<int>)
    ensures |r| == |s|
  {
    Passes(s, Zeros(|s|), 1)
  }

  // ---------------------------------------------------------------------------
  // Permutation
  // ---------------------------------------------------------------------------

  /** Length of the last, incomplete chunk of width `c` in `n` elements. */
  function Rem(n: nat, c: nat): (k: nat)
    requires c > 0
    ensures k < c && k <= n
    decreases n
  {
    if n < c then n else Rem(n - c, c)
  }

  /** The read and write buffers hold the same multiset on the last,
      incomplete chunk of width `blockSize`: the part a pass may skip. */
  ghost predicate TailAgrees(read: seq<int>, write: seq<int>, blockSize: nat)
    requires blockSize > 0 && |read| == |write|
    decreases |read|
  {
    if |read| < blockSize then multiset(read) == multiset(write)
    else TailAgrees(read[blockSize..], write[blockSize..], blockSize)
  }

  /** With width 1 the last chunk is empty: the buffers always agree on it. */
  lemma {:induction false} TailAgreesOne(read: seq<int>, write: seq<int>)
    requires |read| == |write|
    ensures TailAgrees(read, write, 1)
    decreases |read|
  {
    if |read| >= 1 { TailAgreesOne(read[1..], write[1..]); }
  }

  /** A pass permutes the read buffer as long as the part it skips already
      agrees with it, and it leaves the two buffers agreeing on the part the
      next pass may skip. */
  lemma {:induction false} PassPermutation(read: seq<int>, write: seq<int>, blockSize: nat)
    requires blockSize > 0 && |read| == |write|
    requires TailAgrees(read, write, blockSize)
    ensures multiset(Pass(read, write, blockSize)) == multiset(read)
    ensures TailAgrees(Pass(read, write, blockSize), read, 2 * blockSize)
    decreases |read|
  {
    if |read| < 2 * blockSize {
      PassPermutationLast(read, write, blockSize);
    } else {
      TailAgreesPair(read, write, blockSize);
      PassPermutation(read[2 * blockSize..], write[2 * blockSize..], blockSize);
      PassPermutationPair(read, write, blockSize, Pass(read[2 * blockSize..], write[2 * blockSize..], blockSize));
    }
  }

  /** The part the pass may skip lies beyond the first block pair. */
  lemma TailAgreesPair(read: seq<int>, write: seq<int>, blockSize: nat)
    requires blockSize > 0 && |read| == |write| >= 2 * blockSize
    requires TailAgrees(read, write, blockSize)
    ensures TailAgrees(read[2 * blockSize..], write[2 * blockSize..], blockSize)
  {
    var c := 2 * blockSize;
    assert read[blockSize..][blockSize..] == read[c..];
    assert write[blockSize..][blockSize..] == write[c..];
  }

  /** The step of `PassPermutation` over the first block pair, with
      `rest` the pass over what follows it. */
  lemma PassPermutationPair(read: seq<int>, write: seq<int>, blockSize: nat, rest: seq<int>)
    requires blockSize > 0 && |read| == |write| >= 2 * blockSize
    requires rest == Pass(read[2 * blockSize..], write[2 * blockSize..], blockSize)
    requires multiset(rest) == multiset(read[2 * blockSize..])
    requires TailAgrees(rest, read[2 * blockSize..], 2 * blockSize)
    ensures multiset(Pass(read, write, blockSize)) == multiset(read)
    ensures TailAgrees(Pass(read, write, blockSize), read, 2 * blockSize)
  {
    var n, c := |read|, 2 * blockSize;
    var head := Merge(read[..blockSize], read[blockSize..c]);
    var next := Pass(read, write, blockSize);
    PassFull(read, write, blockSize);
    assert next == head + rest;
    MergePairMultiset(read, blockSize, c);
    assert multiset(next) == multiset(head) + multiset(rest);
    assert next[c..] == rest;
  }

  /** The last step of a pass: at most one pair is left. */
  lemma PassPermutationLast(read: seq<int>, write: seq<int>, blockSize: nat)
    requires blockSize > 0 && |read| == |write| < 2 * blockSize
    requires TailAgrees(read, write, blockSize)
    ensures multiset(Pass(read, write, blockSize)) == multiset(read)
    ensures TailAgrees(Pass(read, write, blockSize), read, 2 * blockSize)
  {
    var n := |read|;
    var next := Pass(read, write, blockSize);
    if n < blockSize {
      assert next == write;
    } else {
      assert Min(2 * blockSize, n) == n;
      assert read[blockSize..n] == read[blockSize..];
      assert next == Merge(read[..blockSize], read[blockSize..]) + Pass(read[n..], write[n..], blockSize);
      assert Pass(read[n..], write[n..], blockSize) == [];
      MergeMultiset(read[..blockSize], read[blockSize..]);
      MultisetSplit(read, blockSize);
    }
  }

  /** Dropping one whole chunk keeps the last, incomplete one. */
  lemma RemStep(n: nat, c: nat)
    requires c > 0 && n >= c
    ensures Rem(n, c) == Rem(n - c, c)
  {
  }

  lemma {:induction false} PassesPermutation(read: seq<int>, write: seq<int>, blockSize: nat)
    requires blockSize > 0 && |read| == |write|
    requires TailAgrees(read, write, blockSize)
    ensures multiset(Passes(read, write, blockSize)) == multiset(read)
    decreases |read| - blockSize
  {
    if blockSize < |read| {
      PassPermutation(read, write, blockSize);
      PassesPermutation(Pass(read, write, blockSize), read, 2 * blockSize);
    }
  }

  /** Merge sort returns a permutation of its input, for every length
      (the final read buffer is what Sorting.h:121 and :191-193 copy back). */
  lemma BottomUpPermutation(s: seq<int>)
    ensures multiset(BottomUp(s)) == multiset(s)
  {
    TailAgreesOne(s, Zeros(|s|));
    PassesPermutation(s, Zeros(|s|), 1);
  }

  /** For n <= 1 the pass loop never runs: the collection is unchanged. */
  lemma BottomUpShort(s: seq<int>)
    requires |s| <= 1
    ensures BottomUp(s) == s
  {
  }

  // ---------------------------------------------------------------------------
  // The working area and sorted input
  // ---------------------------------------------------------------------------

  /** With block size 1 every element starts a pair, so the first pass
      writes every slot and reads nothing of the write buffer. */
  lemma {:induction false} PassOneOverwrites(read: seq<int>, write: seq<int>, write': seq<int>)
    requires |read| == |write| == |write'|
    ensures Pass(read, write, 1) == Pass(read, write', 1)
    decreases |read|
  {
    if |read| > 0 {
      var e := Min(2, |read|);
      PassOneOverwrites(read[e..], write[e..], write'[e..]);
    }
  }

  /** The initial contents of the working area never reach the result:
      the sort is the same whatever the working area starts with. */
  lemma BottomUpAnyWorkingArea(s: seq<int>, w: seq<int>)
    requires |w| == |s|
    ensures Passes(s, w, 1) == BottomUp(s)
  {
    if |s| > 1 {
      PassOneOverwrites(s, w, Zeros(|s|));
    }
  }

  /** A pass over a sorted buffer whose write buffer is a copy of it
      changes nothing: each pair merges left block first. */
  lemma {:induction false} PassOfSortedCopy(read: seq<int>, blockSize: nat)
    requires blockSize > 0 && Sorted(read)
    ensures Pass(read, read, blockSize) == read
    decreases |read|
  {
    if |read| >= blockSize {
      var e := Min(2 * blockSize, |read|);
      var left, right := read[..blockSize], read[blockSize..e];
      if |right| > 0 {
        forall i | 0 <= i < |left| ensures left[i] <= right[0] {
          assert left[i] == read[i] && right[0] == read[blockSize];
        }
        MergeLeftFirst(left, right);
      } else {
        MergeEmptyRight(left);
        assert left + right == left;
      }
      JoinSlices(read, blockSize, e);
      SortedDrop(read, e);
      PassOfSortedCopy(read[e..], blockSize);
      JoinSlices(read, e, e);
    }
  }

  lemma {:induction false} PassesOfSortedCopy(read: seq<int>, blockSize: nat)
    requires blockSize > 0 && Sorted(read)
    ensures Passes(read, read, blockSize) == read
    decreases |read| - blockSize
  {
    if blockSize < |read| {
      PassOfSortedCopy(read, blockSize);
      PassesOfSortedCopy(read, 2 * blockSize);
    }
  }

  /** Sorting a sorted sequence returns it unchanged, for every length:
      the first pass reproduces it, and every later pass has a copy of it
      as its write buffer, stale tail included. */
  lemma BottomUpOfSorted(s: seq<int>)
    requires Sorted(s)
    ensures BottomUp(s) == s
  {
    BottomUpAnyWorkingArea(s, s);
    PassesOfSortedCopy(s, 1);
  }

  /** Three elements are sorted although three is not a power of two: the
      second pass merges the pair from the first with the last element. */
  lemma BottomUpSortsThree(s: seq<int>)
    requires |s| == 3
    ensures Sorted(BottomUp(s))
  {
    var p1 := Pass(s, Zeros(3), 1);
    var run := Merge(s[..1], s[1..2]);
    assert Min(2, 3) == 2 && Min(2, 1) == 1 && Min(4, 3) == 3;
    assert Pass(s[2..], Zeros(3)[2..], 1) == Merge(s[2..3], []) + Pass([], [], 1);
    MergeEmptyRight(s[2..3]);
    assert p1 == run + s[2..3];
    MergeSorted(s[..1], s[1..2]);
    assert p1[..2] == run && p1[2..3] == s[2..3];
    MergeSorted(run, s[2..3]);
    var p2 := Pass(p1, s, 2);
    assert p2 == Merge(p1[..2], p1[2..3]) + Pass([], [], 2);
    assert BottomUp(s) == Passes(p1, s, 2) == Passes(p2, p1, 4) == p2;
  }

  // ---------------------------------------------------------------------------
  // Sortedness for power-of-two lengths
  // ---------------------------------------------------------------------------

  function Pow2(k: nat): (p: nat)
    ensures p >= 1
  {
    if k == 0 then 1 else 2 * Pow2(k - 1)
  }

  /** Every aligned chunk of width `c` is sorted (the last may be shorter). */
  ghost predicate ChunksSorted(s: seq<int>, c: nat)
    requires c > 0
    decreases |s|
  {
    if |s| <= c then Sorted(s) else Sorted(s[..c]) && ChunksSorted(s[c..], c)
  }

  /** Before the first pass every block of width 1 is sorted. */
  lemma {:induction false} ChunksSortedOne(s: seq<int>)
    ensures ChunksSorted(s, 1)
    decreases |s|
  {
    if |s| > 1 {
      ChunksSortedOne(s[1..]);
    }
  }

  /** The first two chunks of a buffer with sorted chunks, and the rest. */
  lemma ChunksSortedSplit(s: seq<int>, c: nat)
    requires c > 0 && |s| >= 2 * c
    requires ChunksSorted(s, c)
    ensures Sorted(s[..c]) && Sorted(s[c..2 * c]) && ChunksSorted(s[2 * c..], c)
  {
    DropDrop(s, c, 2 * c);
    if |s| == 2 * c {
      assert s[c..] == s[c..2 * c];
      assert s[2 * c..] == [];
    } else {
      assert s[c..][..c] == s[c..2 * c];
    }
  }

  /** A sorted chunk in front of a buffer with sorted chunks. */
  lemma ChunksSortedCons(head: seq<int>, rest: seq<int>, c: nat)
    requires c > 0 && |head| == c && Sorted(head) && ChunksSorted(rest, c)
    ensures ChunksSorted(head + rest, c)
  {
    if |rest| == 0 {
      assert head + rest == head;
    } else {
      assert (head + rest)[..c] == head;
      assert (head + rest)[c..] == rest;
    }
  }

  /** When the buffer is a whole number of block pairs, a pass turns sorted
      blocks into sorted block pairs. */
  lemma {:induction false} PassChunksSorted(read: seq<int>, write: seq<int>, blockSize: nat)
    requires blockSize > 0 && |read| == |write|
    requires Rem(|read|, 2 * blockSize) == 0
    requires ChunksSorted(read, blockSize)
    ensures ChunksSorted(Pass(read, write, blockSize), 2 * blockSize)
    decreases |read|
  {
    var n := |read|;
    if n > 0 {
      PassFull(read, write, blockSize);
      RemStep(n, 2 * blockSize);
      ChunksSortedSplit(read, blockSize);
      MergeSorted(read[..blockSize], read[blockSize..2 * blockSize]);
      PassChunksSorted(read[2 * blockSize..], write[2 * blockSize..], blockSize);
      ChunksSortedCons(Merge(read[..blockSize], read[blockSize..2 * blockSize]),
        Pass(read[2 * blockSize..], write[2 * blockSize..], blockSize), 2 * blockSize);
    }
  }

  /** Adding a multiple of `c` leaves the incomplete chunk alone. */
  lemma {:induction false} RemAdd(x: nat, y: nat, c: nat)
    requires c > 0 && Rem(x, c) == 0
    ensures Rem(x + y, c) == Rem(y, c)
    decreases x
  {
    if x > 0 {
      RemStep(x, c);
      RemStep(x + y, c);
      RemAdd(x - c, y, c);
    }
  }

  /** A power of two is a whole number of chunks of any smaller power of two. */
  lemma {:induction false} Pow2Rem(j: nat, k: nat)
    requires j <= k
    ensures Rem(Pow2(k), Pow2(j)) == 0
    decreases k
  {
    if j == k {
      RemStep(Pow2(k), Pow2(k));
    } else {
      Pow2Rem(j, k - 1);
      RemAdd(Pow2(k - 1), Pow2(k - 1), Pow2(j));
    }
  }

  lemma {:induction false} PassesSorted(read: seq<int>, write: seq<int>, j: nat, k: nat)
    requires |read| == |write| == Pow2(k) && j <= k
    requires ChunksSorted(read, Pow2(j))
    ensures Sorted(Passes(read, write, Pow2(j)))
    decreases k - j
  {
    if Pow2(j) < |read| {
      Pow2Rem(j + 1, k);
      PassChunksSorted(read, write, Pow2(j));
      PassesSorted(Pass(read, write, Pow2(j)), read, j + 1, k);
    }
  }

  /** When the length is a power of two every pass covers the whole buffer,
      and merge sort returns a sorted result. */
  lemma BottomUpSortedPow2(s: seq<int>, k: nat)
    requires |s| == Pow2(k)
    ensures Sorted(BottomUp(s))
  {
    ChunksSortedOne(s);
    PassesSorted(s, Zeros(|s|), 0, k);
  }

  // ---------------------------------------------------------------------------
  // Sortedness for other lengths: n = 100
  // ---------------------------------------------------------------------------

  /** The part of the write buffer a pass with `blockSize` leaves in place,
      a trailing piece shorter than one block, is sorted. */
  ghost predicate SkippedSorted(write: seq<int>, blockSize: nat)
    requires blockSize > 0
    decreases |write|
  {
    if |write| < blockSize then Sorted(write)
    else if |write| < 2 * blockSize then true
    else SkippedSorted(write[2 * blockSize..], blockSize)
  }

  /** With block size 1 nothing is skipped. */
  lemma {:induction false} SkippedSortedOne(write: seq<int>)
    ensures SkippedSorted(write, 1)
    decreases |write|
  {
    if |write| >= 2 {
      SkippedSortedOne(write[2..]);
    }
  }

  /** A pass over sorted blocks gives sorted block pairs whenever the piece
      it skips is sorted, whatever the length. */
  lemma {:induction false} PassChunksSortedSkipped(read: seq<int>, write: seq<int>, blockSize: nat)
    requires blockSize > 0 && |read| == |write|
    requires ChunksSorted(read, blockSize) && SkippedSorted(write, blockSize)
    ensures ChunksSorted(Pass(read, write, blockSize), 2 * blockSize)
    decreases |read|
  {
    var n, c := |read|, 2 * blockSize;
    if n < blockSize {
    } else if n < c {
      PassLast(read, write, blockSize);
      assert read[blockSize..][..|read| - blockSize] == read[blockSize..];
      MergeSorted(read[..blockSize], read[blockSize..]);
    } else {
      PassFull(read, write, blockSize);
      ChunksSortedSplit(read, blockSize);
      MergeSorted(read[..blockSize], read[blockSize..c]);
      PassChunksSortedSkipped(read[c..], write[c..], blockSize);
      ChunksSortedCons(Merge(read[..blockSize], read[blockSize..c]),
        Pass(read[c..], write[c..], blockSize), c);
    }
  }

  /** The read buffer of a pass with sorted blocks of `c`, as the write
      buffer of the next pass (block size `2 * c`): its skipped piece is
      sorted when it fits in one block of `c`. */
  lemma {:induction false} SkippedFromChunks(w: seq<int>, c: nat)
    requires c > 0 && ChunksSorted(w, c)
    requires Rem(|w|, 4 * c) < 2 * c ==> Rem(|w|, 4 * c) <= c
    ensures SkippedSorted(w, 2 * c)
    decreases |w|
  {
    var b := 2 * c;
    if |w| >= 2 * b {
      var half, rest := w[b..], w[2 * b..];
      ChunksSortedSplit(w, c);
      ChunksSortedSplit(half, c);
      DropDrop(w, b, 2 * b);
      assert half[b..] == rest;
      RemStep(|w|, 2 * b);
      SkippedFromChunks(rest, c);
      assert SkippedSorted(w, b) == SkippedSorted(rest, b);
    } else if |w| < b {
      assert Rem(|w|, 2 * b) == |w|;
    }
  }

  /** Every later pass of the loop over `n` elements, block size `2 * bs`
      on, skips either nothing or a piece no longer than half a block. */
  ghost predicate TailsFit(n: nat, bs: nat)
    requires bs > 0
    decreases n - bs
  {
    2 * bs >= n || ((Rem(n, 4 * bs) < 2 * bs ==> Rem(n, 4 * bs) <= bs) && TailsFit(n, 2 * bs))
  }

  /** The remainder of `q` whole blocks of `c` and a piece `r` shorter
      than a block is that piece. */
  lemma {:induction false} RemOf(n: nat, c: nat, q: nat, r: nat)
    requires c > 0 && r < c && n == q * c + r
    ensures Rem(n, c) == r
    decreases q
  {
    if q > 0 {
      RemStep(n, c);
      RemOf(n - c, c, q - 1, r);
    }
  }

  /** Which pieces the passes over 100 elements skip. */
  lemma TailsFitHundred()
    ensures TailsFit(100, 1)
  {
    RemOf(100, 4, 25, 0);
    RemOf(100, 8, 12, 4);
    RemOf(100, 16, 6, 4);
    RemOf(100, 32, 3, 4);
    RemOf(100, 64, 1, 36);
    RemOf(100, 128, 0, 100);
    assert TailsFit(100, 64);
    assert TailsFit(100, 32);
    assert TailsFit(100, 16);
    assert TailsFit(100, 8);
    assert TailsFit(100, 4);
    assert TailsFit(100, 2);
  }

  lemma {:induction false} PassesSortedFit(read: seq<int>, write: seq<int>, blockSize: nat)
    requires blockSize > 0 && |read| == |write|
    requires ChunksSorted(read, blockSize) && TailsFit(|read|, blockSize)
    requires blockSize < |read| ==> SkippedSorted(write, blockSize)
    ensures Sorted(Passes(read, write, blockSize))
    decreases |read| - blockSize
  {
    if blockSize < |read| {
      var next := Pass(read, write, blockSize);
      PassChunksSortedSkipped(read, write, blockSize);
      if 2 * blockSize < |read| {
        SkippedFromChunks(read, blockSize);
      }
      PassesSortedFit(next, read, 2 * blockSize);
    }
  }

  /** The length the source's tests use: every collection of 100 elements
      ends sorted, although 100 is not a power of two. The passes with
      block sizes 8 and 16 skip the last 4 elements, which the pass with
      block size 4 merged as a whole block. */
  lemma BottomUpSortsHundred(s: seq<int>)
    requires |s| == 100
    ensures Sorted(BottomUp(s))
  {
    ChunksSortedOne(s);
    SkippedSortedOne(Zeros(100));
    TailsFitHundred();
    PassesSortedFit(s, Zeros(100), 1);
  }

  // ---------------------------------------------------------------------------
  // The skipped tail: n = 11
  // ---------------------------------------------------------------------------

  /** A pass over a whole number of block pairs followed by more: the two
      parts are passed independently. */
  lemma {:induction false} PassAppend(a: seq<int>, b: seq<int>, wa: seq<int>, wb: seq<int>, blockSize: nat)
    requires blockSize > 0 && |a| == |wa| && |b| == |wb|
    requires Rem(|a|, 2 * blockSize) == 0
    ensures Pass(a + b, wa + wb, blockSize) == Pass(a, wa, blockSize) + Pass(b, wb, blockSize)
    decreases |a|
  {
    if |a| == 0 {
      assert a == [] && wa == [];
      assert a + b == b && wa + wb == wb;
    } else {
      var c := 2 * blockSize;
      RemStep(|a|, c);
      var a', wa' := a[c..], wa[c..];
      PassAppend(a', b, wa', wb, blockSize);
      var m, p, q := Merge(a[..blockSize], a[blockSize..c]), Pass(a', wa', blockSize), Pass(b, wb, blockSize);
      PassFullAppend(a, b, wa, wb, blockSize);
      PassFull(a, wa, blockSize);
      AppendAssoc(m, p, q);
    }
  }

  /** The first pair of a pass over `a + b`, when `a` holds a whole pair. */
  lemma PassFullAppend(a: seq<int>, b: seq<int>, wa: seq<int>, wb: seq<int>, blockSize: nat)
    requires blockSize > 0 && |a| == |wa| >= 2 * blockSize && |b| == |wb|
    ensures var ab, wab := a + b, wa + wb;
      var rest, wrest := a[2 * blockSize..] + b, wa[2 * blockSize..] + wb;
      Pass(ab, wab, blockSize) ==
        Merge(a[..blockSize], a[blockSize..2 * blockSize]) + Pass(rest, wrest, blockSize)
  {
    var c := 2 * blockSize;
    PassFull(a + b, wa + wb, blockSize);
    AppendSlices(a, b, 0, blockSize);
    AppendSlices(a, b, blockSize, c);
    AppendSlices(a, b, c, c);
    AppendSlices(wa, wb, c, c);
  }

  /** A sorted buffer of whole block pairs passes through unchanged. */
  lemma {:induction false} PassOfSorted(read: seq<int>, write: seq<int>, blockSize: nat)
    requires blockSize > 0 && |read| == |write|
    requires Rem(|read|, 2 * blockSize) == 0 && Sorted(read)
    ensures Pass(read, write, blockSize) == read
    decreases |read|
  {
    if |read| > 0 {
      var c := 2 * blockSize;
      RemStep(|read|, c);
      PassFull(read, write, blockSize);
      MergeLeftFirst(read[..blockSize], read[blockSize..c]);
      JoinSlices(read, blockSize, c);
      SortedDrop(read, c);
      PassOfSorted(read[c..], write[c..], blockSize);
      JoinSlices(read, c, c);
    }
  }

  /** The input of the counterexample and the buffers the passes produce. */
  const EightHigh: seq<int> := [100, 100, 100, 100, 100, 100, 100, 100]
  const StaleTail: seq<int> := [5, 6, 1]
  const MergedTail: seq<int> := [1, 5, 6]

  /** Block size 1: both parts are already runs of width 2 (or shorter). */
  lemma ElevenPass1()
    ensures var s0 := EightHigh + StaleTail; Pass(s0, Zeros(11), 1) == s0
  {
    assert Zeros(11) == Zeros(8) + Zeros(3);
    assert Rem(8, 2) == 0 && Sorted(EightHigh);
    PassAppend(EightHigh, StaleTail, Zeros(8), Zeros(3), 1);
    PassOfSorted(EightHigh, Zeros(8), 1);
    PassFull(StaleTail, Zeros(3), 1);
    PassLast([1], [0], 1);
  }

  /** Block size 2: [5, 6] merges with the short block [1]. */
  lemma ElevenPass2()
    ensures var s0 := EightHigh + StaleTail; Pass(s0, s0, 2) == EightHigh + MergedTail
  {
    assert Rem(8, 4) == 0 && Sorted(EightHigh);
    PassAppend(EightHigh, StaleTail, EightHigh, StaleTail, 2);
    PassOfSorted(EightHigh, EightHigh, 2);
    PassLast(StaleTail, StaleTail, 2);
    assert StaleTail[..2] == [5, 6] && StaleTail[2..] == [1];
    assert Merge([5, 6], [1]) == MergedTail;
  }

  /** Block size 4: `numBlocks == 2`, so [8, 11) keeps the stale [5, 6, 1]. */
  lemma ElevenPass3()
    ensures var s0, s2 := EightHigh + StaleTail, EightHigh + MergedTail; Pass(s2, s0, 4) == s0
  {
    assert Rem(8, 8) == 0 && Sorted(EightHigh);
    PassAppend(EightHigh, MergedTail, EightHigh, StaleTail, 4);
    PassOfSorted(EightHigh, EightHigh, 4);
  }

  /** Block size 8: the last merge meets the unsorted right block. */
  lemma ElevenPass4()
    ensures var s0, s2 := EightHigh + StaleTail, EightHigh + MergedTail;
      Pass(s0, s2, 8) == StaleTail + EightHigh
  {
    var s0 := EightHigh + StaleTail;
    PassLast(s0, EightHigh + MergedTail, 8);
    AppendSlices(EightHigh, StaleTail, 8, 8);
    assert s0[8..] == StaleTail;
    MergeRightFirst(EightHigh, StaleTail);
  }

  /** The counterexample written out: eight 100s, then 5, 6, 1. */
  lemma ElevenLiterals()
    ensures EightHigh + StaleTail == [100, 100, 100, 100, 100, 100, 100, 100, 5, 6, 1]
    ensures StaleTail + EightHigh == [5, 6, 1, 100, 100, 100, 100, 100, 100, 100, 100]
  {
  }

  /** n = 11: the pass with block size 4 has an even number of blocks and
      leaves the tail [8, 11) of the write buffer stale, so the final merge
      sees an unsorted right block and the result is not sorted. */
  lemma BottomUpEleven()
    ensures BottomUp([100, 100, 100, 100, 100, 100, 100, 100, 5, 6, 1])
         == [5, 6, 1, 100, 100, 100, 100, 100, 100, 100, 100]
    ensures !Sorted(BottomUp([100, 100, 100, 100, 100, 100, 100, 100, 5, 6, 1]))
  {
    var s0, s2, s4 := EightHigh + StaleTail, EightHigh + MergedTail, StaleTail + EightHigh;
    ElevenPass1();
    ElevenPass2();
    ElevenPass3();
    ElevenPass4();
    assert Passes(s4, s0, 16) == s4;
    assert Passes(s0, s2, 8) == s4;
    assert Passes(s2, s0, 4) == s4;
    assert Passes(s0, s0, 2) == s4;
    assert BottomUp(s0) == s4;
    ElevenLiterals();
    assert s4[1] == 6 && s4[2] == 1;
  }
}
