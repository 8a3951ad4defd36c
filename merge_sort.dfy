/** The bottom-up merge sort of Sorting.h:61-194 on arrays. The read and
    write buffers are an array each with a base offset (the sorted range of
    the caller's array, or the working area from 0); they swap roles after
    every pass. Each method is proved against the functions of `MergeSpec`. */
module MergeSorting {
  import opened SortUtil
  import opened MergeSpec

  // ---------------------------------------------------------------------------
  // The merge loop of one block pair
  // ---------------------------------------------------------------------------

  /** The branch the merge loop takes with cursors `lo` (left block, up to
      `hi`) and `lo2` (right block, up to `hi2`): the left head is written
      when the right block is spent, or when it is not strictly smaller. */
  predicate TakesLeft(r: seq<int>, lo: nat, hi: nat, lo2: nat, hi2: nat): (left: bool)
    requires lo <= hi <= |r| && lo2 <= hi2 <= |r|
    ensures (lo < hi || lo2 < hi2) ==> (left ==> lo < hi) && (!left ==> lo2 < hi2)
  {
    lo2 == hi2 || (lo < hi && !(r[lo2] < r[lo]))
  }

  /** `rest` is what the merge loop still writes when its cursors stand at
      `lo` and `lo2`. */
  ghost predicate Pending(r: seq<int>, lo: nat, hi: nat, lo2: nat, hi2: nat, rest: seq<int>)
    requires lo <= hi <= |r| && lo2 <= hi2 <= |r|
    decreases (hi - lo) + (hi2 - lo2)
  {
    if lo == hi && lo2 == hi2 then rest == []
    else if TakesLeft(r, lo, hi, lo2, hi2) then
      |rest| > 0 && rest[0] == r[lo] && Pending(r, lo + 1, hi, lo2, hi2, rest[1..])
    else
      |rest| > 0 && rest[0] == r[lo2] && Pending(r, lo, hi, lo2 + 1, hi2, rest[1..])
  }

  /** From its first cursors on, the loop writes `Merge` of the two blocks. */
  lemma {:induction false} PendingMerge(r: seq<int>, lo: nat, hi: nat, lo2: nat, hi2: nat)
    requires lo <= hi <= |r| && lo2 <= hi2 <= |r|
    ensures Pending(r, lo, hi, lo2, hi2, Merge(r[lo..hi], r[lo2..hi2]))
    decreases (hi - lo) + (hi2 - lo2)
  {
    var left, right := r[lo..hi], r[lo2..hi2];
    var m := Merge(left, right);
    if lo == hi && lo2 == hi2 {
    } else if TakesLeft(r, lo, hi, lo2, hi2) {
      PendingMerge(r, lo + 1, hi, lo2, hi2);
      assert left[0] == r[lo] && left[1..] == r[lo + 1..hi];
    } else {
      PendingMerge(r, lo, hi, lo2 + 1, hi2);
      assert right[0] == r[lo2] && right[1..] == r[lo2 + 1..hi2];
    }
  }

  /** The run the merge loop is about to write. */
  lemma StartRun(r: seq<int>, lo: nat, hi: nat, lo2: nat, hi2: nat) returns (run: seq<int>)
    requires lo <= hi <= |r| && lo2 <= hi2 <= |r|
    ensures Pending(r, lo, hi, lo2, hi2, run)
  {
    run := Merge(r[lo..hi], r[lo2..hi2]);
    PendingMerge(r, lo, hi, lo2, hi2);
  }

  /** Writing the left head: it is the next element of the run. */
  lemma WriteLeft(r: seq<int>, lo: nat, lo': nat, hi: nat, lo2: nat, hi2: nat,
                  run: seq<int>, k: nat, k': nat)
    requires lo < hi <= |r| && lo2 <= hi2 <= |r| && lo' == lo + 1 && k' == k + 1
    requires TakesLeft(r, lo, hi, lo2, hi2)
    requires k <= |run| && Pending(r, lo, hi, lo2, hi2, run[k..])
    ensures k < |run| && run[k] == r[lo]
    ensures Pending(r, lo', hi, lo2, hi2, run[k'..])
  {
    assert run[k..][0] == run[k];
    assert run[k..][1..] == run[k + 1..];
  }

  /** Writing the right head: it is the next element of the run. */
  lemma WriteRight(r: seq<int>, lo: nat, hi: nat, lo2: nat, lo2': nat, hi2: nat,
                   run: seq<int>, k: nat, k': nat)
    requires lo <= hi <= |r| && lo2 < hi2 <= |r| && lo2' == lo2 + 1 && k' == k + 1
    requires !TakesLeft(r, lo, hi, lo2, hi2)
    requires k <= |run| && Pending(r, lo, hi, lo2, hi2, run[k..])
    ensures k < |run| && run[k] == r[lo2]
    ensures Pending(r, lo, hi, lo2', hi2, run[k'..])
  {
    assert run[k..][0] == run[k];
    assert run[k..][1..] == run[k + 1..];
  }

  /** Once both blocks are spent, nothing is pending: the run is complete. */
  lemma PendingDone(r: seq<int>, lo: nat, hi: nat, lo2: nat, hi2: nat, run: seq<int>, k: nat)
    requires lo == hi <= |r| && lo2 == hi2 <= |r| && k <= |run|
    requires Pending(r, lo, hi, lo2, hi2, run[k..])
    ensures k == |run| && run[..k] == run
  {
  }

  /** Writing element `k` of a run spliced into a buffer at `at`. */
  lemma SpliceNext(w: seq<int>, at: nat, run: seq<int>, k: nat, k': nat, before: seq<int>, after: seq<int>)
    requires k < |run| && at + k < |w| && k' == k + 1
    requires before == w[..at] + run[..k] + w[at + k..]
    requires after == before[at + k := run[k]]
    ensures after == w[..at] + run[..k'] + w[at + k'..]
  {
  }

  /** One element store, stated on the whole buffer. */
  method Store(write: array<int>, i: nat, x: int)
    requires i < write.Length
    modifies write
    ensures write[..] == old(write[..])[i := x]
  {
    write[i] := x;
  }

  /** The merge loop of Sorting.h:94-110 / :163-179: merges the blocks
      `[first, last)` and `[firstNext, lastNext)` of the read buffer into the
      write buffer from `writeHead` on and returns the advanced write head.
      Exactly `(last - first) + (lastNext - firstNext)` elements are written,
      the run `Merge` describes, and nothing else in the write buffer changes. */
  method MergeBlockPair(read: array<int>, readBase: nat, write: array<int>, writeBase: nat,
                        first: nat, last: nat, firstNext: nat, lastNext: nat, writeHead: nat)
    returns (writeEnd: nat)
    requires read != write
    requires first <= last && firstNext <= lastNext
    requires readBase + last <= read.Length && readBase + lastNext <= read.Length
    requires writeBase + writeHead + (last - first) + (lastNext - firstNext) <= write.Length
    modifies write
    ensures writeEnd == writeHead + (last - first) + (lastNext - firstNext)
    ensures var at, w := writeBase + writeHead, old(write[..]);
      write[..] == w[..at] + write[at..writeBase + writeEnd] + w[writeBase + writeEnd..]
    ensures Pending(old(read[..]), readBase + first, readBase + last, readBase + firstNext, readBase + lastNext,
      write[writeBase + writeHead..writeBase + writeEnd])
  {
    ghost var r, w := read[..], write[..];
    var hi, hi2 := readBase + last, readBase + lastNext;
    var cur, curNext := readBase + first, readBase + firstNext;
    ghost var run := StartRun(r, cur, hi, curNext, hi2);
    ghost var at := writeBase + writeHead;
    var head := writeBase + writeHead;
    ghost var k: nat := 0;
    while curNext != hi2 || cur != hi
      invariant readBase + first <= cur <= hi && readBase + firstNext <= curNext <= hi2
      invariant k == (cur - (readBase + first)) + (curNext - (readBase + firstNext))
      invariant head == at + k && k <= |run|
      invariant Pending(r, cur, hi, curNext, hi2, run[k..])
      invariant write[..] == w[..at] + run[..k] + w[at + k..]
      decreases (hi - cur) + (hi2 - curNext)
    {
      var x;
      ghost var k0 := k;
      k := k + 1;
      var takeLeft := if curNext == hi2 then true else if cur == hi then false else !(read[curNext] < read[cur]);
      if takeLeft {
        assert TakesLeft(r, cur, hi, curNext, hi2);
        x := read[cur];
        WriteLeft(r, cur, cur + 1, hi, curNext, hi2, run, k0, k);
        cur := cur + 1;
      } else {
        assert !TakesLeft(r, cur, hi, curNext, hi2);
        x := read[curNext];
        WriteRight(r, cur, hi, curNext, curNext + 1, hi2, run, k0, k);
        curNext := curNext + 1;
      }
      ghost var before := write[..];
      Store(write, head, x);
      SpliceNext(w, at, run, k0, k, before, write[..]);
      head := head + 1;
    }
    writeEnd := head - writeBase;
    PendingDone(r, cur, hi, curNext, hi2, run, k);
    RunDone(w, at, run, write[..]);
  }

  /** The whole run written: it is the slice at `at`. */
  lemma RunDone(w: seq<int>, at: nat, run: seq<int>, cur: seq<int>)
    requires at + |run| <= |w|
    requires cur == w[..at] + run[..|run|] + w[at + |run|..]
    ensures cur[at..at + |run|] == run
    ensures cur == w[..at] + cur[at..at + |run|] + w[at + |run|..]
  {
    assert run[..|run|] == run;
  }

  /** The pending run is unique: it is `Merge` of the two blocks. */
  lemma {:induction false} PendingIsMerge(r: seq<int>, lo: nat, hi: nat, lo2: nat, hi2: nat, run: seq<int>)
    requires lo <= hi <= |r| && lo2 <= hi2 <= |r|
    requires Pending(r, lo, hi, lo2, hi2, run)
    ensures run == Merge(r[lo..hi], r[lo2..hi2])
    decreases (hi - lo) + (hi2 - lo2)
  {
    var left, right := r[lo..hi], r[lo2..hi2];
    if lo == hi && lo2 == hi2 {
    } else if TakesLeft(r, lo, hi, lo2, hi2) {
      PendingIsMerge(r, lo + 1, hi, lo2, hi2, run[1..]);
      assert left[0] == r[lo] && left[1..] == r[lo + 1..hi];
      assert run == [run[0]] + run[1..];
    } else {
      PendingIsMerge(r, lo, hi, lo2 + 1, hi2, run[1..]);
      assert right[0] == r[lo2] && right[1..] == r[lo2 + 1..hi2];
      assert run == [run[0]] + run[1..];
    }
  }

  // ---------------------------------------------------------------------------
  // One pass
  // ---------------------------------------------------------------------------

  /** `i < numBlocks` with `numBlocks = n / blockSize` holds exactly when
      block `i` lies wholly inside the `n` elements. */
  lemma BlocksLeft(n: nat, blockSize: nat, i: nat)
    requires blockSize > 0
    ensures i < n / blockSize <==> (i + 1) * blockSize <= n
  {
    var q := n / blockSize;
    assert q * blockSize <= n < (q + 1) * blockSize;
    if i < q {
      assert (i + 1) * blockSize <= q * blockSize;
    } else {
      assert (q + 1) * blockSize <= (i + 1) * blockSize;
    }
  }

  /** The cursors of pair `i` (Sorting.h:84-90), from the write head on. */
  lemma PairBounds(n: nat, blockSize: nat, i: nat, start: nat)
    requires blockSize > 0 && i < n / blockSize && start == Min(i * blockSize, n)
    ensures i * blockSize == start && (i + 1) * blockSize == start + blockSize <= n
    ensures (i + 2) * blockSize == start + 2 * blockSize
  {
    BlocksLeft(n, blockSize, i);
  }

  /** Where the write head stands after pair `i`, and whether a pair follows. */
  lemma NextPair(n: nat, blockSize: nat, i: nat, i': nat, stop: nat)
    requires blockSize > 0 && i' == i + 2 && stop == Min((i + 2) * blockSize, n)
    ensures stop == Min(i' * blockSize, n)
    ensures i' < n / blockSize <==> stop + blockSize <= n
  {
    BlocksLeft(n, blockSize, i');
    assert (i' + 1) * blockSize == i' * blockSize + blockSize;
  }

  /** A slice of a slice. */
  lemma SliceOfSlice(a: seq<int>, base: nat, n: nat, lo: nat, hi: nat)
    requires lo <= hi <= n && base + n <= |a|
    ensures a[base..base + n][lo..hi] == a[base + lo..base + hi]
  {
    var s, t := a[base..base + n][lo..hi], a[base + lo..base + hi];
    assert |s| == |t|;
    forall k | 0 <= k < |s| ensures s[k] == t[k] {
      assert s[k] == a[base..base + n][lo + k];
    }
  }

  /** The pair starting at `start` is the head of what remains of the pass. */
  lemma PassFrom(read: seq<int>, write: seq<int>, blockSize: nat, start: nat, mid: nat, stop: nat)
    requires blockSize > 0 && |read| == |write|
    requires mid == start + blockSize <= |read| && stop == Min(start + 2 * blockSize, |read|)
    ensures Pass(read[start..], write[start..], blockSize) ==
      Merge(read[start..mid], read[mid..stop]) + Pass(read[stop..], write[stop..], blockSize)
  {
    var r, w, e := read[start..], write[start..], stop - start;
    assert |r| == |read| - start && Min(2 * blockSize, |r|) == e;
    PassHead(r, w, blockSize, e);
    DropSlice(read, start, 0, blockSize);
    DropSlice(read, start, blockSize, e);
    assert r[..blockSize] == read[start..mid] && r[blockSize..e] == read[mid..stop];
    DropDrop(read, start, stop);
    DropDrop(write, start, stop);
    PassOfEqual(r[e..], w[e..], read[stop..], write[stop..], blockSize);
  }

  lemma PassOfEqual(read: seq<int>, write: seq<int>, read': seq<int>, write': seq<int>, blockSize: nat)
    requires blockSize > 0 && |read| == |write| && read == read' && write == write'
    ensures Pass(read, write, blockSize) == Pass(read', write', blockSize)
  {
  }

  /** The pair the merge loop wrote is the pair `Merge` of `R`, the `n`
      elements of the read buffer from `readBase`. */
  lemma PairIsMerge(r: seq<int>, readBase: nat, n: nat, R: seq<int>, start: nat, mid: nat, mid': nat, stop: nat,
                    pair: seq<int>)
    requires readBase + n <= |r| && R == r[readBase..readBase + n] && start <= mid == mid' <= stop <= n
    requires Pending(r, readBase + start, readBase + mid, readBase + mid', readBase + stop, pair)
    ensures pair == Merge(R[start..mid], R[mid..stop])
  {
    PendingIsMerge(r, readBase + start, readBase + mid, readBase + mid', readBase + stop, pair);
    SliceOfSlice(r, readBase, n, start, mid);
    SliceOfSlice(r, readBase, n, mid, stop);
  }

  /** The done part of the pass grows by the next pair of `Pass`. */
  lemma PassPrefix(R: seq<int>, W: seq<int>, blockSize: nat, done: seq<int>, start: nat, mid: nat, stop: nat, pair: seq<int>)
    requires blockSize > 0 && |R| == |W|
    requires mid == start + blockSize <= |R| && stop == Min(start + 2 * blockSize, |R|)
    requires done + Pass(R[start..], W[start..], blockSize) == Pass(R, W, blockSize)
    requires pair == Merge(R[start..mid], R[mid..stop])
    ensures (done + pair) + Pass(R[stop..], W[stop..], blockSize) == Pass(R, W, blockSize)
  {
    PassFrom(R, W, blockSize, start, mid, stop);
    AppendAssoc(done, pair, Pass(R[stop..], W[stop..], blockSize));
  }

  /** The write buffer after the pair is spliced in at the write head. */
  lemma SplicePair(w: seq<int>, base: nat, done: seq<int>, start: nat, stop: nat,
                   before: seq<int>, after: seq<int>)
    requires |done| == start <= stop && base + stop <= |w|
    requires before == w[..base] + done + w[base + start..]
    requires |after| == |before|
    requires after == before[..base + start] + after[base + start..base + stop] + before[base + stop..]
    ensures after == w[..base] + (done + after[base + start..base + stop]) + w[base + stop..]
  {
    assert before[..base + start] == w[..base] + done;
    assert before[base + stop..] == w[base + stop..];
  }

  /** Pass invariant: `done`, the first `s` elements of `Pass(R, W,
      blockSize)`, are written at the base of the write buffer `cur`, whose
      other elements are those of `w`. */
  ghost predicate PassWritten(R: seq<int>, W: seq<int>, blockSize: nat, w: seq<int>, writeBase: nat,
                              s: nat, done: seq<int>, cur: seq<int>)
    requires blockSize > 0 && |R| == |W| && s <= |R|
    requires writeBase + |R| <= |w|
  {
    |done| == s && done + Pass(R[s..], W[s..], blockSize) == Pass(R, W, blockSize) &&
    cur == w[..writeBase] + done + w[writeBase + s..]
  }

  /** The merge of one pair inside the pass loop (Sorting.h:94-110 /
      :163-179): the pair extends the done part of the pass. */
  method MergeNextPair(read: array<int>, readBase: nat, write: array<int>, writeBase: nat, n: nat,
                       blockSize: nat, first: nat, last: nat, firstNext: nat, lastNext: nat,
                       ghost R: seq<int>, ghost W: seq<int>, ghost w: seq<int>, ghost done: seq<int>)
    returns (next: nat, ghost done': seq<int>)
    requires read != write && blockSize > 0
    requires readBase + n <= read.Length && writeBase + n <= write.Length == |w|
    requires R == read[readBase..readBase + n] && W == w[writeBase..writeBase + n]
    requires last == firstNext == first + blockSize <= n && lastNext == Min(first + 2 * blockSize, n)
    requires PassWritten(R, W, blockSize, w, writeBase, first, done, write[..])
    modifies write
    ensures next == lastNext
    ensures PassWritten(R, W, blockSize, w, writeBase, next, done', write[..])
  {
    ghost var before, r := write[..], read[..];
    assert R == r[readBase..readBase + n];
    next := MergeBlockPair(read, readBase, write, writeBase, first, last, firstNext, lastNext, first);
    ghost var pair := write[writeBase + first..writeBase + next];
    PairIsMerge(r, readBase, n, R, first, last, firstNext, lastNext, pair);
    PassPrefix(R, W, blockSize, done, first, last, lastNext, pair);
    SplicePair(w, writeBase, done, first, lastNext, before, write[..]);
    done' := done + pair;
  }

  /** Once no whole block remains, the rest of the pass keeps the old
      contents of the write buffer. */
  lemma PassEnd(R: seq<int>, W: seq<int>, w: seq<int>, writeBase: nat, blockSize: nat, s: nat,
                done: seq<int>, cur: seq<int>)
    requires blockSize > 0 && |R| == |W| && writeBase + |W| <= |w| && W == w[writeBase..writeBase + |W|]
    requires s <= |R| < s + blockSize
    requires PassWritten(R, W, blockSize, w, writeBase, s, done, cur)
    ensures cur[writeBase..writeBase + |W|] == Pass(R, W, blockSize)
    ensures cur[..writeBase] == w[..writeBase] && cur[writeBase + |W|..] == w[writeBase + |W|..]
  {
    assert Pass(R[s..], W[s..], blockSize) == W[s..];
    assert w[writeBase + s..] == W[s..] + w[writeBase + |W|..];
    AppendAssoc(done, W[s..], w[writeBase + |W|..]);
    PassWrote(cur, w, writeBase, |W|, Pass(R, W, blockSize));
  }

  /** The pass loop of Sorting.h:81-111 / :150-180 over `n` elements: block
      pairs `[i*blockSize, (i+1)*blockSize)` and `[(i+1)*blockSize,
      Min((i+2)*blockSize, n))` for even `i < n / blockSize`, written on from
      one write head. The write buffer ends as `Pass` says; nothing outside
      its `n` elements changes. */
  method MergePass(read: array<int>, readBase: nat, write: array<int>, writeBase: nat, n: nat, blockSize: nat)
    requires read != write && blockSize > 0
    requires readBase + n <= read.Length && writeBase + n <= write.Length
    modifies write
    ensures write[writeBase..writeBase + n] ==
      Pass(old(read[readBase..readBase + n]), old(write[writeBase..writeBase + n]), blockSize)
    ensures write[..writeBase] == old(write[..writeBase]) && write[writeBase + n..] == old(write[writeBase + n..])
  {
    ghost var w := write[..];
    ghost var R, W := read[readBase..readBase + n], w[writeBase..writeBase + n];
    var writeHead;
    ghost var done;
    writeHead, done := MergePairs(read, readBase, write, writeBase, n, blockSize, R, W, w);
    PassEnd(R, W, w, writeBase, blockSize, writeHead, done, write[..]);
  }

  /** The loop of `MergePass`: every block pair that starts inside the `n`
      elements is merged, and the write head stops at the last, incomplete
      block, which the pass leaves as it was. */
  method MergePairs(read: array<int>, readBase: nat, write: array<int>, writeBase: nat, n: nat, blockSize: nat,
                    ghost R: seq<int>, ghost W: seq<int>, ghost w: seq<int>)
    returns (writeHead: nat, ghost done: seq<int>)
    requires read != write && blockSize > 0
    requires readBase + n <= read.Length && writeBase + n <= write.Length
    requires w == write[..] && R == read[readBase..readBase + n] && W == w[writeBase..writeBase + n]
    modifies write
    ensures writeHead <= n < writeHead + blockSize
    ensures PassWritten(R, W, blockSize, w, writeBase, writeHead, done, write[..])
  {
    done := [];
    var numBlocks := n / blockSize;
    writeHead := 0;
    var i: nat := 0;
    BlocksLeft(n, blockSize, i);
    while i < numBlocks
      invariant writeHead == Min(i * blockSize, n)
      invariant i < numBlocks <==> writeHead + blockSize <= n
      invariant PassWritten(R, W, blockSize, w, writeBase, writeHead, done, write[..])
      invariant read[readBase..readBase + n] == R
      decreases n - writeHead
    {
      PairBounds(n, blockSize, i, writeHead);
      var first, last := i * blockSize, (i + 1) * blockSize;
      var firstNext, lastNext := (i + 1) * blockSize, Min((i + 2) * blockSize, n);
      var next;
      next, done := MergeNextPair(read, readBase, write, writeBase, n, blockSize,
        first, last, firstNext, lastNext, R, W, w, done);
      NextPair(n, blockSize, i, i + 2, next);
      i, writeHead := i + 2, next;
    }
  }


  // ---------------------------------------------------------------------------
  // The whole sort
  // ---------------------------------------------------------------------------

  /** The `n` elements from `base` of a buffer that a pass wrote. */
  lemma PassWrote(cur: seq<int>, w: seq<int>, base: nat, n: nat, p: seq<int>)
    requires base + n <= |w| && |p| == n
    requires cur == w[..base] + p + w[base + n..]
    ensures cur[base..base + n] == p
    ensures cur[..base] == w[..base] && cur[base + n..] == w[base + n..]
  {
  }

  /** A sequence is its three slices. */
  lemma Reassemble(cur: seq<int>, A: seq<int>, begin: nat, end: nat, mid: seq<int>)
    requires begin <= end <= |A| == |cur|
    requires cur[..begin] == A[..begin] && cur[begin..end] == mid && cur[end..] == A[end..]
    ensures cur == A[..begin] + mid + A[end..]
  {
    assert cur == cur[..begin] + cur[begin..end] + cur[end..];
  }

  /** The final loop of Sorting.h:191-193 (`std::copy` at :121): copies `n`
      elements of the read buffer to the caller's range. The two may be the
      same range of the same array. */
  method CopyBack(source: array<int>, sourceBase: nat, target: array<int>, targetBase: nat, n: nat)
    requires sourceBase + n <= source.Length && targetBase + n <= target.Length
    requires source == target ==> sourceBase == targetBase
    modifies target
    ensures target[targetBase..targetBase + n] == old(source[sourceBase..sourceBase + n])
    ensures target[..targetBase] == old(target[..targetBase])
    ensures target[targetBase + n..] == old(target[targetBase + n..])
  {
    ghost var t, src := target[..], source[sourceBase..sourceBase + n];
    var i := 0;
    while i < n
      invariant i <= n
      invariant forall j :: i <= j < n ==> source[sourceBase + j] == src[j]
      invariant forall j :: 0 <= j < i ==> target[targetBase + j] == src[j]
      invariant forall j :: 0 <= j < target.Length && !(targetBase <= j < targetBase + n) ==> target[j] == t[j]
    {
      target[targetBase + i] := source[sourceBase + i];
      i := i + 1;
    }
  }

  /** One pass of `Passes` taken: the remaining passes reach the same end. */
  lemma PassesStep(read: seq<int>, write: seq<int>, next: seq<int>, blockSize: nat, goal: seq<int>)
    requires 0 < blockSize < |read| == |write|
    requires Passes(read, write, blockSize) == goal && next == Pass(read, write, blockSize)
    ensures |next| == |read| && Passes(next, read, blockSize + blockSize) == goal
  {
  }

  /** What the sort achieves, by the lemmas of `MergeSpec`. */
  lemma SortOutcome(A: seq<int>, begin: nat, end: nat, result: seq<int>)
    requires begin <= end <= |A|
    requires result == A[..begin] + BottomUp(A[begin..end]) + A[end..]
    ensures multiset(result[begin..end]) == multiset(A[begin..end])
    ensures end - begin <= 1 ==> result == A
    ensures Sorted(A[begin..end]) ==> result == A
    ensures forall k :: end - begin == Pow2(k) ==> Sorted(result[begin..end])
  {
    var s := A[begin..end];
    PassWrote(result, A, begin, end - begin, BottomUp(s));
    BottomUpPermutation(s);
    if end - begin <= 1 {
      BottomUpShort(s);
      assert A == A[..begin] + s + A[end..];
    }
    if Sorted(s) {
      BottomUpOfSorted(s);
      assert A == A[..begin] + s + A[end..];
    }
    forall k | end - begin == Pow2(k) ensures Sorted(result[begin..end]) {
      BottomUpSortedPow2(s, k);
    }
  }

  /** One pass of `RunPasses` from one of the caller's range and the working
      area into the other: the write buffer's `n` elements become `Pass` of
      the two, the read buffer's stay, and the caller's array outside the
      range is unchanged. */
  method SortPass(a: array<int>, begin: nat, workingArea: array<int>, n: nat,
                  readTarget: array<int>, readBase: nat, writeTarget: array<int>, writeBase: nat, blockSize: nat)
    requires begin + n <= a.Length && workingArea.Length == n && a != workingArea && blockSize > 0
    requires (readTarget == a && readBase == begin && writeTarget == workingArea && writeBase == 0) ||
      (readTarget == workingArea && readBase == 0 && writeTarget == a && writeBase == begin)
    modifies writeTarget
    ensures writeTarget[writeBase..writeBase + n] ==
      Pass(old(readTarget[readBase..readBase + n]), old(writeTarget[writeBase..writeBase + n]), blockSize)
    ensures readTarget[readBase..readBase + n] == old(readTarget[readBase..readBase + n])
    ensures a[..begin] == old(a[..begin]) && a[begin + n..] == old(a[begin + n..])
  {
    MergePass(readTarget, readBase, writeTarget, writeBase, n, blockSize);
  }

  /** The pass loop of Sorting.h:146-188 (:77-119 in the container
      version): passes with doubling `blockSize` while `blockSize < n`, the
      read and write buffers swapping roles after each. The working area
      starts zeroed, as the `std::vector` constructor leaves it. Returns the
      final read buffer, which holds `BottomUp` of the range; the caller's
      array outside the range is unchanged. */
  method RunPasses(a: array<int>, begin: nat, workingArea: array<int>, n: nat)
    returns (readTarget: array<int>, readBase: nat)
    requires begin + n <= a.Length && workingArea.Length == n && a != workingArea
    requires workingArea[..] == Zeros(n)
    modifies a, workingArea
    ensures (readTarget == a && readBase == begin) || (readTarget == workingArea && readBase == 0)
    ensures readTarget[readBase..readBase + n] == BottomUp(old(a[begin..begin + n]))
    ensures a[..begin] == old(a[..begin]) && a[begin + n..] == old(a[begin + n..])
  {
    ghost var s, front, back := a[begin..begin + n], a[..begin], a[begin + n..];
    var blockSize: nat := 1;
    var writeTarget, writeBase := workingArea, 0;
    readTarget, readBase := a, begin;
    ghost var readSeq, writeSeq := s, workingArea[..];
    ghost var goal := BottomUp(s);
    while blockSize < n
      invariant (readTarget == a && readBase == begin && writeTarget == workingArea && writeBase == 0) ||
        (readTarget == workingArea && readBase == 0 && writeTarget == a && writeBase == begin)
      invariant readSeq == readTarget[readBase..readBase + n] && writeSeq == writeTarget[writeBase..writeBase + n]
      invariant a[..begin] == front && a[begin + n..] == back
      invariant blockSize > 0 && |readSeq| == |writeSeq| && Passes(readSeq, writeSeq, blockSize) == goal
      decreases n - blockSize
    {
      SortPass(a, begin, workingArea, n, readTarget, readBase, writeTarget, writeBase, blockSize);
      PassesStep(readSeq, writeSeq, writeTarget[writeBase..writeBase + n], blockSize, goal);
      readSeq, writeSeq := writeTarget[writeBase..writeBase + n], readSeq;
      writeTarget, readTarget := readTarget, writeTarget;
      writeBase, readBase := readBase, writeBase;
      blockSize := blockSize + blockSize;
    }
  }

  /** The pointer-range `MergeSort(begin, end)` of Sorting.h:130-194: the
      passes, then the final read buffer copied back (:191-193). The range
      ends as `BottomUp` of its old contents; the rest of `a` is unchanged.
      By the lemmas of `MergeSpec`: a permutation always, sorted when the
      length is a power of two, unchanged when it is at most 1. */
  method MergeSortRange(a: array<int>, begin: nat, end: nat)
    requires begin <= end <= a.Length
    modifies a
    ensures a[..] == old(a[..begin]) + BottomUp(old(a[begin..end])) + old(a[end..])
    ensures multiset(a[begin..end]) == multiset(old(a[begin..end]))
    ensures end - begin <= 1 ==> a[..] == old(a[..])
    ensures Sorted(old(a[begin..end])) ==> a[..] == old(a[..])
    ensures forall k :: end - begin == Pow2(k) ==> Sorted(a[begin..end])
  {
    ghost var s, A := a[begin..end], a[..];
    var n := end - begin;
    var workingArea := new int[n](_ => 0);
    assert workingArea[..] == Zeros(n);
    var readTarget, readBase := RunPasses(a, begin, workingArea, n);
    CopyBack(readTarget, readBase, a, begin, n);
    Reassemble(a[..], A, begin, end, BottomUp(s));
    SortOutcome(A, begin, end, a[..]);
  }

  /** The container `MergeSort(collection)` of Sorting.h:61-122: the same
      algorithm over the whole collection, copied back with `std::copy`. */
  method MergeSort(a: array<int>)
    modifies a
    ensures a[..] == BottomUp(old(a[..]))
    ensures multiset(a[..]) == multiset(old(a[..]))
    ensures a.Length <= 1 ==> a[..] == old(a[..])
    ensures Sorted(old(a[..])) ==> a[..] == old(a[..])
    ensures forall k :: a.Length == Pow2(k) ==> Sorted(a[..])
  {
    ghost var A := a[..];
    MergeSortRange(a, 0, a.Length);
    assert A[..0] == [] && A[a.Length..] == [] && A[0..a.Length] == A;
    assert a[0..a.Length] == a[..];
  }
}
