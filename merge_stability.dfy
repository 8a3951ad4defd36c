/** Stability of the bottom-up merge sort (Sorting.h:61-194). Every element
    carries a tag, its index in the input; the merge moves each tag along
    with its element, deciding by the elements alone exactly as
    Sorting.h:94-110 does. Among equal elements the tags then increase,
    first for one block pair and then, for power-of-two lengths, for the
    whole sort. */
module MergeStability {
  import opened SortUtil
  import opened MergeSpec

  // ---------------------------------------------------------------------------
  // Tags through one merge
  // ---------------------------------------------------------------------------

  /** The tags of the elements `Merge(left, right)` writes, when the elements
      of `left` carry the tags `lo` and those of `right` the tags `ro`: the
      head tag of the block the merge takes. */
  function MergeOrigins(left: seq<int>, right: seq<int>, lo: seq<int>, ro: seq<int>): (o: seq<int>)
    requires |lo| == |left| && |ro| == |right|
    ensures |o| == |left| + |right|
    decreases |left| + |right|
  {
    if |right| == 0 then
      if |left| == 0 then [] else [lo[0]] + MergeOrigins(left[1..], right, lo[1..], ro)
    else if |left| == 0 || right[0] < left[0] then
      [ro[0]] + MergeOrigins(left, right[1..], lo, ro[1..])
    else
      [lo[0]] + MergeOrigins(left[1..], right, lo[1..], ro)
  }

  /** A written element and its tag are always an element of one block
      with its own tag: whatever holds of every (element, tag) pair of
      both blocks holds of every pair the merge writes. */
  lemma {:induction false} MergeKeepsPairs(left: seq<int>, right: seq<int>, lo: seq<int>, ro: seq<int>,
                                           P: (int, int) -> bool)
    requires |lo| == |left| && |ro| == |right|
    requires forall i :: 0 <= i < |left| ==> P(left[i], lo[i])
    requires forall j :: 0 <= j < |right| ==> P(right[j], ro[j])
    ensures forall k :: 0 <= k < |left| + |right| ==>
      P(Merge(left, right)[k], MergeOrigins(left, right, lo, ro)[k])
    decreases |left| + |right|
  {
    var m, o := Merge(left, right), MergeOrigins(left, right, lo, ro);
    if |right| == 0 && |left| == 0 {
    } else if |right| == 0 || (|left| > 0 && !(right[0] < left[0])) {
      assert forall i :: 0 <= i < |left[1..]| ==> left[1..][i] == left[i + 1] && lo[1..][i] == lo[i + 1];
      MergeKeepsPairs(left[1..], right, lo[1..], ro, P);
      var m', o' := Merge(left[1..], right), MergeOrigins(left[1..], right, lo[1..], ro);
      assert m == [left[0]] + m' && o == [lo[0]] + o';
      forall k | 0 <= k < |m| ensures P(m[k], o[k]) {
        if k > 0 { assert m[k] == m'[k - 1] && o[k] == o'[k - 1]; }
      }
    } else {
      assert forall j :: 0 <= j < |right[1..]| ==> right[1..][j] == right[j + 1] && ro[1..][j] == ro[j + 1];
      MergeKeepsPairs(left, right[1..], lo, ro[1..], P);
      var m', o' := Merge(left, right[1..]), MergeOrigins(left, right[1..], lo, ro[1..]);
      assert m == [right[0]] + m' && o == [ro[0]] + o';
      forall k | 0 <= k < |m| ensures P(m[k], o[k]) {
        if k > 0 { assert m[k] == m'[k - 1] && o[k] == o'[k - 1]; }
      }
    }
  }

  /** Equal elements of `m` carry increasing tags. */
  ghost predicate KeepsOrder(m: seq<int>, o: seq<int>)
    requires |m| == |o|
  {
    forall k1, k2 :: 0 <= k1 < k2 < |m| && m[k1] == m[k2] ==> o[k1] < o[k2]
  }

  /** Every tag of `lo` is below every tag of `ro`. */
  ghost predicate Before(lo: seq<int>, ro: seq<int>)
  {
    forall i, j :: 0 <= i < |lo| && 0 <= j < |ro| ==> lo[i] < ro[j]
  }

  lemma KeepsOrderDrop(m: seq<int>, o: seq<int>)
    requires |m| == |o| > 0 && KeepsOrder(m, o)
    ensures KeepsOrder(m[1..], o[1..])
  {
    forall k1, k2 | 0 <= k1 < k2 < |m| - 1 && m[1..][k1] == m[1..][k2] ensures o[1..][k1] < o[1..][k2] {
      assert m[k1 + 1] == m[k2 + 1];
    }
  }

  /** An element in front whose tag is below that of every equal element
      behind it. */
  lemma KeepsOrderCons(x: int, t: int, m: seq<int>, o: seq<int>)
    requires |m| == |o| && KeepsOrder(m, o)
    requires forall k :: 0 <= k < |m| ==> (m[k] == x ==> t < o[k])
    ensures KeepsOrder([x] + m, [t] + o)
  {
    var m', o' := [x] + m, [t] + o;
    forall k1, k2 | 0 <= k1 < k2 < |m'| && m'[k1] == m'[k2] ensures o'[k1] < o'[k2] {
      assert m'[k2] == m[k2 - 1] && o'[k2] == o[k2 - 1];
      if k1 > 0 {
        assert m'[k1] == m[k1 - 1] && o'[k1] == o[k1 - 1];
      }
    }
  }

  /** The merge is stable: if the left block is sorted, equal elements
      within each block carry increasing tags and the left block's tags
      are all below the right block's, then equal elements of the merge
      carry increasing tags. A tie takes the left block (the right head is
      taken only when strictly smaller). */
  lemma {:induction false} MergeStable(left: seq<int>, right: seq<int>, lo: seq<int>, ro: seq<int>)
    requires |lo| == |left| && |ro| == |right|
    requires Sorted(left) && KeepsOrder(left, lo) && KeepsOrder(right, ro) && Before(lo, ro)
    ensures KeepsOrder(Merge(left, right), MergeOrigins(left, right, lo, ro))
    decreases |left| + |right|
  {
    if |right| == 0 && |left| == 0 {
    } else if |right| == 0 || (|left| > 0 && !(right[0] < left[0])) {
      StableTakeLeft(left, right, lo, ro);
    } else {
      StableTakeRight(left, right, lo, ro);
    }
  }

  /** The step of `MergeStable` when the left head is written first. */
  lemma {:induction false} StableTakeLeft(left: seq<int>, right: seq<int>, lo: seq<int>, ro: seq<int>)
    requires |lo| == |left| > 0 && |ro| == |right|
    requires |right| == 0 || !(right[0] < left[0])
    requires Sorted(left) && KeepsOrder(left, lo) && KeepsOrder(right, ro) && Before(lo, ro)
    ensures KeepsOrder(Merge(left, right), MergeOrigins(left, right, lo, ro))
    decreases |left| + |right|, 0
  {
    var left', lo' := left[1..], lo[1..];
    SortedDrop(left, 1);
    KeepsOrderDrop(left, lo);
    MergeStable(left', right, lo', ro);
    var x, t := left[0], lo[0];
    forall i | 0 <= i < |left'| ensures left'[i] == x ==> t < lo'[i] {
      assert left'[i] == left[i + 1] && lo'[i] == lo[i + 1];
    }
    MergeKeepsPairs(left', right, lo', ro, (v, u) => v == x ==> t < u);
    KeepsOrderCons(x, t, Merge(left', right), MergeOrigins(left', right, lo', ro));
  }

  /** The step of `MergeStable` when the right head is written first: no
      element of the sorted left block equals it. */
  lemma {:induction false} StableTakeRight(left: seq<int>, right: seq<int>, lo: seq<int>, ro: seq<int>)
    requires |lo| == |left| && |ro| == |right| > 0
    requires |left| == 0 || right[0] < left[0]
    requires Sorted(left) && KeepsOrder(left, lo) && KeepsOrder(right, ro) && Before(lo, ro)
    ensures KeepsOrder(Merge(left, right), MergeOrigins(left, right, lo, ro))
    decreases |left| + |right|, 0
  {
    var right', ro' := right[1..], ro[1..];
    KeepsOrderDrop(right, ro);
    MergeStable(left, right', lo, ro');
    var x, t := right[0], ro[0];
    forall i | 0 <= i < |left| ensures left[i] != x {
      assert left[0] <= left[i];
    }
    forall j | 0 <= j < |right'| ensures right'[j] == x ==> t < ro'[j] {
      assert right'[j] == right[j + 1] && ro'[j] == ro[j + 1];
    }
    MergeKeepsPairs(left, right', lo, ro', (v, u) => v == x ==> t < u);
    KeepsOrderCons(x, t, Merge(left, right'), MergeOrigins(left, right', lo, ro'));
  }

  /** The consecutive tags `first`, `first + 1`, ...: read-buffer indices. */
  function Indices(first: int, n: nat): (t: seq<int>)
    ensures |t| == n && forall i :: 0 <= i < n ==> t[i] == first + i
  {
    seq(n, i => first + i)
  }

  /** One block pair at the cursors of Sorting.h:86-89, the left block read
      from `first` and the right one from `firstNext`: every element is
      written with the read-buffer index it was taken from, and equal
      elements are written in increasing read-buffer order. */
  lemma MergeStableAtCursors(r: seq<int>, first: nat, last: nat, firstNext: nat, lastNext: nat)
    requires first <= last <= firstNext <= lastNext <= |r|
    requires Sorted(r[first..last]) && Sorted(r[firstNext..lastNext])
    ensures var left, right := r[first..last], r[firstNext..lastNext];
      var m := Merge(left, right);
      var o := MergeOrigins(left, right, Indices(first, last - first), Indices(firstNext, lastNext - firstNext));
      (forall k :: 0 <= k < |m| ==> 0 <= o[k] < |r| && m[k] == r[o[k]]) && KeepsOrder(m, o)
  {
    var left, right := r[first..last], r[firstNext..lastNext];
    var lo, ro := Indices(first, last - first), Indices(firstNext, lastNext - firstNext);
    MergeKeepsPairs(left, right, lo, ro, (v, u) => 0 <= u < |r| && v == r[u]);
    MergeStable(left, right, lo, ro);
  }

  // ---------------------------------------------------------------------------
  // Tags through the passes
  // ---------------------------------------------------------------------------

  /** The tags of `Pass(read, write, blockSize)`, when the elements of the
      read buffer carry `ro` and those of the write buffer `wo`: each pair
      as `MergeOrigins`, and the tags of whatever the pass leaves in the
      write buffer. */
  function PassOrigins(read: seq<int>, write: seq<int>, ro: seq<int>, wo: seq<int>, blockSize: nat): (next: seq<int>)
    requires blockSize > 0 && |read| == |write| == |ro| == |wo|
    ensures |next| == |read|
    decreases |read|
  {
    if |read| < blockSize then wo
    else
      var secondEnd := Min(2 * blockSize, |read|);
      MergeOrigins(read[..blockSize], read[blockSize..secondEnd], ro[..blockSize], ro[blockSize..secondEnd])
        + PassOrigins(read[secondEnd..], write[secondEnd..], ro[secondEnd..], wo[secondEnd..], blockSize)
  }

  /** The tags of `Passes(read, write, blockSize)`: the buffers and their
      tags swap roles after every pass. */
  function PassesOrigins(read: seq<int>, write: seq<int>, ro: seq<int>, wo: seq<int>, blockSize: nat): (r: seq<int>)
    requires blockSize > 0 && |read| == |write| == |ro| == |wo|
    ensures |r| == |read|
    decreases |read| - blockSize
  {
    if blockSize >= |read| then ro
    else PassesOrigins(Pass(read, write, blockSize), read, PassOrigins(read, write, ro, wo, blockSize), ro, 2 * blockSize)
  }

  /** The tags of `BottomUp(s)`: the input is tagged with its indices. The
      working area holds no input element; its tags (here its zeros) are
      never written to the result, since the first pass overwrites every
      slot (`PassOneOverwrites`). */
  function BottomUpOrigins(s: seq<int>): (o: seq<int>)
    ensures |o| == |s|
  {
    PassesOrigins(s, Zeros(|s|), Indices(0, |s|), Zeros(|s|), 1)
  }

  /** Each element of `r` is the element of `s` its tag names. */
  ghost predicate Traced(r: seq<int>, o: seq<int>, s: seq<int>)
  {
    |r| == |o| && forall k :: 0 <= k < |r| ==> 0 <= o[k] < |s| && r[k] == s[o[k]]
  }

  /** Every aligned chunk of width `c`, the first starting at tag `base`,
      is stable and carries only tags of its own index range. */
  ghost predicate ChunksStable(r: seq<int>, o: seq<int>, c: nat, base: int)
    requires c > 0 && |r| == |o|
    decreases |r|
  {
    if |r| <= c then ChunkStable(r, o, c, base)
    else ChunkStable(r[..c], o[..c], c, base) && ChunksStable(r[c..], o[c..], c, base + c)
  }

  ghost predicate ChunkStable(r: seq<int>, o: seq<int>, c: nat, base: int)
    requires |r| == |o|
  {
    KeepsOrder(r, o) && forall k :: 0 <= k < |o| ==> base <= o[k] < base + c
  }

  /** Before the first pass every chunk of width 1 is one element tagged
      with its own index. */
  lemma {:induction false} ChunksStableOne(r: seq<int>, base: int)
    ensures ChunksStable(r, Indices(base, |r|), 1, base)
    decreases |r|
  {
    if |r| > 1 {
      ChunksStableOne(r[1..], base + 1);
      assert Indices(base, |r|)[1..] == Indices(base + 1, |r| - 1);
    }
  }

  /** The first two chunks of a buffer with stable chunks, and the rest. */
  lemma ChunksStableSplit(r: seq<int>, o: seq<int>, c: nat, base: int)
    requires c > 0 && |r| == |o| >= 2 * c
    requires ChunksStable(r, o, c, base)
    ensures ChunkStable(r[..c], o[..c], c, base)
    ensures ChunkStable(r[c..2 * c], o[c..2 * c], c, base + c)
    ensures ChunksStable(r[2 * c..], o[2 * c..], c, base + 2 * c)
  {
    DropDrop(r, c, 2 * c);
    DropDrop(o, c, 2 * c);
    if |r| == 2 * c {
      assert r[c..] == r[c..2 * c] && o[c..] == o[c..2 * c];
      assert r[2 * c..] == [] && o[2 * c..] == [];
    } else {
      assert r[c..][..c] == r[c..2 * c] && o[c..][..c] == o[c..2 * c];
    }
  }

  /** A stable chunk in front of a buffer with stable chunks. */
  lemma ChunksStableCons(r: seq<int>, o: seq<int>, rest: seq<int>, orest: seq<int>, c: nat, base: int)
    requires c > 0 && |r| == |o| == c && |rest| == |orest|
    requires ChunkStable(r, o, c, base) && ChunksStable(rest, orest, c, base + c)
    ensures ChunksStable(r + rest, o + orest, c, base)
  {
    if |rest| == 0 {
      assert r + rest == r && o + orest == o;
    } else {
      assert (r + rest)[..c] == r && (o + orest)[..c] == o;
      assert (r + rest)[c..] == rest && (o + orest)[c..] == orest;
    }
  }

  /** A pass over a buffer holding at least one whole block pair. */
  lemma PassOriginsFull(read: seq<int>, write: seq<int>, ro: seq<int>, wo: seq<int>, blockSize: nat)
    requires blockSize > 0 && |read| == |write| == |ro| == |wo| >= 2 * blockSize
    ensures PassOrigins(read, write, ro, wo, blockSize) ==
      MergeOrigins(read[..blockSize], read[blockSize..2 * blockSize], ro[..blockSize], ro[blockSize..2 * blockSize])
        + PassOrigins(read[2 * blockSize..], write[2 * blockSize..], ro[2 * blockSize..], wo[2 * blockSize..], blockSize)
  {
    assert Min(2 * blockSize, |read|) == 2 * blockSize;
  }

  /** The merge of two adjacent stable chunks is a stable chunk of twice
      the width. */
  lemma MergeChunks(left: seq<int>, right: seq<int>, lo: seq<int>, ro: seq<int>, c: nat, base: int)
    requires c > 0 && |left| == |lo| == c && |right| == |ro| == c
    requires Sorted(left) && ChunkStable(left, lo, c, base) && ChunkStable(right, ro, c, base + c)
    ensures ChunkStable(Merge(left, right), MergeOrigins(left, right, lo, ro), 2 * c, base)
  {
    MergeStable(left, right, lo, ro);
    MergeKeepsPairs(left, right, lo, ro, (v, u) => base <= u < base + 2 * c);
  }

  /** Traced buffers put side by side. */
  lemma TracedAppend(r: seq<int>, o: seq<int>, r': seq<int>, o': seq<int>, s: seq<int>)
    requires Traced(r, o, s) && Traced(r', o', s)
    ensures Traced(r + r', o + o', s)
  {
    forall k | 0 <= k < |r + r'| ensures 0 <= (o + o')[k] < |s| && (r + r')[k] == s[(o + o')[k]] {
      if k >= |r| {
        assert (r + r')[k] == r'[k - |r|] && (o + o')[k] == o'[k - |r|];
      }
    }
  }

  /** Slices of a traced buffer are traced. */
  lemma TracedSlice(r: seq<int>, o: seq<int>, s: seq<int>, lo: nat, hi: nat)
    requires Traced(r, o, s) && lo <= hi <= |r|
    ensures Traced(r[lo..hi], o[lo..hi], s)
    ensures hi == |r| ==> Traced(r[lo..], o[lo..], s)
  {
    forall k | 0 <= k < hi - lo ensures 0 <= o[lo..hi][k] < |s| && r[lo..hi][k] == s[o[lo..hi][k]] {
      assert r[lo..hi][k] == r[lo + k] && o[lo..hi][k] == o[lo + k];
    }
    if hi == |r| {
      assert r[lo..hi] == r[lo..] && o[lo..hi] == o[lo..];
    }
  }

  /** When the buffer is a whole number of block pairs, every element a
      pass writes is traced to the input through its tag. */
  lemma {:induction false} PassTraced(read: seq<int>, write: seq<int>, ro: seq<int>, wo: seq<int>,
                                      blockSize: nat, s: seq<int>)
    requires blockSize > 0 && |read| == |write| == |ro| == |wo|
    requires Rem(|read|, 2 * blockSize) == 0 && Traced(read, ro, s)
    ensures Traced(Pass(read, write, blockSize), PassOrigins(read, write, ro, wo, blockSize), s)
    decreases |read|
  {
    var n, c := |read|, 2 * blockSize;
    if n > 0 {
      RemStep(n, c);
      PassFull(read, write, blockSize);
      PassOriginsFull(read, write, ro, wo, blockSize);
      var left, right, lo, rgo := read[..blockSize], read[blockSize..c], ro[..blockSize], ro[blockSize..c];
      TracedSlice(read, ro, s, 0, blockSize);
      TracedSlice(read, ro, s, blockSize, c);
      TracedSlice(read, ro, s, c, n);
      MergeKeepsPairs(left, right, lo, rgo, (v, u) => 0 <= u < |s| && v == s[u]);
      PassTraced(read[c..], write[c..], ro[c..], wo[c..], blockSize, s);
      TracedAppend(Merge(left, right), MergeOrigins(left, right, lo, rgo),
        Pass(read[c..], write[c..], blockSize), PassOrigins(read[c..], write[c..], ro[c..], wo[c..], blockSize), s);
    }
  }

  /** When the buffer is a whole number of block pairs, a pass turns
      sorted, stable chunks of `blockSize` into stable chunks of
      `2 * blockSize`. */
  lemma {:induction false} PassChunksStable(read: seq<int>, write: seq<int>, ro: seq<int>, wo: seq<int>,
                                            blockSize: nat, base: int)
    requires blockSize > 0 && |read| == |write| == |ro| == |wo|
    requires Rem(|read|, 2 * blockSize) == 0
    requires ChunksSorted(read, blockSize) && ChunksStable(read, ro, blockSize, base)
    ensures ChunksStable(Pass(read, write, blockSize), PassOrigins(read, write, ro, wo, blockSize), 2 * blockSize, base)
    decreases |read|
  {
    var c := 2 * blockSize;
    if |read| == 0 {
      assert Pass(read, write, blockSize) == [] && PassOrigins(read, write, ro, wo, blockSize) == [];
    } else {
      RemStep(|read|, c);
      ChunksSortedSplit(read, blockSize);
      ChunksStableSplit(read, ro, blockSize, base);
      PassChunksStable(read[c..], write[c..], ro[c..], wo[c..], blockSize, base + c);
      PassChunksStablePair(read, write, ro, wo, blockSize, base,
        Pass(read[c..], write[c..], blockSize), PassOrigins(read[c..], write[c..], ro[c..], wo[c..], blockSize));
    }
  }

  /** The step of `PassChunksStable` over the first block pair, with
      `rest` and `orest` the pass over what follows it. */
  lemma PassChunksStablePair(read: seq<int>, write: seq<int>, ro: seq<int>, wo: seq<int>,
                             blockSize: nat, base: int, rest: seq<int>, orest: seq<int>)
    requires blockSize > 0 && |read| == |write| == |ro| == |wo| >= 2 * blockSize
    requires Sorted(read[..blockSize])
    requires ChunkStable(read[..blockSize], ro[..blockSize], blockSize, base)
    requires ChunkStable(read[blockSize..2 * blockSize], ro[blockSize..2 * blockSize], blockSize, base + blockSize)
    requires rest == Pass(read[2 * blockSize..], write[2 * blockSize..], blockSize)
    requires orest == PassOrigins(read[2 * blockSize..], write[2 * blockSize..], ro[2 * blockSize..], wo[2 * blockSize..], blockSize)
    requires ChunksStable(rest, orest, 2 * blockSize, base + 2 * blockSize)
    ensures ChunksStable(Pass(read, write, blockSize), PassOrigins(read, write, ro, wo, blockSize), 2 * blockSize, base)
  {
    var c := 2 * blockSize;
    PassFull(read, write, blockSize);
    PassOriginsFull(read, write, ro, wo, blockSize);
    var left, right, lo, rgo := read[..blockSize], read[blockSize..c], ro[..blockSize], ro[blockSize..c];
    MergeChunks(left, right, lo, rgo, blockSize, base);
    ChunksStableCons(Merge(left, right), MergeOrigins(left, right, lo, rgo), rest, orest, c, base);
  }

  lemma {:induction false} PassesStable(read: seq<int>, write: seq<int>, ro: seq<int>, wo: seq<int>,
                                        j: nat, k: nat, s: seq<int>)
    requires |read| == |write| == |ro| == |wo| == Pow2(k) && j <= k
    requires ChunksSorted(read, Pow2(j)) && ChunksStable(read, ro, Pow2(j), 0) && Traced(read, ro, s)
    ensures KeepsOrder(Passes(read, write, Pow2(j)), PassesOrigins(read, write, ro, wo, Pow2(j)))
    ensures Traced(Passes(read, write, Pow2(j)), PassesOrigins(read, write, ro, wo, Pow2(j)), s)
    decreases k - j
  {
    var bs := Pow2(j);
    if bs < |read| {
      var next, no := Pass(read, write, bs), PassOrigins(read, write, ro, wo, bs);
      PassStable(read, write, ro, wo, j, k, s);
      PassesStable(next, read, no, ro, j + 1, k, s);
      assert Passes(read, write, bs) == Passes(next, read, 2 * bs);
      assert PassesOrigins(read, write, ro, wo, bs) == PassesOrigins(next, read, no, ro, 2 * bs);
    }
  }

  /** One pass of `PassesStable`: the pass with block size `Pow2(j)` leaves
      chunks of `Pow2(j + 1)` sorted, stable and traced. */
  lemma PassStable(read: seq<int>, write: seq<int>, ro: seq<int>, wo: seq<int>, j: nat, k: nat, s: seq<int>)
    requires |read| == |write| == |ro| == |wo| == Pow2(k) && j < k
    requires ChunksSorted(read, Pow2(j)) && ChunksStable(read, ro, Pow2(j), 0) && Traced(read, ro, s)
    ensures ChunksSorted(Pass(read, write, Pow2(j)), Pow2(j + 1))
    ensures ChunksStable(Pass(read, write, Pow2(j)), PassOrigins(read, write, ro, wo, Pow2(j)), Pow2(j + 1), 0)
    ensures Traced(Pass(read, write, Pow2(j)), PassOrigins(read, write, ro, wo, Pow2(j)), s)
  {
    var bs := Pow2(j);
    assert Pow2(j + 1) == 2 * bs;
    Pow2Rem(j + 1, k);
    PassChunksSorted(read, write, bs);
    PassChunksStable(read, write, ro, wo, bs, 0);
    PassTraced(read, write, ro, wo, bs, s);
  }

  /** Merge sort is stable when the length is a power of two: tag every
      input element with its index and follow the tags through the sort;
      each result element is the input element its tag names, and equal
      elements keep their input order. */
  lemma BottomUpStable(s: seq<int>, k: nat)
    requires |s| == Pow2(k)
    ensures Traced(BottomUp(s), BottomUpOrigins(s), s)
    ensures KeepsOrder(BottomUp(s), BottomUpOrigins(s))
  {
    var t := Indices(0, |s|);
    ChunksSortedOne(s);
    ChunksStableOne(s, 0);
    assert Traced(s, t, s);
    PassesStable(s, Zeros(|s|), t, Zeros(|s|), 0, k, s);
  }

  /** The tags of a stable, traced result are distinct: together with
      `Traced`, the result is a permutation of the input indices. */
  lemma OriginsDistinct(r: seq<int>, o: seq<int>, s: seq<int>)
    requires Traced(r, o, s) && KeepsOrder(r, o)
    ensures forall k1, k2 :: 0 <= k1 < k2 < |o| ==> o[k1] != o[k2]
  {
  }
}
