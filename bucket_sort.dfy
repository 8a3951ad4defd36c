/** The counting sort of Sorting.h:355-390. Each element `x` of `[min, max)`
    is counted in `counts[x - min]`; the range is then rebuilt from the
    counts, left to right, writing the offsets `x - min` in order. */
module BucketSorting {
  import opened SortUtil

  /** The offsets `x - min` of the elements of `s`: what the rebuild writes. */
  function Offsets(s: seq<int>, min: int): (o: seq<int>)
    ensures |o| == |s|
  {
    seq(|s|, i requires 0 <= i < |s| => s[i] - min)
  }

  /** Sum of a sequence of counts. */
  function Sum(c: seq<nat>): nat
  {
    if |c| == 0 then 0 else Sum(c[..|c| - 1]) + c[|c| - 1]
  }

  /** Changing one count changes the sum by the difference. */
  lemma {:induction false} SumUpdate(c: seq<nat>, i: nat, x: nat)
    requires i < |c|
    ensures Sum(c[i := x]) == Sum(c) - c[i] + x
    decreases |c|
  {
    var c' := c[i := x];
    var n := |c| - 1;
    if i < n {
      assert c'[..n] == c[..n][i := x];
      SumUpdate(c[..n], i, x);
    } else {
      assert c'[..n] == c[..n];
    }
  }

  /** A positive sum has a positive count at or after any index below which
      every count is zero. */
  lemma {:induction false} SumPositive(c: seq<nat>, lo: nat)
    requires forall v :: 0 <= v < lo && v < |c| ==> c[v] == 0
    requires Sum(c) > 0
    ensures exists v :: lo <= v < |c| && c[v] > 0
    decreases |c|
  {
    var n := |c| - 1;
    if c[n] == 0 {
      SumPositive(c[..n], lo);
      var v :| lo <= v < n && c[..n][v] > 0;
      assert c[v] > 0;
    }
  }

  /** A zero sum has every count zero. */
  lemma {:induction false} SumZero(c: seq<nat>)
    requires Sum(c) == 0
    ensures forall v :: 0 <= v < |c| ==> c[v] == 0
    decreases |c|
  {
    if |c| > 0 {
      var n := |c| - 1;
      SumZero(c[..n]);
      forall v | 0 <= v < n ensures c[v] == 0 {
        assert c[v] == c[..n][v];
      }
    }
  }

  /** Fresh counts sum to zero. */
  lemma {:induction false} SumZeros(n: nat)
    ensures Sum(seq(n, _ => 0)) == 0
  {
    if n > 0 {
      assert seq(n, _ => 0)[..n - 1] == seq(n - 1, _ => 0);
      SumZeros(n - 1);
    }
  }

  /** `c` holds, for each offset `v`, how often `v` occurs in `o`, and its
      sum is the length of `o`: the state of the counting pass. */
  ghost predicate Counted(c: seq<nat>, o: seq<int>)
  {
    (forall v :: 0 <= v < |c| ==> c[v] == multiset(o)[v]) && Sum(c) == |o|
  }

  /** The `m` counts of the offsets in `o`, counted left to right; an offset
      outside `[0, m)` is not counted. */
  function Histogram(o: seq<int>, m: nat): (c: seq<nat>)
    ensures |c| == m
  {
    if |o| == 0 then seq(m, _ => 0)
    else
      var c, x := Histogram(o[..|o| - 1], m), o[|o| - 1];
      if 0 <= x < m then c[x := c[x] + 1] else c
  }

  /** Counting one more offset `x` of `[0, |c|)` (Sorting.h:369). */
  lemma CountStep(c: seq<nat>, o: seq<int>, x: int)
    requires Counted(c, o) && 0 <= x < |c|
    ensures Counted(c[x := c[x] + 1], o + [x])
  {
    SumUpdate(c, x, c[x] + 1);
  }

  /** The counts of offsets that all lie in `[0, m)` are their
      multiplicities and add up to their number. */
  lemma {:induction false} HistogramCounted(o: seq<int>, m: nat)
    requires forall k :: 0 <= k < |o| ==> 0 <= o[k] < m
    ensures Counted(Histogram(o, m), o)
    decreases |o|
  {
    if |o| == 0 {
      SumZeros(m);
    } else {
      var o', x := o[..|o| - 1], o[|o| - 1];
      assert forall k :: 0 <= k < |o'| ==> o'[k] == o[k];
      HistogramCounted(o', m);
      CountStep(Histogram(o', m), o', x);
      assert o == o' + [x];
    }
  }

  /** Counting one more offset: the histogram of a longer prefix. */
  lemma HistogramStep(o: seq<int>, k: nat, k': nat, m: nat, c: seq<nat>, c': seq<nat>)
    requires k < |o| && k' == k + 1 && 0 <= o[k] < m
    requires c == Histogram(o[..k], m) && c' == c[o[k] := c[o[k]] + 1]
    ensures c' == Histogram(o[..k'], m)
  {
    assert o[..k'][..k] == o[..k];
  }

  /** The state of the rebuild pass (Sorting.h:373-382) after writing `w`:
      the cursor `ci` is a valid bucket with only empty buckets before it,
      `w` is sorted and holds offsets up to the cursor, each bucket's count
      plus its copies in `w` is its count `H` in the input, and `remaining`
      elements are still to be written. */
  ghost predicate Rebuilt(w: seq<int>, c: seq<nat>, H: multiset<int>, ci: nat, remaining: nat)
  {
    ci < |c| && Sorted(w) &&
    (forall k :: 0 <= k < |w| ==> 0 <= w[k] <= ci) &&
    (forall v :: 0 <= v < ci ==> c[v] == 0) &&
    (forall v :: 0 <= v < |c| ==> multiset(w)[v] + c[v] == H[v]) &&
    Sum(c) == remaining
  }

  /** The input's offsets, counted, start the rebuild with an empty output. */
  lemma RebuildStart(c: seq<nat>, o: seq<int>)
    requires Counted(c, o) && |c| > 0
    ensures Rebuilt([], c, multiset(o), 0, |o|)
  {
  }

  /** Skipping an empty bucket (Sorting.h:376-378): while elements remain,
      a later bucket is non-empty, so the cursor stays in bounds. */
  lemma RebuildSkip(w: seq<int>, c: seq<nat>, H: multiset<int>, ci: nat, remaining: nat)
    requires Rebuilt(w, c, H, ci, remaining) && c[ci] == 0 && remaining > 0
    ensures Rebuilt(w, c, H, ci + 1, remaining)
  {
    SumPositive(c, ci + 1);
  }

  /** Writing the cursor's offset and taking it from its bucket
      (Sorting.h:380-381). */
  lemma RebuildWrite(w: seq<int>, c: seq<nat>, H: multiset<int>, ci: nat, remaining: nat)
    requires Rebuilt(w, c, H, ci, remaining) && c[ci] > 0
    ensures remaining > 0
    ensures Rebuilt(w + [ci], c[ci := c[ci] - 1], H, ci, remaining - 1)
  {
    SumUpdate(c, ci, c[ci] - 1);
    var w' := w + [ci];
    assert multiset(w') == multiset(w) + multiset{ci};
  }

  /** With nothing remaining, the output holds exactly the input's offsets. */
  lemma RebuildDone(w: seq<int>, c: seq<nat>, o: seq<int>, ci: nat)
    requires Rebuilt(w, c, multiset(o), ci, 0)
    requires forall k :: 0 <= k < |o| ==> 0 <= o[k] < |c|
    ensures Sorted(w) && multiset(w) == multiset(o)
  {
    SumZero(c);
    forall v ensures multiset(w)[v] == multiset(o)[v] {
      if !(0 <= v < |c|) {
        assert v !in multiset(w);
        assert v !in multiset(o);
      }
    }
  }

  /** Every element lies in `[min, max)`, which must be non-empty: the
      bounds under which `counts[x - min]` exists. */
  predicate InBuckets(s: seq<int>, min: int, max: int)
  {
    max > min && forall i :: 0 <= i < |s| ==> min <= s[i] < max
  }

  /** `s` is `A` with `[begin, end)` replaced by the sorted offsets of its
      elements. */
  ghost predicate BucketSorted(s: seq<int>, A: seq<int>, begin: nat, end: nat, min: int)
  {
    begin <= end <= |A| == |s| && s[..begin] == A[..begin] && s[end..] == A[end..] &&
    Sorted(s[begin..end]) && multiset(s[begin..end]) == multiset(Offsets(A[begin..end], min))
  }

  /** The offsets of elements in `[min, max)` index the `max - min` counts. */
  lemma OffsetsInBuckets(s: seq<int>, min: int, max: int)
    requires InBuckets(s, min, max)
    ensures forall k :: 0 <= k < |s| ==> 0 <= Offsets(s, min)[k] < max - min
  {
  }

  /** The offset of the `k`-th element of `s`, which lies in `[min, max)`,
      is a valid index into the `max - min` counts. */
  lemma OffsetAt(s: seq<int>, min: int, max: int, k: nat)
    requires InBuckets(s, min, max) && k < |s|
    ensures Offsets(s, min)[k] == s[k] - min && 0 <= s[k] - min < max - min
  {
  }

  /** The counting pass of Sorting.h:359-370: `max - min` counts, one per
      offset, counting the offsets of the range. */
  method CountBuckets(a: array<int>, begin: nat, end: nat, min: int, max: int)
    returns (counts: seq<nat>)
    requires begin <= end <= a.Length && InBuckets(a[begin..end], min, max)
    ensures counts == Histogram(Offsets(a[begin..end], min), max - min)
  {
    ghost var O := Offsets(a[begin..end], min);
    counts := seq(max - min, _ => 0);
    assert O[..0] == [];
    for current := begin to end
      invariant counts == Histogram(O[..current - begin], max - min)
    {
      OffsetAt(a[begin..end], min, max, current - begin);
      assert a[begin..end][current - begin] == a[current];
      ghost var c := counts;
      counts := counts[a[current] - min := counts[a[current] - min] + 1];
      HistogramStep(O, current - begin, current + 1 - begin, max - min, c, counts);
    }
    assert O[..end - begin] == O;
  }

  /** The rebuild pass over `s`, which is `A` outside `[begin, end)`, when
      it is about to write position `current`. */
  ghost predicate RangeRebuilt(s: seq<int>, A: seq<int>, begin: nat, end: nat, current: nat,
                               c: seq<nat>, H: multiset<int>, ci: nat)
  {
    begin <= current <= end <= |A| == |s| && s[..begin] == A[..begin] && s[end..] == A[end..] &&
    Rebuilt(s[begin..current], c, H, ci, end - current)
  }

  lemma RangeSkip(s: seq<int>, A: seq<int>, begin: nat, end: nat, current: nat,
                  c: seq<nat>, H: multiset<int>, ci: nat)
    requires RangeRebuilt(s, A, begin, end, current, c, H, ci) && current < end && c[ci] == 0
    ensures RangeRebuilt(s, A, begin, end, current, c, H, ci + 1)
  {
    RebuildSkip(s[begin..current], c, H, ci, end - current);
  }

  lemma RangeWrite(s: seq<int>, s': seq<int>, A: seq<int>, begin: nat, end: nat, current: nat,
                   c: seq<nat>, c': seq<nat>, H: multiset<int>, ci: nat)
    requires RangeRebuilt(s, A, begin, end, current, c, H, ci) && current < end && c[ci] > 0
    requires s' == s[current := ci] && c' == c[ci := c[ci] - 1]
    ensures RangeRebuilt(s', A, begin, end, current + 1, c', H, ci)
  {
    RebuildWrite(s[begin..current], c, H, ci, end - current);
    assert s'[begin..current + 1] == s[begin..current] + [ci];
    assert s'[..begin] == s[..begin] && s'[end..] == s[end..];
  }

  lemma RangeDone(s: seq<int>, A: seq<int>, begin: nat, end: nat, c: seq<nat>, O: seq<int>,
                  ci: nat, min: int, max: int)
    requires RangeRebuilt(s, A, begin, end, end, c, multiset(O), ci)
    requires O == Offsets(A[begin..end], min)
    requires InBuckets(A[begin..end], min, max) && |c| == max - min
    ensures BucketSorted(s, A, begin, end, min)
  {
    OffsetsInBuckets(A[begin..end], min, max);
    RebuildDone(s[begin..end], c, O, ci);
  }

  /** `BucketSort(begin, end, min, max)` (Sorting.h:355-383) with every
      element in `[min, max)`: the range ends as the sorted sequence of the
      offsets `x - min` of its elements, with their multiplicities. */
  method BucketSortRange(a: array<int>, begin: nat, end: nat, min: int, max: int)
    requires begin <= end <= a.Length && InBuckets(a[begin..end], min, max)
    modifies a
    ensures BucketSorted(a[..], old(a[..]), begin, end, min)
  {
    ghost var A := a[..];
    ghost var O := Offsets(A[begin..end], min);
    var counts := CountBuckets(a, begin, end, min, max);
    OffsetsInBuckets(A[begin..end], min, max);
    HistogramCounted(O, max - min);
    RebuildStart(counts, O);
    assert A[begin..begin] == [];
    ghost var H := multiset(O);
    var currentIndex: nat := 0;
    for current := begin to end
      invariant |counts| == max - min
      invariant RangeRebuilt(a[..], A, begin, end, current, counts, H, currentIndex)
    {
      while counts[currentIndex] == 0
        invariant RangeRebuilt(a[..], A, begin, end, current, counts, H, currentIndex)
        decreases |counts| - currentIndex
      {
        RangeSkip(a[..], A, begin, end, current, counts, H, currentIndex);
        currentIndex := currentIndex + 1;
      }
      ghost var s, c := a[..], counts;
      a[current] := currentIndex;
      counts := counts[currentIndex := counts[currentIndex] - 1];
      RangeWrite(s, a[..], A, begin, end, current, c, counts, H, currentIndex);
    }
    RangeDone(a[..], A, begin, end, counts, O, currentIndex, min, max);
  }

  /** The collection overload (Sorting.h:388-390). */
  method BucketSort(a: array<int>, min: int, max: int)
    requires InBuckets(a[..], min, max)
    modifies a
    ensures Sorted(a[..])
    ensures multiset(a[..]) == multiset(Offsets(old(a[..]), min))
  {
    ghost var A := a[..];
    assert a[0..a.Length] == a[..];
    BucketSortRange(a, 0, a.Length, min, max);
    assert a[0..a.Length] == a[..] && A[0..a.Length] == A;
  }

  // ---------------------------------------------------------------------------
  // The bound as the source checks it
  // ---------------------------------------------------------------------------

  /** What the debug assertions of Sorting.h:357 and :365-366 admit: every
      element in the closed interval `[min, max]`. */
  predicate AssertsAdmit(s: seq<int>, min: int, max: int): (admitted: bool)
    ensures admitted ==> forall i :: 0 <= i < |s| ==> 0 <= Offsets(s, min)[i] <= max - min
  {
    max > min && forall i :: 0 <= i < |s| ==> min <= s[i] <= max
  }

  /** The closed interval lets `max` through, whose offset `max - min` is
      one past the last of the `max - min` counts (Sorting.h:360, :369);
      `InBuckets` rules it out and admits nothing the assertions reject. */
  lemma AdmittedMaxOverruns(min: int, max: int)
    requires max > min
    ensures AssertsAdmit([max], min, max) && !InBuckets([max], min, max)
    ensures Offsets([max], min)[0] == max - min
    ensures forall s :: InBuckets(s, min, max) ==> AssertsAdmit(s, min, max)
  {
    assert [max][0] == max;
  }
}
