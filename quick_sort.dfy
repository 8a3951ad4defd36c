/** The in-place quick sort of Sorting.h:200-272. Ranges wait on an explicit
    stack; each popped range is partitioned around its last element, and
    the parts longer than one are pushed, the right one first. The stack is
    a `seq<Range>` whose last element is the top. */
module QuickSorting {
  import opened SortUtil

  /** A half-open index range `[first, second)`, the `std::pair` of
      iterators the stack holds. */
  datatype Range = Range(first: nat, second: nat)

  /** Number of indices in a range. */
  function Length(r: Range): nat
  {
    if r.first <= r.second then r.second - r.first else 0
  }

  predicate InRange(r: Range, i: int)
  {
    r.first <= i < r.second
  }

  // ---------------------------------------------------------------------------
  // Swapping
  // ---------------------------------------------------------------------------

  /** `s` is a rearrangement of `A` inside `[lo, hi)` and equal to it
      outside. */
  ghost predicate PermutedIn(s: seq<int>, A: seq<int>, lo: nat, hi: nat)
  {
    lo <= hi <= |A| == |s| && s[..lo] == A[..lo] && s[hi..] == A[hi..] &&
    multiset(s[lo..hi]) == multiset(A[lo..hi])
  }

  /** `std::swap` on two elements of the array. */
  method Swap(a: array<int>, i: nat, j: nat)
    requires i < a.Length && j < a.Length
    modifies a
    ensures a[..] == old(a[..])[i := old(a[j])][j := old(a[i])]
  {
    a[i], a[j] := a[j], a[i];
  }

  /** A swap inside `[lo, hi)` keeps a rearrangement of `A` one. */
  lemma SwapInRange(s: seq<int>, s': seq<int>, A: seq<int>, i: nat, j: nat, lo: nat, hi: nat)
    requires lo <= i < hi && lo <= j < hi && PermutedIn(s, A, lo, hi)
    requires s' == s[i := s[j]][j := s[i]]
    ensures PermutedIn(s', A, lo, hi)
  {
    var t := s[lo..hi];
    var t' := t[i - lo := t[j - lo]][j - lo := t[i - lo]];
    assert s'[lo..hi] == t';
    assert s' == s[..lo] + t' + s[hi..];
  }

  // ---------------------------------------------------------------------------
  // Partition
  // ---------------------------------------------------------------------------

  /** The state of the scan of Sorting.h:230-247 over `s` with the pivot at
      `p`, when it is about to look at `compareTarget`. Until an element
      larger than the pivot is seen `firstLargest` is `p` and the scanned
      elements are at most the pivot; from then on `[first, firstLargest)`
      holds elements `<=` the pivot and `[firstLargest, compareTarget)`,
      short of the pivot itself, elements `>` it. */
  ghost predicate Scanned(s: seq<int>, first: nat, p: nat, compareTarget: nat, firstLargest: nat)
    requires first <= p < |s| && compareTarget <= p + 1
  {
    if firstLargest == p then
      forall k :: first <= k < compareTarget && k < p ==> s[k] <= s[p]
    else
      first <= firstLargest < compareTarget && firstLargest < p &&
      (forall k :: first <= k < firstLargest ==> s[k] <= s[p]) &&
      (forall k :: firstLargest <= k < compareTarget && k < p ==> s[k] > s[p])
  }

  /** The swap branch (:235-238): an element `<=` the pivot, with a larger
      one already seen, trades places with the first larger one. */
  lemma ScanSwap(s: seq<int>, s': seq<int>, first: nat, p: nat, compareTarget: nat, firstLargest: nat)
    requires first <= compareTarget < p < |s|
    requires Scanned(s, first, p, compareTarget, firstLargest) && firstLargest != p
    requires s[compareTarget] <= s[p]
    requires s' == s[compareTarget := s[firstLargest]][firstLargest := s[compareTarget]]
    ensures s'[p] == s[p] && firstLargest + 1 != p
    ensures Scanned(s', first, p, compareTarget + 1, firstLargest + 1)
  {
    assert s'[firstLargest] == s[compareTarget];
    assert firstLargest < compareTarget ==> s'[compareTarget] == s[firstLargest];
  }

  /** The marking branch (:242-244): the first element larger than the
      pivot becomes `firstLargest`. */
  lemma ScanMark(s: seq<int>, first: nat, p: nat, compareTarget: nat)
    requires first <= compareTarget < p < |s|
    requires Scanned(s, first, p, compareTarget, p) && s[compareTarget] > s[p]
    ensures Scanned(s, first, p, compareTarget + 1, compareTarget)
  {
  }

  /** Neither branch: the element stays where it is. */
  lemma ScanKeep(s: seq<int>, first: nat, p: nat, compareTarget: nat, firstLargest: nat)
    requires first <= compareTarget <= p < |s|
    requires Scanned(s, first, p, compareTarget, firstLargest)
    requires !(s[compareTarget] <= s[p] && firstLargest != p && compareTarget != p)
    requires !(s[compareTarget] > s[p] && firstLargest == p)
    ensures Scanned(s, first, p, compareTarget + 1, firstLargest)
  {
  }

  /** One step of the scan, as the branches of :235-245 take it: `s'` and
      `firstLargest'` are the contents and the marker after looking at
      `compareTarget`. */
  ghost predicate ScanStepTaken(s: seq<int>, s': seq<int>, p: nat, compareTarget: nat,
                                firstLargest: nat, firstLargest': nat): (taken: bool)
    requires compareTarget < |s| && firstLargest < |s| && p < |s|
    ensures taken ==> |s'| == |s| && s'[p] == s[p] && multiset(s') == multiset(s)
  {
    if s[compareTarget] <= s[p] && firstLargest != p && compareTarget != p then
      s' == s[compareTarget := s[firstLargest]][firstLargest := s[compareTarget]] && firstLargest' == firstLargest + 1
    else if s[compareTarget] > s[p] && firstLargest == p then
      s' == s && firstLargest' == compareTarget
    else
      s' == s && firstLargest' == firstLargest
  }

  /** What the scan loop keeps: the state of the scan, the pivot in place
      and the elements of the range. */
  ghost predicate ScanInv(s: seq<int>, A: seq<int>, first: nat, second: nat, p: nat,
                          compareTarget: nat, firstLargest: nat)
  {
    first <= compareTarget <= second == p + 1 && first <= p && firstLargest <= p &&
    PermutedIn(s, A, first, second) && s[p] == A[p] &&
    Scanned(s, first, p, compareTarget, firstLargest)
  }

  /** Each step of the scan keeps `ScanInv`. */
  lemma ScanStep(s: seq<int>, s': seq<int>, A: seq<int>, first: nat, second: nat, p: nat,
                 compareTarget: nat, firstLargest: nat, firstLargest': nat)
    requires ScanInv(s, A, first, second, p, compareTarget, firstLargest) && compareTarget < second
    requires ScanStepTaken(s, s', p, compareTarget, firstLargest, firstLargest')
    ensures ScanInv(s', A, first, second, p, compareTarget + 1, firstLargest')
  {
    if s[compareTarget] <= s[p] && firstLargest != p && compareTarget != p {
      ScanSwap(s, s', first, p, compareTarget, firstLargest);
      SwapInRange(s, s', A, compareTarget, firstLargest, first, second);
    } else if s[compareTarget] > s[p] && firstLargest == p {
      ScanMark(s, first, p, compareTarget);
    } else {
      ScanKeep(s, first, p, compareTarget, firstLargest);
    }
  }

  /** `s` is `A` partitioned on `[first, second)` around the pivot taken
      from `second - 1`, which now sits at `pivot`: everything before it in
      the range is at most the pivot and everything after it larger, and
      the range holds the elements it held. */
  ghost predicate PartitionedAt(s: seq<int>, A: seq<int>, first: nat, second: nat, pivot: nat)
  {
    first <= pivot < second <= |s| && PermutedIn(s, A, first, second) &&
    s[pivot] == A[second - 1] &&
    (forall k :: first <= k < pivot ==> s[k] <= s[pivot]) &&
    (forall k :: pivot < k < second ==> s[k] > s[pivot])
  }

  /** After the final swap (:250-251) the pivot sits at `firstLargest`. */
  lemma ScanDone(s: seq<int>, s': seq<int>, A: seq<int>, first: nat, second: nat, p: nat,
                 firstLargest: nat)
    requires ScanInv(s, A, first, second, p, second, firstLargest)
    requires s' == s[firstLargest := s[p]][p := s[firstLargest]]
    ensures PartitionedAt(s', A, first, second, firstLargest)
  {
    SwapInRange(s, s', A, firstLargest, p, first, second);
  }

  /** The partition of Sorting.h:225-251 on `[first, second)`, the pivot
      taken from `second - 1`. Returns where the pivot ends: everything
      before it in the range is `<=` the pivot, everything after it `>`.
      Only swaps inside the range happen. */
  method Partition(a: array<int>, first: nat, second: nat) returns (pivot: nat)
    requires first < second <= a.Length
    modifies a
    ensures PartitionedAt(a[..], old(a[..]), first, second, pivot)
  {
    ghost var A := a[..];
    var p: nat := second - 1;
    var compareTarget: nat := first;
    var firstLargest: nat := p;
    while compareTarget != second
      invariant ScanInv(a[..], A, first, second, p, compareTarget, firstLargest)
    {
      ghost var s, marker := a[..], firstLargest;
      if a[compareTarget] <= a[p] && firstLargest != p && compareTarget != p {
        Swap(a, compareTarget, firstLargest);
        firstLargest := firstLargest + 1;
      } else if a[compareTarget] > a[p] && firstLargest == p {
        firstLargest := compareTarget;
      }
      ScanStep(s, a[..], A, first, second, p, compareTarget, marker, firstLargest);
      compareTarget := compareTarget + 1;
    }
    ghost var s := a[..];
    Swap(a, firstLargest, p);
    ScanDone(s, a[..], A, first, second, p, firstLargest);
    pivot := firstLargest;
  }

  // ---------------------------------------------------------------------------
  // The stack of ranges
  // ---------------------------------------------------------------------------

  /** The ranges pushed after partitioning `current` around the pivot now
      at `pivot` (Sorting.h:256-264), in push order: the right part first,
      then the left part, each only when it is longer than one. */
  function SubRanges(current: Range, pivot: nat): (pushed: seq<Range>)
    requires current.first <= pivot < current.second
    ensures forall r :: r in pushed ==>
      current.first <= r.first && r.second <= current.second && !InRange(r, pivot) && Length(r) > 1
    ensures Range(pivot + 1, current.second) in pushed <==> current.second - (pivot + 1) > 1
    ensures Range(current.first, pivot) in pushed <==> pivot - current.first > 1
    ensures |pushed| == 2 ==> pushed[0] == Range(pivot + 1, current.second)
    ensures |pushed| <= 2
  {
    var right, left := Range(pivot + 1, current.second), Range(current.first, pivot);
    (if Length(right) > 1 then [right] else []) + (if Length(left) > 1 then [left] else [])
  }

  /** Number of indices the ranges of a stack cover. */
  function Total(stack: seq<Range>): nat
  {
    if |stack| == 0 then 0 else Total(stack[..|stack| - 1]) + Length(stack[|stack| - 1])
  }

  lemma {:induction false} TotalAppend(x: seq<Range>, y: seq<Range>)
    ensures Total(x + y) == Total(x) + Total(y)
    decreases |y|
  {
    if |y| > 0 {
      var y' := y[..|y| - 1];
      assert (x + y)[..|x + y| - 1] == x + y';
      assert (x + y)[|x + y| - 1] == y[|y| - 1];
      TotalAppend(x, y');
    } else {
      assert x + y == x;
    }
  }

  /** The pushed ranges cover fewer indices than the popped one: the pivot
      is in none of them. */
  lemma SubRangesShrink(current: Range, pivot: nat)
    requires current.first <= pivot < current.second
    ensures Total(SubRanges(current, pivot)) < Length(current)
  {
    var pushed := SubRanges(current, pivot);
    var right, left := Range(pivot + 1, current.second), Range(current.first, pivot);
    if |pushed| == 2 {
      assert pushed == [right, left];
      assert pushed[..1] == [right] && [right][..0] == [];
      assert Total([right]) == Length(right);
      assert Total(pushed) == Total([right]) + Length(left);
    } else if |pushed| == 1 {
      assert pushed == [right] || pushed == [left];
      assert pushed[..0] == [];
    }
  }

  /** Indices `i` and `j` lie in one range still waiting on the stack. */
  ghost predicate Together(stack: seq<Range>, i: int, j: int)
  {
    exists k :: 0 <= k < |stack| && InRange(stack[k], i) && InRange(stack[k], j)
  }

  /** Every waiting range lies inside `[begin, end)` and is non-empty, and
      no index is in two of them. */
  ghost predicate WellFormed(stack: seq<Range>, begin: nat, end: nat)
  {
    (forall k :: 0 <= k < |stack| ==> begin <= stack[k].first < stack[k].second <= end) &&
    (forall k1, k2, i :: 0 <= k1 < |stack| && 0 <= k2 < |stack| && k1 != k2 && InRange(stack[k1], i) ==>
       !InRange(stack[k2], i))
  }

  /** Two indices of `[begin, end)` that no waiting range holds together are
      already in order. */
  ghost predicate Settled(s: seq<int>, begin: nat, end: nat, stack: seq<Range>)
    requires end <= |s|
  {
    forall i, j :: begin <= i < j < end && !Together(stack, i, j) ==> s[i] <= s[j]
  }

  /** What the loop of Sorting.h:222-265 keeps. */
  ghost predicate StackInv(s: seq<int>, A: seq<int>, begin: nat, end: nat, stack: seq<Range>)
  {
    PermutedIn(s, A, begin, end) && WellFormed(stack, begin, end) && Settled(s, begin, end, stack)
  }

  lemma PermutedInTrans(s: seq<int>, t: seq<int>, u: seq<int>, lo: nat, hi: nat)
    requires PermutedIn(t, s, lo, hi) && PermutedIn(u, t, lo, hi)
    ensures PermutedIn(u, s, lo, hi)
  {
  }

  /** A rearrangement inside `[lo, hi)` is one inside any wider range. */
  lemma PermutedInWiden(s: seq<int>, t: seq<int>, lo: nat, hi: nat, lo': nat, hi': nat)
    requires lo' <= lo && hi <= hi' <= |s| && PermutedIn(t, s, lo, hi)
    ensures PermutedIn(t, s, lo', hi')
  {
    assert t[lo'..lo] == t[..lo][lo'..] == s[..lo][lo'..] == s[lo'..lo];
    assert t[hi..hi'] == t[hi..][..hi' - hi] == s[hi..][..hi' - hi] == s[hi..hi'];
    assert t[lo'..hi'] == t[lo'..lo] + t[lo..hi] + t[hi..hi'];
    assert s[lo'..hi'] == s[lo'..lo] + s[lo..hi] + s[hi..hi'];
    assert t[..lo'] == t[..lo][..lo'];
    assert s[..lo'] == s[..lo][..lo'];
    assert t[hi'..] == t[hi..][hi' - hi..];
    assert s[hi'..] == s[hi..][hi' - hi..];
  }

  /** Outside the rearranged range nothing moved. */
  lemma PermutedOutside(s: seq<int>, t: seq<int>, lo: nat, hi: nat, i: nat)
    requires PermutedIn(t, s, lo, hi) && i < |s| && !(lo <= i < hi)
    ensures t[i] == s[i]
  {
    if i < lo {
      assert t[..lo][i] == s[..lo][i];
    } else {
      assert t[hi..][i - hi] == s[hi..][i - hi];
    }
  }

  /** Inside the rearranged range every element came from somewhere in it. */
  lemma PermutedInside(s: seq<int>, t: seq<int>, lo: nat, hi: nat, i: nat)
    requires PermutedIn(t, s, lo, hi) && lo <= i < hi
    ensures exists i0 :: lo <= i0 < hi && t[i] == s[i0]
  {
    assert t[lo..hi][i - lo] == t[i];
    assert t[i] in multiset(s[lo..hi]);
    var k :| 0 <= k < hi - lo && s[lo..hi][k] == t[i];
    assert s[lo + k] == t[i];
  }

  /** The first range: every pair of the whole range is together. */
  lemma StackStart(A: seq<int>, begin: nat, end: nat)
    requires begin < end <= |A|
    ensures StackInv(A, A, begin, end, [Range(begin, end)])
  {
    forall i, j | begin <= i < j < end ensures Together([Range(begin, end)], i, j) {
      assert InRange([Range(begin, end)][0], i);
    }
  }

  /** With the stack empty every pair is in order. */
  lemma StackEnd(s: seq<int>, A: seq<int>, begin: nat, end: nat)
    requires begin <= end <= |s| && StackInv(s, A, begin, end, [])
    ensures Sorted(s[begin..end])
  {
    forall i, j | 0 <= i < j < end - begin ensures s[begin..end][i] <= s[begin..end][j] {
      assert !Together([], begin + i, begin + j);
    }
  }

  /** Pushing the parts of the popped range keeps the stack well formed. */
  lemma WellFormedStep(rest: seq<Range>, current: Range, pivot: nat, begin: nat, end: nat)
    requires WellFormed(rest + [current], begin, end)
    requires current.first <= pivot < current.second
    ensures WellFormed(rest + SubRanges(current, pivot), begin, end)
  {
    var st, st', pushed := rest + [current], rest + SubRanges(current, pivot), SubRanges(current, pivot);
    assert st[|rest|] == current;
    forall k | 0 <= k < |st'| ensures begin <= st'[k].first < st'[k].second <= end {
      if k < |rest| { assert st'[k] == st[k]; } else { assert st'[k] in pushed; }
    }
    forall k1, k2, i | 0 <= k1 < |st'| && 0 <= k2 < |st'| && k1 != k2 && InRange(st'[k1], i)
      ensures !InRange(st'[k2], i)
    {
      if k1 < |rest| && k2 < |rest| {
        assert st'[k1] == st[k1] && st'[k2] == st[k2];
      } else if k1 < |rest| {
        assert st'[k1] == st[k1] && st'[k2] in pushed;
      } else if k2 < |rest| {
        assert st'[k2] == st[k2] && st'[k1] in pushed;
      } else {
        assert |pushed| == 2 && st'[k1] == pushed[k1 - |rest|] && st'[k2] == pushed[k2 - |rest|];
      }
    }
  }

  /** An index of the popped range and one outside it are not together on
      the stack. */
  lemma ApartFromCurrent(rest: seq<Range>, current: Range, begin: nat, end: nat, x: int, y: int)
    requires WellFormed(rest + [current], begin, end)
    requires InRange(current, x) && !InRange(current, y)
    ensures !Together(rest + [current], x, y) && !Together(rest + [current], y, x)
  {
    var st := rest + [current];
    assert st[|rest|] == current;
  }

  /** Two indices outside the popped range that the new stack keeps apart
      were apart on the old one too. */
  lemma ApartOutside(rest: seq<Range>, current: Range, pivot: nat, i: int, j: int)
    requires current.first <= pivot < current.second
    requires !InRange(current, i) && !InRange(current, j)
    requires !Together(rest + SubRanges(current, pivot), i, j)
    ensures !Together(rest + [current], i, j)
  {
    var st, st' := rest + [current], rest + SubRanges(current, pivot);
    forall k | 0 <= k < |st| && InRange(st[k], i) ensures !InRange(st[k], j) {
      if k < |rest| { assert st'[k] == st[k]; }
    }
  }

  /** Two indices of the popped range are in order after the partition
      unless a pushed part holds them both: otherwise the pivot separates
      them. */
  lemma SettledInside(s': seq<int>, s: seq<int>, rest: seq<Range>, current: Range, pivot: nat, i: nat, j: nat)
    requires PartitionedAt(s', s, current.first, current.second, pivot)
    requires InRange(current, i) && InRange(current, j) && i < j
    ensures Together(rest + SubRanges(current, pivot), i, j) || s'[i] <= s'[j]
  {
    var st', pushed := rest + SubRanges(current, pivot), SubRanges(current, pivot);
    var right, left := Range(pivot + 1, current.second), Range(current.first, pivot);
    if j < pivot {
      assert left in pushed;
      var k :| 0 <= k < |pushed| && pushed[k] == left;
      assert st'[|rest| + k] == left;
    } else if pivot < i {
      assert right in pushed;
      var k :| 0 <= k < |pushed| && pushed[k] == right;
      assert st'[|rest| + k] == right;
    }
  }

  /** Partitioning the popped range keeps the pairs the new stack holds
      apart in order. */
  lemma SettledStep(s: seq<int>, s': seq<int>, begin: nat, end: nat, rest: seq<Range>,
                    current: Range, pivot: nat)
    requires end <= |s| && WellFormed(rest + [current], begin, end) && Settled(s, begin, end, rest + [current])
    requires PartitionedAt(s', s, current.first, current.second, pivot)
    ensures Settled(s', begin, end, rest + SubRanges(current, pivot))
  {
    var st, st' := rest + [current], rest + SubRanges(current, pivot);
    assert st[|rest|] == current;
    forall i, j | begin <= i < j < end && !Together(st', i, j) ensures s'[i] <= s'[j] {
      var lo, hi := current.first, current.second;
      if InRange(current, i) && InRange(current, j) {
        SettledInside(s', s, rest, current, pivot, i, j);
      } else if InRange(current, i) {
        PermutedOutside(s, s', lo, hi, j);
        PermutedInside(s, s', lo, hi, i);
        var i0 :| lo <= i0 < hi && s'[i] == s[i0];
        ApartFromCurrent(rest, current, begin, end, i0, j);
      } else if InRange(current, j) {
        PermutedOutside(s, s', lo, hi, i);
        PermutedInside(s, s', lo, hi, j);
        var j0 :| lo <= j0 < hi && s'[j] == s[j0];
        ApartFromCurrent(rest, current, begin, end, j0, i);
      } else {
        PermutedOutside(s, s', lo, hi, i);
        PermutedOutside(s, s', lo, hi, j);
        ApartOutside(rest, current, pivot, i, j);
      }
    }
  }

  /** One round of the loop: partitioning the popped range and pushing its
      parts keeps `StackInv` and shrinks what the stack covers. */
  lemma PartitionStep(s: seq<int>, s': seq<int>, A: seq<int>, begin: nat, end: nat,
                      rest: seq<Range>, current: Range, pivot: nat)
    requires StackInv(s, A, begin, end, rest + [current])
    requires PartitionedAt(s', s, current.first, current.second, pivot)
    ensures StackInv(s', A, begin, end, rest + SubRanges(current, pivot))
    ensures Total(rest + SubRanges(current, pivot)) < Total(rest + [current])
  {
    var st := rest + [current];
    assert st[|rest|] == current;
    assert begin <= current.first && current.second <= end;
    PermutedInWiden(s, s', current.first, current.second, begin, end);
    PermutedInTrans(A, s, s', begin, end);
    WellFormedStep(rest, current, pivot, begin, end);
    SettledStep(s, s', begin, end, rest, current, pivot);
    TotalAppend(rest, [current]);
    TotalAppend(rest, SubRanges(current, pivot));
    SubRangesShrink(current, pivot);
    assert [current][..0] == [];
  }

  /** The quick sort of Sorting.h:203-265 on `[begin, end)`, which must be
      non-empty: the range ends sorted and holds the elements it held. */
  method QuickSortRange(a: array<int>, begin: nat, end: nat)
    requires begin < end <= a.Length
    modifies a
    ensures Sorted(a[begin..end])
    ensures PermutedIn(a[..], old(a[..]), begin, end)
  {
    ghost var A := a[..];
    var sortingRanges: seq<Range> := [Range(begin, end)];
    StackStart(A, begin, end);
    while |sortingRanges| > 0
      invariant StackInv(a[..], A, begin, end, sortingRanges)
      decreases Total(sortingRanges)
    {
      var currentRange := sortingRanges[|sortingRanges| - 1];
      ghost var rest := sortingRanges[..|sortingRanges| - 1];
      assert sortingRanges == rest + [currentRange];
      sortingRanges := sortingRanges[..|sortingRanges| - 1];
      ghost var s := a[..];
      var pivot := Partition(a, currentRange.first, currentRange.second);
      if currentRange.second - (pivot + 1) > 1 {
        sortingRanges := sortingRanges + [Range(pivot + 1, currentRange.second)];
      }
      if pivot - currentRange.first > 1 {
        sortingRanges := sortingRanges + [Range(currentRange.first, pivot)];
      }
      assert sortingRanges == rest + SubRanges(currentRange, pivot);
      PartitionStep(s, a[..], A, begin, end, rest, currentRange, pivot);
    }
    StackEnd(a[..], A, begin, end);
  }

  /** The collection overload (Sorting.h:270-272) on a non-empty array. */
  method QuickSort(a: array<int>)
    requires a.Length > 0
    modifies a
    ensures Sorted(a[..])
    ensures multiset(a[..]) == multiset(old(a[..]))
  {
    ghost var A := a[..];
    QuickSortRange(a, 0, a.Length);
    assert a[0..a.Length] == a[..] && A[0..a.Length] == A;
  }
}
