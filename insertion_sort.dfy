/** The binary insertion sort of Sorting.h:285-348: every element of the
    source, in source order, is inserted into a destination vector that is
    already sorted, at the position a binary search finds. */
module InsertionSorting {
  import opened SortUtil

  /** Number of elements of `d` strictly less than `x`. */
  function CountLess(d: seq<int>, x: int): (c: nat)
    ensures c <= |d|
  {
    if |d| == 0 then 0 else (if d[0] < x then 1 else 0) + CountLess(d[1..], x)
  }

  /** An index with only smaller elements before it and none after it is
      the number of smaller elements. */
  lemma {:induction false} CountLessAt(d: seq<int>, x: int, i: nat)
    requires i <= |d|
    requires forall k :: 0 <= k < i ==> d[k] < x
    requires forall k :: i <= k < |d| ==> x <= d[k]
    ensures CountLess(d, x) == i
  {
    if |d| > 0 {
      if i > 0 {
        CountLessAt(d[1..], x, i - 1);
      } else {
        CountLessAt(d[1..], x, 0);
      }
    }
  }

  /** In a sorted sequence the smaller elements are exactly those before
      `CountLess`: it is the lower bound of `x`. */
  lemma {:induction false} LowerBound(d: seq<int>, x: int)
    requires Sorted(d)
    ensures forall k :: 0 <= k < CountLess(d, x) ==> d[k] < x
    ensures forall k :: CountLess(d, x) <= k < |d| ==> x <= d[k]
  {
    if |d| > 0 {
      SortedDrop(d, 1);
      LowerBound(d[1..], x);
      if d[0] < x {
        forall k | 0 <= k < CountLess(d, x) ensures d[k] < x {
          if k > 0 { assert d[k] == d[1..][k - 1]; }
        }
        forall k | CountLess(d, x) <= k < |d| ensures x <= d[k] {
          assert d[k] == d[1..][k - 1];
        }
      } else {
        assert CountLess(d[1..], x) == 0;
        forall k | 0 <= k < |d| ensures x <= d[k] {
          assert d[0] <= d[k];
        }
      }
    }
  }

  /** `d` with `x` inserted at its lower bound, before any equal element. */
  function Insert(d: seq<int>, x: int): (r: seq<int>)
    ensures |r| == |d| + 1 && r[CountLess(d, x)] == x
  {
    d[..CountLess(d, x)] + [x] + d[CountLess(d, x)..]
  }

  /** Inserting at the lower bound keeps a sorted sequence sorted and adds
      exactly `x`. */
  lemma InsertSorted(d: seq<int>, x: int)
    requires Sorted(d)
    ensures Sorted(Insert(d, x))
    ensures multiset(Insert(d, x)) == multiset(d) + multiset{x}
    ensures |Insert(d, x)| == |d| + 1
  {
    var c := CountLess(d, x);
    LowerBound(d, x);
    var r := Insert(d, x);
    forall i, j | 0 <= i < j < |r| ensures r[i] <= r[j] {
      if j < c {
        assert r[i] == d[i] && r[j] == d[j];
      } else if j == c {
        assert r[j] == x && r[i] == d[i];
      } else if i > c {
        assert r[i] == d[i - 1] && r[j] == d[j - 1];
      } else if i == c {
        assert r[i] == x && r[j] == d[j - 1];
      } else {
        assert r[i] == d[i] && r[j] == d[j - 1];
      }
    }
    assert d == d[..c] + d[c..];
  }

  /** The destination after inserting the elements of `source` one after
      the other, in source order. */
  function InsertAll(d: seq<int>, source: seq<int>): (r: seq<int>)
    ensures |r| == |d| + |source|
  {
    if |source| == 0 then d
    else Insert(InsertAll(d, source[..|source| - 1]), source[|source| - 1])
  }

  /** Inserting all of `source` into a sorted destination leaves it sorted,
      holding its own elements and those of `source`. */
  lemma {:induction false} InsertAllSorted(d: seq<int>, source: seq<int>)
    requires Sorted(d)
    ensures Sorted(InsertAll(d, source))
    ensures multiset(InsertAll(d, source)) == multiset(d) + multiset(source)
    ensures |InsertAll(d, source)| == |d| + |source|
  {
    if |source| > 0 {
      var init, x := source[..|source| - 1], source[|source| - 1];
      InsertAllSorted(d, init);
      InsertSorted(InsertAll(d, init), x);
      assert source == init + [x];
    }
  }

  /** The destination collection: a vector that grows by insertion. */
  class Vector {
    var elements: seq<int>

    constructor (init: seq<int>)
      ensures elements == init
    {
      elements := init;
    }

    /** `insert(begin() + index, x)`. */
    method Insert(index: nat, x: int)
      requires index <= |elements|
      modifies this
      ensures elements == old(elements[..index]) + [x] + old(elements[index..])
    {
      elements := elements[..index] + [x] + elements[index..];
    }
  }

  /** The search of Sorting.h:315-345 for where `element` goes in the sorted,
      non-empty `d`. The window `[start, end)` shrinks on every round and is
      never empty; the answer is the lower bound of `element`. */
  method InsertionPoint(d: seq<int>, element: int) returns (index: nat)
    requires |d| > 0 && Sorted(d)
    ensures index == CountLess(d, element)
  {
    var start: nat, end: nat := 0, |d|;
    while end - start > 1
      invariant start < end <= |d|
      invariant forall k :: 0 <= k < start ==> d[k] < element
      invariant forall k :: end <= k < |d| ==> element <= d[k]
      decreases end - start
    {
      var pivotIndex := start + (end - 1 - start) / 2;
      if element > d[pivotIndex] {
        start := pivotIndex + 1;
      } else {
        end := pivotIndex + 1;
      }
    }
    var pivotIndex := start + (end - start) / 2;
    if element > d[pivotIndex] {
      index := pivotIndex + 1;
    } else {
      index := pivotIndex;
    }
    CountLessAt(d, element, index);
  }

  /** `InsertionSort(source, destination)` (Sorting.h:285-348). The
      destination must be non-empty and sorted; each source element, in
      order, is inserted at its lower bound. */
  method InsertionSort(source: seq<int>, destination: Vector)
    requires |destination.elements| > 0 && Sorted(destination.elements)
    modifies destination
    ensures destination.elements == InsertAll(old(destination.elements), source)
    ensures Sorted(destination.elements)
    ensures multiset(destination.elements) == multiset(old(destination.elements)) + multiset(source)
    ensures |destination.elements| == |old(destination.elements)| + |source|
  {
    ghost var d := destination.elements;
    for i := 0 to |source|
      invariant destination.elements == InsertAll(d, source[..i])
      invariant |destination.elements| > 0 && Sorted(destination.elements)
    {
      var element := source[i];
      var index := InsertionPoint(destination.elements, element);
      InsertSorted(destination.elements, element);
      destination.Insert(index, element);
      assert source[..i + 1][..i] == source[..i];
    }
    assert source[..|source|] == source;
    InsertAllSorted(d, source);
  }
}
