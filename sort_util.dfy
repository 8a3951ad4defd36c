/** Shared vocabulary of the sorting library: the `Detail::Min` helper, the
    order predicates every sort is proved against, and the `IsSorted` check.
    Elements are mathematical integers compared with `<`. */
module SortUtil {

  /** `Detail::Min`: the smaller of two values. */
  function Min(left: int, right: int): (r: int)
    ensures r <= left && r <= right
    ensures r == left || r == right
  {
    if left < right then left else right
  }

  /** Non-decreasing: no later element is smaller than an earlier one. */
  predicate Sorted(s: seq<int>)
  {
    forall i, j :: 0 <= i < j < |s| ==> s[i] <= s[j]
  }

  /** What `IsSorted` inspects: no adjacent pair with `s[i+1] < s[i]`. */
  predicate NoAdjacentInversion(s: seq<int>)
  {
    forall i :: 0 <= i < |s| - 1 ==> !(s[i + 1] < s[i])
  }

  /** Checking adjacent pairs is enough: it decides the pairwise order. */
  lemma {:induction false} AdjacentIffSorted(s: seq<int>)
    ensures NoAdjacentInversion(s) <==> Sorted(s)
  {
    if |s| >= 2 && NoAdjacentInversion(s) {
      assert NoAdjacentInversion(s[1..]) by {
        forall i | 0 <= i < |s[1..]| - 1 ensures !(s[1..][i + 1] < s[1..][i]) {
          assert s[1..][i] == s[i + 1] && s[1..][i + 1] == s[i + 2];
        }
      }
      AdjacentIffSorted(s[1..]);
      forall i, j | 0 <= i < j < |s| ensures s[i] <= s[j] {
        if i == 0 {
          assert s[0] <= s[1];
          if j > 1 { assert s[1..][0] <= s[1..][j - 1]; }
        } else {
          assert s[1..][i - 1] <= s[1..][j - 1];
        }
      }
    }
  }

  /** A non-empty sequence holds its head and the elements of its tail. */
  lemma MultisetHeadTail(s: seq<int>)
    requires |s| > 0
    ensures multiset(s) == multiset{s[0]} + multiset(s[1..])
  {
    assert s == [s[0]] + s[1..];
  }

  /** The elements of a sequence, split at `i`. */
  lemma MultisetSplit(s: seq<int>, i: nat)
    requires i <= |s|
    ensures multiset(s) == multiset(s[..i]) + multiset(s[i..])
  {
    assert s == s[..i] + s[i..];
  }

  /** Dropping `c` and then `t - c` elements drops `t`. */
  lemma DropDrop(s: seq<int>, c: nat, t: nat)
    requires c <= t <= |s|
    ensures s[c..][t - c..] == s[t..]
  {
  }

  /** A slice of a suffix is a slice of the whole sequence. */
  lemma DropSlice(s: seq<int>, c: nat, lo: nat, hi: nat)
    requires lo <= hi && c + hi <= |s|
    ensures s[c..][lo..hi] == s[c + lo..c + hi]
  {
    var u, v := s[c..][lo..hi], s[c + lo..c + hi];
    forall k | 0 <= k < |u| ensures u[k] == v[k] {
      assert u[k] == s[c..][lo + k];
    }
  }

  /** Splitting off the head of the left operand of a concatenation. */
  lemma HeadAppend(s: seq<int>, t: seq<int>)
    requires |s| > 0
    ensures s + t == [s[0]] + (s[1..] + t)
  {
    assert s == [s[0]] + s[1..];
  }

  /** Slices of a concatenation that start inside its left operand. */
  lemma AppendSlices(a: seq<int>, b: seq<int>, i: nat, j: nat)
    requires i <= j <= |a|
    ensures (a + b)[..j] == a[..j]
    ensures (a + b)[i..j] == a[i..j]
    ensures (a + b)[i..] == a[i..] + b
  {
  }

  /** Concatenation is associative. */
  lemma AppendAssoc(a: seq<int>, b: seq<int>, c: seq<int>)
    ensures a + (b + c) == (a + b) + c
  {
  }

  /** A sorted sequence stays sorted when a prefix is dropped. */
  lemma SortedDrop(s: seq<int>, c: nat)
    requires c <= |s| && Sorted(s)
    ensures Sorted(s[c..])
  {
    forall i, j | 0 <= i < j < |s[c..]| ensures s[c..][i] <= s[c..][j] {
      assert s[c..][i] == s[c + i] && s[c..][j] == s[c + j];
    }
  }

  /** Two adjacent slices join into one. */
  lemma JoinSlices(s: seq<int>, i: nat, j: nat)
    requires i <= j <= |s|
    ensures s[..i] + s[i..j] == s[..j]
    ensures s[..i] + s[i..] == s
  {
  }

  /** `IsSorted(begin, end)` (Sorting.h:36-50): the range must be non-empty;
      walks adjacent pairs and answers false at the first inversion. */
  method IsSorted(a: array<int>, begin: nat, end: nat) returns (sorted: bool)
    requires begin < end <= a.Length
    ensures sorted <==> NoAdjacentInversion(a[begin..end])
    ensures sorted <==> Sorted(a[begin..end])
  {
    AdjacentIffSorted(a[begin..end]);
    var first, next := begin, begin + 1;
    while next != end
      invariant begin <= first < next <= end && next == first + 1
      invariant forall i :: begin <= i < first ==> !(a[i + 1] < a[i])
    {
      if a[next] < a[first] {
        assert a[begin..end][first - begin + 1] < a[begin..end][first - begin];
        return false;
      }
      first, next := first + 1, next + 1;
    }
    return true;
  }
}
