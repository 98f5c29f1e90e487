/**
 * Sortedness of integer sequences: the order every sorting pass aims at, the
 * adjacent-pair test that `isSorted` performs, and the fact that a sorted
 * arrangement of a multiset is unique.
 */
module Sortedness {

  /** Every element is at most every later element. */
  predicate Sorted(s: seq<int>) {
    forall i, j :: 0 <= i < j < |s| ==> s[i] <= s[j]
  }

  /** Every element is at most its right neighbour: the test `isSorted` runs. */
  predicate AdjacentOrdered(s: seq<int>) {
    forall i :: 1 <= i < |s| ==> s[i - 1] <= s[i]
  }

  /** Checking neighbours is enough: adjacent order and global order coincide. */
  lemma {:induction false} AdjacentOrderedIffSorted(s: seq<int>)
    ensures AdjacentOrdered(s) <==> Sorted(s)
  {
    if AdjacentOrdered(s) && |s| > 1 {
      AdjacentOrderedIffSorted(s[1..]);
      assert AdjacentOrdered(s[1..]) by {
        forall i | 1 <= i < |s| - 1 ensures s[1..][i - 1] <= s[1..][i] {
          assert s[1..][i - 1] == s[i] && s[1..][i] == s[i + 1];
        }
      }
      forall i, j | 0 <= i < j < |s| ensures s[i] <= s[j] {
        if i > 0 {
          assert s[i] == s[1..][i - 1] && s[j] == s[1..][j - 1];
        } else if j > 1 {
          assert s[1] == s[1..][0] && s[j] == s[1..][j - 1];
        }
      }
    }
  }

  /** A sequence sorted in place stays sorted on every slice. */
  lemma SortedSlice(s: seq<int>, lo: nat, hi: nat)
    requires Sorted(s) && lo <= hi <= |s|
    ensures Sorted(s[lo..hi])
  {
    forall i, j | 0 <= i < j < hi - lo ensures s[lo..hi][i] <= s[lo..hi][j] {
      assert s[lo..hi][i] == s[lo + i] && s[lo..hi][j] == s[lo + j];
    }
  }

  /** Two sorted sequences holding the same multiset of values are equal. */
  lemma {:induction false} SortedUnique(a: seq<int>, b: seq<int>)
    requires Sorted(a) && Sorted(b)
    requires multiset(a) == multiset(b)
    ensures a == b
    decreases |a|
  {
    assert |a| == |multiset(a)| == |multiset(b)| == |b|;
    if a != [] {
      HeadIsLeast(a, b);
      HeadIsLeast(b, a);
      TailMultiset(a);
      TailMultiset(b);
      SortedSlice(a, 1, |a|);
      SortedSlice(b, 1, |b|);
      SortedUnique(a[1..], b[1..]);
      assert a == [a[0]] + a[1..] && b == [b[0]] + b[1..];
    }
  }

  /** Dropping the head removes exactly one occurrence of it. */
  lemma TailMultiset(s: seq<int>)
    requires s != []
    ensures multiset(s[1..]) == multiset(s) - multiset{s[0]}
  {
    assert s == [s[0]] + s[1..];
  }

  /** The head of a sorted sequence is a least element of any sequence with the same values. */
  lemma HeadIsLeast(a: seq<int>, b: seq<int>)
    requires Sorted(a) && a != [] && b != []
    requires multiset(a) == multiset(b)
    ensures a[0] <= b[0]
  {
    assert b[0] in multiset(a);
    var i :| 0 <= i < |a| && a[i] == b[0];
    assert i == 0 || a[0] <= a[i];
  }

  /**
   * `isSorted`: scans the first `howMany` entries and answers 1 exactly when
   * no entry is smaller than its predecessor, 0 otherwise.
   */
  method IsSorted(numbers: array<int>, howMany: nat) returns (r: int)
    requires howMany <= numbers.Length
    ensures r == 1 <==> Sorted(numbers[..howMany])
    ensures r == 0 <==> !Sorted(numbers[..howMany])
    ensures howMany <= 1 ==> r == 1
  {
    var i := 1;
    while i < howMany
      invariant 1 <= i
      invariant forall k :: 1 <= k < i && k < howMany ==> numbers[k - 1] <= numbers[k]
    {
      if numbers[i] < numbers[i - 1] {
        assert numbers[..howMany][i - 1] > numbers[..howMany][i];
        return 0;
      }
      i := i + 1;
    }
    assert AdjacentOrdered(numbers[..howMany]);
    AdjacentOrderedIffSorted(numbers[..howMany]);
    return 1;
  }
}
