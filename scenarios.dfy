/**
 * Concrete scenarios: the tie rule of the merge, sorts from single-value
 * runs (one of them with a clamped last run), and the aggregation of two
 * ranks' sorted blocks.
 */
module Scenarios {
  import opened Sortedness
  import opened Sorting
  import opened Merging
  import opened Aggregation

  /**
   * Equal heads are taken from the left run first: the left `2` is written,
   * then the rest of the left run (`1` is below the right `2`), then the
   * right run. Taking the right head on a tie would give `[2, 2, 1, 5]`.
   */
  lemma TieTakesLeft(l: seq<int>, r: seq<int>)
    requires l == [2, 1] && r == [2, 5]
    ensures Merged(l, r) == [2, 1, 2, 5]
  {
    TakeLeftStep(l, r, 0, 0);
    TakeLeftStep(l, r, 1, 0);
    MergeLeftDone(l, r, 0);
    assert r[0..] == [2, 5];
  }

  /**
   * Five values from width 1: the last pair of runs at each width is cut
   * short by `min(i + 2 * width, n)`, and the result is still sorted.
   */
  lemma SortFromSinglesOdd(s: seq<int>)
    requires s == [5, 3, 1, 4, 2]
    ensures SortFrom(s, 1) == [1, 2, 3, 4, 5]
  {
    var t := [1, 2, 3, 4, 5];
    SortedFive(t);
    OddValues(s, t);
    SingleRunsSorted(s);
    SortFromIsSortedPermutation(s, 1, t);
  }

  /** Five values in ascending order form a sorted sequence. */
  lemma SortedFive(t: seq<int>)
    requires |t| == 5 && t[0] <= t[1] <= t[2] <= t[3] <= t[4]
    ensures Sorted(t)
  {
    assert AdjacentOrdered(t);
    AdjacentOrderedIffSorted(t);
  }

  /** The five-value input and its expected output hold the same values. */
  lemma OddValues(s: seq<int>, t: seq<int>)
    requires s == [5, 3, 1, 4, 2] && t == [1, 2, 3, 4, 5]
    ensures multiset(s) == multiset(t)
  {
    assert multiset(s) == multiset{5, 3, 1, 4, 2};
    assert multiset(t) == multiset{1, 2, 3, 4, 5};
  }

  /** Starting from runs of width 1, four unsorted values come out in order. */
  lemma SortFromSingles(s: seq<int>)
    requires s == [4, 1, 3, 2]
    ensures SortFrom(s, 1) == [1, 2, 3, 4]
  {
    var t := [1, 2, 3, 4];
    SortedFour(t);
    SinglesValues(s, t);
    SingleRunsSorted(s);
    SortFromIsSortedPermutation(s, 1, t);
  }

  /** Two ranks with two sorted values each: one call from width 2 sorts all four. */
  lemma TwoRanks(a: seq<int>, b: seq<int>)
    requires a == [3, 7] && b == [1, 4]
    ensures SortFrom(Gathered([a, b]), 2) == [1, 3, 4, 7]
  {
    var t := [1, 3, 4, 7];
    GatheredTwo(a, b);
    SortedFour(t);
    TwoRanksValues(a, b, t);
    TwoRanksRuns(a, b);
    SortFromIsSortedPermutation(a + b, 2, t);
  }

  /** Four values in ascending order form a sorted sequence. */
  lemma SortedFour(t: seq<int>)
    requires |t| == 4 && t[0] <= t[1] <= t[2] <= t[3]
    ensures Sorted(t)
  {
    assert AdjacentOrdered(t);
    AdjacentOrderedIffSorted(t);
  }

  /** The single-run input and its expected output hold the same values. */
  lemma SinglesValues(s: seq<int>, t: seq<int>)
    requires s == [4, 1, 3, 2] && t == [1, 2, 3, 4]
    ensures multiset(s) == multiset(t)
  {
    assert multiset(s) == multiset{4, 1, 3, 2};
    assert multiset(t) == multiset{1, 2, 3, 4};
  }

  /** The two ranks' blocks and the expected output hold the same values. */
  lemma TwoRanksValues(a: seq<int>, b: seq<int>, t: seq<int>)
    requires a == [3, 7] && b == [1, 4] && t == [1, 3, 4, 7]
    ensures multiset(t) == multiset(a + b)
  {
    assert a + b == [3, 7, 1, 4];
    assert multiset(a + b) == multiset{3, 7, 1, 4};
    assert multiset(t) == multiset{1, 3, 4, 7};
  }

  /** Each rank's block is one sorted run of width 2 of the gathered array. */
  lemma TwoRanksRuns(a: seq<int>, b: seq<int>)
    requires a == [3, 7] && b == [1, 4]
    ensures BlocksSorted(a + b, 2)
  {
    assert (a + b)[..2] == a && (a + b)[2..] == b;
  }
}
