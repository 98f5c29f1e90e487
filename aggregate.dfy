/**
 * The rank-0 half of `mergeAll`: after the gather, the array holds every
 * rank's sorted block in rank order, and one call of `mergeSort` with the
 * block length as start width sorts the whole of it.
 */
module Aggregation {
  import opened Sortedness
  import opened Merging
  import opened Sorting

  /** What the gather leaves at rank 0: the blocks one after another, in rank order. */
  function Gathered(blocks: seq<seq<int>>): seq<int>
    decreases |blocks|
  {
    if blocks == [] then [] else blocks[0] + Gathered(blocks[1..])
  }

  /** All values of all blocks, each counted as often as it occurs. */
  function Pooled(blocks: seq<seq<int>>): multiset<int>
    decreases |blocks|
  {
    if blocks == [] then multiset{} else multiset(blocks[0]) + Pooled(blocks[1..])
  }

  /** Every rank contributes exactly `k` values. */
  predicate Uniform(blocks: seq<seq<int>>, k: nat) {
    forall i :: 0 <= i < |blocks| ==> |blocks[i]| == k
  }

  /** Every rank's block is sorted. */
  predicate EachSorted(blocks: seq<seq<int>>) {
    forall i :: 0 <= i < |blocks| ==> Sorted(blocks[i])
  }

  /** Two ranks: the gather is the first block followed by the second. */
  lemma GatheredTwo(a: seq<int>, b: seq<int>)
    ensures Gathered([a, b]) == a + b
  {
    assert [a, b][1..] == [b] && [b][1..] == [];
    assert Gathered([b]) == b + Gathered([]);
    assert Gathered([a, b]) == a + Gathered([b]);
  }

  /** The gathered array has `howMany * numTasks` entries. */
  lemma {:induction false} GatheredLength(blocks: seq<seq<int>>, k: nat)
    requires Uniform(blocks, k)
    ensures |Gathered(blocks)| == k * |blocks|
    decreases |blocks|
  {
    if blocks != [] {
      GatheredLength(blocks[1..], k);
      assert k * |blocks| == k + k * (|blocks| - 1);
    }
  }

  /** The gather neither creates, drops nor duplicates a value. */
  lemma {:induction false} GatheredPermutes(blocks: seq<seq<int>>)
    ensures multiset(Gathered(blocks)) == Pooled(blocks)
    decreases |blocks|
  {
    if blocks != [] {
      GatheredPermutes(blocks[1..]);
    }
  }

  /** Rank `i`'s block lands in aligned run `i`: positions `[i * k, (i + 1) * k)`. */
  lemma {:induction false} GatheredBlock(blocks: seq<seq<int>>, k: nat, i: nat)
    requires Uniform(blocks, k) && i < |blocks|
    ensures Block(Gathered(blocks), k, i) == blocks[i]
    decreases i
  {
    var all := Gathered(blocks);
    GatheredLength(blocks, k);
    if k == 0 {
      assert Block(all, k, i) == [];
    } else if i == 0 {
      assert all[..k] == blocks[0];
    } else {
      var rest := blocks[1..];
      GatheredLength(rest, k);
      assert all[k..] == Gathered(rest);
      BlockShift(all, k, i - 1);
      GatheredBlock(rest, k, i - 1);
    }
  }

  /** Sorted blocks of equal length, gathered, have sorted runs of that length. */
  lemma {:induction false} GatheredBlocksSorted(blocks: seq<seq<int>>, k: nat)
    requires Uniform(blocks, k) && EachSorted(blocks)
    ensures BlocksSorted(Gathered(blocks), k)
    decreases |blocks|
  {
    var all := Gathered(blocks);
    GatheredLength(blocks, k);
    if blocks != [] {
      var rest := blocks[1..];
      GatheredLength(rest, k);
      GatheredBlocksSorted(rest, k);
      if |all| <= k {
        assert all == blocks[0];
      } else {
        assert all[..k] == blocks[0] && all[k..] == Gathered(rest);
      }
    }
  }

  /**
   * Why one `mergeSort` call from width `howMany` is enough: sorting the
   * gathered array from that width yields every value of every block, in
   * order.
   */
  lemma Aggregated(blocks: seq<seq<int>>, k: nat)
    requires Uniform(blocks, k) && EachSorted(blocks)
    ensures k >= 1 || Gathered(blocks) == []
    ensures |SortFrom(Gathered(blocks), k)| == k * |blocks|
    ensures Sorted(SortFrom(Gathered(blocks), k))
    ensures multiset(SortFrom(Gathered(blocks), k)) == Pooled(blocks)
  {
    var all := Gathered(blocks);
    GatheredLength(blocks, k);
    GatheredBlocksSorted(blocks, k);
    GatheredPermutes(blocks);
    SortFromSorts(all, k);
    SortFromPermutes(all, k);
  }

  /** What rank 0 holds after `mergeSort` ran on the gathered array, or failed to allocate. */
  lemma SortedOutcome(blocks: seq<seq<int>>, k: nat, allocFails: bool, t: seq<int>)
    requires Uniform(blocks, k) && (k >= 1 || Gathered(blocks) == [])
    requires allocFails ==> t == Gathered(blocks)
    requires !allocFails ==> t == SortFrom(Gathered(blocks), k)
    ensures multiset(t) == Pooled(blocks)
    ensures !allocFails && EachSorted(blocks) ==> Sorted(t)
  {
    GatheredPermutes(blocks);
    if !allocFails {
      SortFromPermutes(Gathered(blocks), k);
      if EachSorted(blocks) {
        GatheredBlocksSorted(blocks, k);
        SortFromSorts(Gathered(blocks), k);
      }
    }
  }

  /**
   * The gather into rank 0's fresh array `A` of `howMany * numTasks` entries:
   * rank `i`'s block fills positions `[i * howMany, (i + 1) * howMany)`.
   */
  method Gather(blocks: seq<seq<int>>, howMany: nat) returns (A: array<int>)
    requires Uniform(blocks, howMany)
    ensures fresh(A)
    ensures A.Length == howMany * |blocks|
    ensures A[..] == Gathered(blocks)
  {
    var gathered := Gathered(blocks);
    var n := howMany * |blocks|;
    GatheredLength(blocks, howMany);
    A := new int[n](i requires 0 <= i < n => gathered[i]);
  }

  /**
   * `mergeAll` at rank 0, from the gather on: the gathered array of
   * `howMany * numTasks` values is sorted by `mergeSort(A, n, howMany)`, or
   * left as gathered when that call cannot allocate its scratch array.
   */
  method MergeAll(blocks: seq<seq<int>>, howMany: nat, allocFails: bool) returns (A: array<int>)
    requires Uniform(blocks, howMany)
    ensures fresh(A)
    ensures A.Length == howMany * |blocks| == |Gathered(blocks)|
    ensures allocFails ==> A[..] == Gathered(blocks)
    ensures !allocFails ==> A[..] == SortFrom(Gathered(blocks), howMany)
    ensures multiset(A[..]) == Pooled(blocks)
    ensures !allocFails && EachSorted(blocks) ==> Sorted(A[..])
  {
    A := Gather(blocks, howMany);
    var n := A.Length;
    assert A[..] == A[..n];
    MergeSort(A, n, howMany, allocFails);
    assert A[..] == A[..n];
    SortedOutcome(blocks, howMany, allocFails, A[..]);
  }
}
