/**
 * The merge step: two adjacent runs `A[iLeft, iRight)` and `A[iRight, iEnd)`
 * are combined into `B[iLeft, iEnd)`, taking the left head whenever it is no
 * larger than the right head.
 */
module Merging {
  import opened Sortedness

  /** `min` of two ints; on a tie it answers its first argument. */
  function Min(a: int, b: int): (r: int)
    ensures r <= a && r <= b
    ensures r == a || r == b
  {
    if a <= b then a else b
  }

  /** `max` of two ints; on a tie it answers its first argument. */
  function Max(a: int, b: int): (r: int)
    ensures r >= a && r >= b
    ensures r == a || r == b
  {
    if a >= b then a else b
  }

  /**
   * What `merge` writes once it has consumed the first `p` values of the left
   * run `l` and the first `q` values of the right run `r`: while the left run
   * has a head and the right run is exhausted or its head is not smaller, the
   * left head comes next (so equal heads are taken from the left); otherwise
   * the right head does.
   */
  function MergeFrom(l: seq<int>, r: seq<int>, p: nat, q: nat): (m: seq<int>)
    requires p <= |l| && q <= |r|
    ensures |m| == (|l| - p) + (|r| - q)
    decreases (|l| - p) + (|r| - q)
  {
    if p < |l| && (q == |r| || l[p] <= r[q]) then [l[p]] + MergeFrom(l, r, p + 1, q)
    else if q < |r| then [r[q]] + MergeFrom(l, r, p, q + 1)
    else []
  }

  /** The whole merge of the runs `l` and `r`. */
  function Merged(l: seq<int>, r: seq<int>): (m: seq<int>)
    ensures |m| == |l| + |r|
  {
    MergeFrom(l, r, 0, 0)
  }

  /** Merging two runs neither creates, drops nor duplicates a value. */
  lemma MergedPermutes(l: seq<int>, r: seq<int>)
    ensures multiset(Merged(l, r)) == multiset(l + r)
  {
    MergePermutes(l, r, 0, 0);
    assert l[0..] == l && r[0..] == r;
  }

  /** Merging two sorted runs yields a sorted run. */
  lemma MergedSorted(l: seq<int>, r: seq<int>)
    requires Sorted(l) && Sorted(r)
    ensures Sorted(Merged(l, r))
  {
    MergeSorted(l, r, 0, 0);
  }

  /** With one side empty the merge is a straight copy of the other side. */
  lemma MergedEmptySide(l: seq<int>, r: seq<int>)
    ensures Merged(l, []) == l
    ensures Merged([], r) == r
  {
    MergeRightDone(l, [], 0);
    MergeLeftDone([], r, 0);
    assert l[0..] == l && r[0..] == r;
  }

  /** Once the right run is used up, the rest of the merge copies the left run. */
  lemma {:induction false} MergeRightDone(l: seq<int>, r: seq<int>, p: nat)
    requires p <= |l|
    ensures MergeFrom(l, r, p, |r|) == l[p..]
    decreases |l| - p
  {
    if p < |l| {
      MergeRightDone(l, r, p + 1);
      assert l[p..] == [l[p]] + l[p + 1..];
    }
  }

  /** Once the left run is used up, the rest of the merge copies the right run. */
  lemma {:induction false} MergeLeftDone(l: seq<int>, r: seq<int>, q: nat)
    requires q <= |r|
    ensures MergeFrom(l, r, |l|, q) == r[q..]
    decreases |r| - q
  {
    if q < |r| {
      MergeLeftDone(l, r, q + 1);
      assert r[q..] == [r[q]] + r[q + 1..];
    }
  }

  /** Merging neither creates, drops nor duplicates a value. */
  lemma {:induction false} MergePermutes(l: seq<int>, r: seq<int>, p: nat, q: nat)
    requires p <= |l| && q <= |r|
    ensures multiset(MergeFrom(l, r, p, q)) == multiset(l[p..]) + multiset(r[q..])
    decreases (|l| - p) + (|r| - q)
  {
    if p < |l| && (q == |r| || l[p] <= r[q]) {
      MergePermutes(l, r, p + 1, q);
      TakeLeftStep(l, r, p, q);
      DropHead(l, p);
      ConsPermutes(l[p], MergeFrom(l, r, p + 1, q), l[p + 1..], r[q..]);
    } else if q < |r| {
      MergePermutes(l, r, p, q + 1);
      assert !(p < |l| && l[p] <= r[q]);
      TakeRightStep(l, r, p, q);
      DropHead(r, q);
      ConsPermutes(r[q], MergeFrom(l, r, p, q + 1), r[q + 1..], l[p..]);
    } else {
      assert p == |l| && q == |r|;
      assert MergeFrom(l, r, p, q) == [] && l[p..] == [] && r[q..] == [];
    }
  }

  /** A non-empty suffix is its first value followed by the rest. */
  lemma DropHead(s: seq<int>, i: nat)
    requires i < |s|
    ensures s[i..] == [s[i]] + s[i + 1..]
  {
  }

  /** Putting the same value in front of a sequence and of one of two sources keeps them permutations. */
  lemma ConsPermutes(x: int, m: seq<int>, a: seq<int>, b: seq<int>)
    requires multiset(m) == multiset(a) + multiset(b)
    ensures multiset([x] + m) == multiset([x] + a) + multiset(b)
    ensures multiset([x] + m) == multiset(b) + multiset([x] + a)
  {
    assert multiset([x] + m) == multiset{x} + multiset(m);
    assert multiset([x] + a) == multiset{x} + multiset(a);
  }

  /** The merge of two sorted runs is sorted. */
  lemma {:induction false} MergeSorted(l: seq<int>, r: seq<int>, p: nat, q: nat)
    requires p <= |l| && q <= |r|
    requires Sorted(l) && Sorted(r)
    ensures Sorted(MergeFrom(l, r, p, q))
    decreases (|l| - p) + (|r| - q)
  {
    if p < |l| && (q == |r| || l[p] <= r[q]) {
      MergeSorted(l, r, p + 1, q);
      TakeLeftSorted(l, r, p, q);
    } else if q < |r| {
      MergeSorted(l, r, p, q + 1);
      assert !(p < |l| && l[p] <= r[q]);
      TakeRightSorted(l, r, p, q);
    } else {
      assert p == |l| && q == |r|;
    }
  }

  /** Taking the left head keeps the merge sorted when the rest of it is. */
  lemma TakeLeftSorted(l: seq<int>, r: seq<int>, p: nat, q: nat)
    requires p < |l| && q <= |r| && (q == |r| || l[p] <= r[q])
    requires Sorted(l) && Sorted(r)
    requires Sorted(MergeFrom(l, r, p + 1, q))
    ensures Sorted(MergeFrom(l, r, p, q))
  {
    var m := MergeFrom(l, r, p + 1, q);
    if m != [] {
      MergeHead(l, r, p + 1, q);
      assert p + 1 < |l| ==> l[p] <= l[p + 1];
    }
    ConsSorted(l[p], m);
    TakeLeftStep(l, r, p, q);
  }

  /** Taking the right head keeps the merge sorted when the rest of it is. */
  lemma TakeRightSorted(l: seq<int>, r: seq<int>, p: nat, q: nat)
    requires p <= |l| && q < |r| && !(p < |l| && l[p] <= r[q])
    requires Sorted(l) && Sorted(r)
    requires Sorted(MergeFrom(l, r, p, q + 1))
    ensures Sorted(MergeFrom(l, r, p, q))
  {
    var m := MergeFrom(l, r, p, q + 1);
    if m != [] {
      MergeHead(l, r, p, q + 1);
      assert q + 1 < |r| ==> r[q] <= r[q + 1];
    }
    ConsSorted(r[q], m);
    TakeRightStep(l, r, p, q);
  }

  /** The first value of a non-empty merge is the head of one of the two runs. */
  lemma MergeHead(l: seq<int>, r: seq<int>, p: nat, q: nat)
    requires p <= |l| && q <= |r| && p + q < |l| + |r|
    ensures (p < |l| && MergeFrom(l, r, p, q)[0] == l[p]) || (q < |r| && MergeFrom(l, r, p, q)[0] == r[q])
  {
    if p < |l| && (q == |r| || l[p] <= r[q]) {
      TakeLeftStep(l, r, p, q);
    } else {
      assert !(p < |l| && l[p] <= r[q]);
      TakeRightStep(l, r, p, q);
    }
  }

  /** A value no larger than the head of a sorted sequence can go in front of it. */
  lemma ConsSorted(x: int, m: seq<int>)
    requires Sorted(m) && (m != [] ==> x <= m[0])
    ensures Sorted([x] + m)
  {
    forall i, j | 0 <= i < j < |m| + 1 ensures ([x] + m)[i] <= ([x] + m)[j] {
      if i == 0 {
        assert ([x] + m)[j] == m[j - 1] && m[0] <= m[j - 1];
      } else {
        assert ([x] + m)[i] == m[i - 1] && ([x] + m)[j] == m[j - 1];
      }
    }
  }

  /**
   * Runs that are already in order (every left value at most every right
   * value, equal values included) come out as the left run followed by the
   * right run.
   */
  lemma {:induction false} MergeInOrderRuns(l: seq<int>, r: seq<int>, p: nat)
    requires p <= |l|
    requires Sorted(l + r)
    ensures MergeFrom(l, r, p, 0) == l[p..] + r
    decreases |l| - p
  {
    if p == |l| {
      MergeLeftDone(l, r, 0);
    } else {
      assert (l + r)[p] == l[p];
      if r != [] {
        assert r[0] == (l + r)[|l|];
      }
      MergeInOrderRuns(l, r, p + 1);
      assert l[p..] + r == [l[p]] + (l[p + 1..] + r);
    }
  }

  /** The left head comes first when it is no larger than the right head. */
  lemma TakeLeftStep(l: seq<int>, r: seq<int>, p: nat, q: nat)
    requires p < |l| && q <= |r| && (q == |r| || l[p] <= r[q])
    ensures MergeFrom(l, r, p, q) == [l[p]] + MergeFrom(l, r, p + 1, q)
  {
  }

  /** The right head comes first when the left run is used up or its head is larger. */
  lemma TakeRightStep(l: seq<int>, r: seq<int>, p: nat, q: nat)
    requires p <= |l| && q < |r| && !(p < |l| && l[p] <= r[q])
    ensures MergeFrom(l, r, p, q) == [r[q]] + MergeFrom(l, r, p, q + 1)
  {
  }

  /**
   * One step of the merge loop: with `merged[p + q..]` still to be written,
   * the next value written is the head the comparison picks, and the merge
   * goes on from the advanced position `(p', q')`.
   */
  lemma MergeAdvance(l: seq<int>, r: seq<int>, merged: seq<int>, p: nat, q: nat) returns (p': nat, q': nat)
    requires p <= |l| && q <= |r| && p + q < |l| + |r| && p + q <= |merged|
    requires MergeFrom(l, r, p, q) == merged[p + q..]
    ensures p + q < |merged| && p' <= |l| && q' <= |r| && p' + q' == p + q + 1
    ensures MergeFrom(l, r, p', q') == merged[p' + q'..]
    ensures p < |l| && (q == |r| || l[p] <= r[q]) ==> p' == p + 1 && q' == q && merged[p + q] == l[p]
    ensures !(p < |l| && (q == |r| || l[p] <= r[q])) ==> p' == p && q' == q + 1 && merged[p + q] == r[q]
  {
    if p < |l| && (q == |r| || l[p] <= r[q]) {
      TakeLeftStep(l, r, p, q);
      SuffixStep(merged, p + q, l[p], MergeFrom(l, r, p + 1, q));
      p', q' := p + 1, q;
    } else {
      assert !(p < |l| && l[p] <= r[q]);
      TakeRightStep(l, r, p, q);
      SuffixStep(merged, p + q, r[q], MergeFrom(l, r, p, q + 1));
      p', q' := p, q + 1;
    }
  }

  /** A suffix that starts with `x` and goes on with `t` yields `x` at its start and `t` after it. */
  lemma SuffixStep(s: seq<int>, i: nat, x: int, t: seq<int>)
    requires i <= |s| && s[i..] == [x] + t
    ensures i < |s| && s[i] == x && s[i + 1..] == t
  {
    assert s[i..][0] == x;
    assert s[i + 1..] == s[i..][1..];
  }

  /**
   * `merge(A, iLeft, iRight, iEnd, B)`: writes into `B[iLeft, iEnd)` the merge
   * of the runs `A[iLeft, iRight)` and `A[iRight, iEnd)`; every other entry of
   * `B`, and all of `A`, stay as they were.
   */
  method Merge(A: array<int>, iLeft: nat, iRight: nat, iEnd: nat, B: array<int>)
    requires iLeft <= iRight <= iEnd <= A.Length
    requires iEnd <= B.Length
    requires A != B
    modifies B
    ensures B[iLeft..iEnd] == Merged(A[iLeft..iRight], A[iRight..iEnd])
    ensures forall k :: 0 <= k < iLeft ==> B[k] == old(B[k])
    ensures forall k :: iEnd <= k < B.Length ==> B[k] == old(B[k])
  {
    ghost var l, r := A[iLeft..iRight], A[iRight..iEnd];
    ghost var merged := Merged(l, r);
    ghost var p: nat, q: nat := 0, 0;
    var i0 := iLeft;
    var i1 := iRight;
    var j := iLeft;
    while j < iEnd
      invariant i0 == iLeft + p && i1 == iRight + q
      invariant p <= |l| && q <= |r| && |merged| == |l| + |r|
      invariant j == iLeft + p + q
      invariant MergeFrom(l, r, p, q) == merged[p + q..]
      invariant forall k :: iLeft <= k < j ==> B[k] == merged[k - iLeft]
      invariant forall k :: 0 <= k < iLeft ==> B[k] == old(B[k])
      invariant forall k :: j <= k < B.Length ==> B[k] == old(B[k])
    {
      assert p < |l| ==> l[p] == A[i0];
      assert q < |r| ==> r[q] == A[i1];
      ghost var p', q' := MergeAdvance(l, r, merged, p, q);
      if i0 < iRight && (i1 >= iEnd || A[i0] <= A[i1]) {
        B[j] := A[i0];
        i0 := i0 + 1;
      } else {
        B[j] := A[i1];
        i1 := i1 + 1;
      }
      p, q := p', q';
      j := j + 1;
    }
    assert B[iLeft..iEnd] == merged;
  }
}
