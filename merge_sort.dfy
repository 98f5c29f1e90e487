/**
 * `mergeSort`: the bottom-up merge sort. Starting from runs of a known width
 * it merges neighbouring runs pass after pass, doubling the width, and
 * alternates between the caller's array and one scratch array.
 */
module Sorting {
  import opened Sortedness
  import opened Merging

  /**
   * Cut into runs of `w` values from the start (the last run possibly
   * shorter), every run of `s` is sorted.
   */
  predicate BlocksSorted(s: seq<int>, w: nat)
    decreases |s|
  {
    if |s| <= w then Sorted(s) else w > 0 && Sorted(s[..w]) && BlocksSorted(s[w..], w)
  }

  /** The `b`-th aligned run of width `w`, clamped to the end of `s` as the `min` calls clamp it. */
  function Block(s: seq<int>, w: nat, b: nat): seq<int>
  {
    s[Min(b * w, |s|)..Min(b * w + w, |s|)]
  }

  /** The pass invariant as an index statement: every aligned run `[b * w, b * w + w)` is sorted. */
  ghost predicate AlignedBlocksSorted(s: seq<int>, w: nat) {
    forall b: nat :: b * w < |s| ==> Sorted(Block(s, w, b))
  }

  /** Shifting by one run: run `b + 1` of `s` is run `b` of what follows the first run. */
  lemma BlockShift(s: seq<int>, w: nat, b: nat)
    requires 1 <= w <= |s|
    ensures Block(s, w, b + 1) == Block(s[w..], w, b)
  {
    var t := s[w..];
    var lo := b * w;
    assert (b + 1) * w == lo + w;
    var x, y := Min(lo, |t|), Min(lo + w, |t|);
    assert Min(lo + w, |s|) == w + x;
    assert Min(lo + w + w, |s|) == w + y;
    assert t[x..y] == s[w + x..w + y];
  }

  /** The run-by-run statement and the index statement of the pass invariant agree. */
  lemma {:induction false} BlocksSortedIffAligned(s: seq<int>, w: nat)
    requires w >= 1
    ensures BlocksSorted(s, w) <==> AlignedBlocksSorted(s, w)
    decreases |s|
  {
    if |s| <= w {
      ShortBlocksSorted(s, w);
    } else {
      BlocksSortedIffAligned(s[w..], w);
      if BlocksSorted(s, w) {
        AlignedFromRest(s, w);
      }
      if AlignedBlocksSorted(s, w) {
        AlignedRest(s, w);
      }
    }
  }

  /** An array no longer than one run has exactly one aligned run: itself. */
  lemma ShortBlocksSorted(s: seq<int>, w: nat)
    requires 1 <= w && |s| <= w
    ensures BlocksSorted(s, w) <==> AlignedBlocksSorted(s, w)
  {
    assert Block(s, w, 0) == s;
    forall b: nat | b * w < |s| ensures b == 0 {
    }
  }

  /** A sorted first run followed by sorted aligned runs gives sorted aligned runs. */
  lemma AlignedFromRest(s: seq<int>, w: nat)
    requires 1 <= w < |s|
    requires Sorted(s[..w]) && AlignedBlocksSorted(s[w..], w)
    ensures AlignedBlocksSorted(s, w)
  {
    forall b: nat | b * w < |s| ensures Sorted(Block(s, w, b)) {
      if b == 0 {
        assert Block(s, w, 0) == s[..w];
      } else {
        BlockShift(s, w, b - 1);
        assert (b - 1) * w + w == b * w;
      }
    }
  }

  /** Dropping the first run keeps the remaining aligned runs sorted. */
  lemma AlignedRest(s: seq<int>, w: nat)
    requires 1 <= w < |s|
    requires AlignedBlocksSorted(s, w)
    ensures Sorted(s[..w]) && AlignedBlocksSorted(s[w..], w)
  {
    assert Block(s, w, 0) == s[..w];
    forall b: nat | b * w < |s| - w ensures Sorted(Block(s[w..], w, b)) {
      BlockShift(s, w, b);
      assert (b + 1) * w == b * w + w;
    }
  }

  /**
   * One pass of the outer loop: from the start of `s`, each pair of
   * neighbouring runs of width `w` is merged, the right run clamped to the end
   * of `s` and empty when the left run already reaches it.
   */
  function MergePass(s: seq<int>, w: nat): (t: seq<int>)
    requires w >= 1
    ensures |t| == |s|
    decreases |s|
  {
    if s == [] then []
    else
      var m, e := Min(w, |s|), Min(2 * w, |s|);
      Merged(s[..m], s[m..e]) + MergePass(s[e..], w)
  }

  /** The passes `mergeSort` runs from width `w` on, doubling it until it reaches `|s|`. */
  function SortFrom(s: seq<int>, w: nat): (t: seq<int>)
    requires w >= 1 || s == []
    ensures |t| == |s|
    decreases |s| - w
  {
    if |s| <= w then s else SortFrom(MergePass(s, w), 2 * w)
  }

  /** A pass keeps the values of the array, each with its count. */
  lemma {:induction false} MergePassPermutes(s: seq<int>, w: nat)
    requires w >= 1
    ensures multiset(MergePass(s, w)) == multiset(s)
    decreases |s|
  {
    if s != [] {
      var m, e := Min(w, |s|), Min(2 * w, |s|);
      var l, r, rest := s[..m], s[m..e], s[e..];
      assert MergePass(s, w) == Merged(l, r) + MergePass(rest, w);
      MergePassPermutes(rest, w);
      MergedPermutes(l, r);
      MultisetJoin(Merged(l, r), MergePass(rest, w), l + r, rest);
      SplitThree(s, m, e);
    }
  }

  /** Cutting a sequence twice and gluing the pieces gives it back. */
  lemma SplitThree(s: seq<int>, m: nat, e: nat)
    requires m <= e <= |s|
    ensures s[..m] + s[m..e] + s[e..] == s
  {
  }

  /** Joining two pairs of permutations gives a permutation. */
  lemma MultisetJoin(x: seq<int>, y: seq<int>, x': seq<int>, y': seq<int>)
    requires multiset(x) == multiset(x') && multiset(y) == multiset(y')
    ensures multiset(x + y) == multiset(x' + y')
  {
  }

  /** A pass turns sorted runs of width `w` into sorted runs of width `2 * w`. */
  lemma {:induction false} MergePassBlocks(s: seq<int>, w: nat)
    requires w >= 1
    requires BlocksSorted(s, w)
    ensures BlocksSorted(MergePass(s, w), 2 * w)
    decreases |s|
  {
    if s != [] {
      var m, e := Min(w, |s|), Min(2 * w, |s|);
      var l, r := s[..m], s[m..e];
      if |s| <= w {
        assert l == s;
      } else {
        assert l == s[..w];
        var t := s[w..];
        if |t| <= w {
          assert r == t;
        } else {
          assert r == t[..w];
        }
      }
      MergedSorted(l, r);
      var merged := Merged(l, r);
      var rest := MergePass(s[e..], w);
      var t := merged + rest;
      if e == |s| {
        assert s[e..] == [];
        assert t == merged;
      } else {
        assert s[w..][w..] == s[e..];
        MergePassBlocks(s[e..], w);
        assert t[..2 * w] == merged && t[2 * w..] == rest;
      }
    }
  }

  /** Every run of one value is sorted: the starting point when `startWidth` is 1. */
  lemma {:induction false} SingleRunsSorted(s: seq<int>)
    ensures BlocksSorted(s, 1)
    decreases |s|
  {
    if |s| > 1 {
      SingleRunsSorted(s[1..]);
    }
  }

  /** A sorted array has sorted runs at every width. */
  lemma {:induction false} SortedBlocks(s: seq<int>, w: nat)
    requires w >= 1 && Sorted(s)
    ensures BlocksSorted(s, w)
    decreases |s|
  {
    if |s| > w {
      SortedSlice(s, 0, w);
      SortedSlice(s, w, |s|);
      SortedBlocks(s[w..], w);
    }
  }

  /** All the passes together keep the values of the array, each with its count. */
  lemma {:induction false} SortFromPermutes(s: seq<int>, w: nat)
    requires w >= 1 || s == []
    ensures multiset(SortFrom(s, w)) == multiset(s)
    decreases |s| - w
  {
    if |s| > w {
      MergePassPermutes(s, w);
      SortFromPermutes(MergePass(s, w), 2 * w);
    }
  }

  /** Starting from sorted runs of width `w`, the passes leave the array sorted. */
  lemma {:induction false} SortFromSorts(s: seq<int>, w: nat)
    requires w >= 1 || s == []
    requires BlocksSorted(s, w)
    ensures Sorted(SortFrom(s, w))
    decreases |s| - w
  {
    if |s| > w {
      MergePassBlocks(s, w);
      SortFromSorts(MergePass(s, w), 2 * w);
    }
  }

  /**
   * Whatever valid start width is used, the passes produce the same array:
   * the sorted arrangement of its values.
   */
  lemma SortFromAgrees(s: seq<int>, w1: nat, w2: nat)
    requires w1 >= 1 || s == []
    requires w2 >= 1 || s == []
    requires BlocksSorted(s, w1) && BlocksSorted(s, w2)
    ensures SortFrom(s, w1) == SortFrom(s, w2)
  {
    SortFromSorts(s, w1);
    SortFromSorts(s, w2);
    SortFromPermutes(s, w1);
    SortFromPermutes(s, w2);
    SortedUnique(SortFrom(s, w1), SortFrom(s, w2));
  }

  /**
   * The passes compute the one sorted arrangement of the values: any sorted
   * `t` with the same values as `s` is what they produce.
   */
  lemma SortFromIsSortedPermutation(s: seq<int>, w: nat, t: seq<int>)
    requires w >= 1 || s == []
    requires BlocksSorted(s, w)
    requires Sorted(t) && multiset(t) == multiset(s)
    ensures SortFrom(s, w) == t
  {
    SortFromSorts(s, w);
    SortFromPermutes(s, w);
    SortedUnique(SortFrom(s, w), t);
  }

  /** An already sorted array comes out as it went in. */
  lemma SortFromKeepsSorted(s: seq<int>, w: nat)
    requires w >= 1 || s == []
    requires Sorted(s)
    ensures SortFrom(s, w) == s
  {
    if w >= 1 {
      SortedBlocks(s, w);
    }
    SortFromSorts(s, w);
    SortFromPermutes(s, w);
    SortedUnique(SortFrom(s, w), s);
  }

  /** What is left of a pass once its first `i` positions are written. */
  lemma PassStep(s: seq<int>, w: nat, i: nat)
    requires w >= 1 && i < |s|
    ensures MergePass(s[i..], w) ==
      Merged(s[i..Min(i + w, |s|)], s[Min(i + w, |s|)..Min(i + 2 * w, |s|)])
        + MergePass(s[Min(i + 2 * w, |s|)..], w)
  {
    var t := s[i..];
    var m, e := Min(w, |t|), Min(2 * w, |t|);
    assert t[..m] == s[i..Min(i + w, |s|)];
    assert t[m..e] == s[Min(i + w, |s|)..Min(i + 2 * w, |s|)];
    assert t[e..] == s[Min(i + 2 * w, |s|)..];
  }

  /** A slice of the first `n` values is the same slice of the whole. */
  lemma SliceOfPrefix(s: seq<int>, n: nat, i: nat, j: nat)
    requires i <= j <= n <= |s|
    ensures s[..n][i..j] == s[i..j]
  {
  }

  /** Equal slices agree at every position they cover. */
  lemma SlicesAgree(x: seq<int>, y: seq<int>, i: nat, j: nat)
    requires i <= j <= |x| && j <= |y| && x[i..j] == y[i..j]
    ensures forall k :: i <= k < j ==> x[k] == y[k]
  {
    forall k | i <= k < j ensures x[k] == y[k] {
      assert x[k] == x[i..j][k - i] && y[k] == y[i..j][k - i];
    }
  }

  /**
   * What one step of a pass writes: with `pass[i..]` still to be written,
   * positions `[i, e)` receive the merge of the runs starting at `i`, and
   * what is left after them is the pass over the rest.
   */
  lemma PassAdvance(s: seq<int>, w: nat, pass: seq<int>, i: nat)
    requires w >= 1 && i < |s| && |pass| == |s|
    requires MergePass(s[i..], w) == pass[i..]
    ensures pass[i..Min(i + 2 * w, |s|)] ==
      Merged(s[i..Min(i + w, |s|)], s[Min(i + w, |s|)..Min(i + 2 * w, |s|)])
    ensures MergePass(s[Min(i + 2 * w, |s|)..], w) == pass[Min(i + 2 * w, |s|)..]
  {
    var m, e := Min(i + w, |s|), Min(i + 2 * w, |s|);
    var merged := Merged(s[i..m], s[m..e]);
    PassStep(s, w, i);
    assert |merged| == e - i;
    SuffixSplit(pass, i, merged, MergePass(s[e..], w));
  }

  /** A suffix that is `x` followed by `y` holds `x` first and `y` after it. */
  lemma SuffixSplit(s: seq<int>, i: nat, x: seq<int>, y: seq<int>)
    requires i <= |s| && s[i..] == x + y
    ensures i + |x| <= |s|
    ensures s[i..i + |x|] == x && s[i + |x|..] == y
  {
    assert s[i..i + |x|] == s[i..][..|x|];
    assert s[i + |x|..] == s[i..][|x|..];
  }

  /**
   * One pass of the outer loop: merges each pair of neighbouring runs of
   * width `width` of `a[0, n)` into the same positions of `b`, and writes
   * nothing else.
   */
  method MergePassInto(a: array<int>, b: array<int>, n: nat, width: nat)
    requires a != b && n <= a.Length && n <= b.Length && width >= 1
    modifies b
    ensures b[..n] == MergePass(a[..n], width)
    ensures forall k :: n <= k < b.Length ==> b[k] == old(b[k])
  {
    ghost var s := a[..n];
    ghost var pass := MergePass(s, width);
    ghost var done := 0;
    var i := 0;
    while i < n
      invariant done == Min(i, n)
      invariant MergePass(s[done..], width) == pass[done..]
      invariant forall k :: 0 <= k < done ==> b[k] == pass[k]
      invariant forall k :: n <= k < b.Length ==> b[k] == old(b[k])
    {
      var m, e := Min(i + width, n), Min(i + 2 * width, n);
      PassAdvance(s, width, pass, i);
      assert a[..n] == s;
      SliceOfPrefix(a[..], n, i, m);
      SliceOfPrefix(a[..], n, m, e);
      Merge(a, i, m, e, b);
      assert b[..][i..e] == b[i..e];
      SlicesAgree(b[..], pass, i, e);
      done := e;
      i := i + 2 * width;
    }
    assert b[..n] == pass;
  }

  /**
   * `mergeSort(list, n, startWidth)`. When the scratch array cannot be
   * allocated (`allocFails`) it returns at once; otherwise it runs the passes
   * from `startWidth`, swapping the roles of `list` and the scratch array after
   * each pass, and copies the result back into `list` if it ended up in the
   * scratch array.
   */
  method MergeSort(list: array<int>, n: nat, startWidth: nat, allocFails: bool)
    requires n <= list.Length
    requires startWidth >= 1 || n == 0
    modifies list
    ensures allocFails ==> list[..] == old(list[..])
    ensures !allocFails ==> list[..n] == SortFrom(old(list[..n]), startWidth)
    ensures forall k :: n <= k < list.Length ==> list[k] == old(list[k])
    ensures multiset(list[..n]) == multiset(old(list[..n]))
    ensures !allocFails && BlocksSorted(old(list[..n]), startWidth) ==> Sorted(list[..n])
    ensures startWidth >= n ==> list[..] == old(list[..])
  {
    ghost var s0 := list[..n];
    if allocFails {
      return;
    }
    var a := list;
    var b := new int[n];
    ghost var scratch := b;
    var width := startWidth;
    while width < n
      invariant (a == list && b == scratch) || (a == scratch && b == list)
      invariant width >= 1 || n == 0
      invariant SortFrom(a[..n], width) == SortFrom(s0, startWidth)
      invariant forall k :: n <= k < list.Length ==> list[k] == old(list[k])
    {
      ghost var before := a[..n];
      MergePassInto(a, b, n, width);
      assert SortFrom(before, width) == SortFrom(b[..n], 2 * width);
      a, b := b, a;
      width := 2 * width;
    }
    ghost var result := a[..n];
    assert SortFrom(result, width) == result;
    if a != list {
      CopyBack(a, list, n);
    }
    assert list[..n] == result;
    SortFromPermutes(s0, startWidth);
    if BlocksSorted(s0, startWidth) {
      SortFromSorts(s0, startWidth);
    }
    if startWidth >= n {
      forall k | 0 <= k < list.Length ensures list[k] == old(list[k]) {
        if k < n {
          assert list[k] == list[..n][k] && old(list[k]) == s0[k];
        }
      }
      assert list[..] == old(list[..]);
    }
  }

  /** The copy back into `list` when the sorted data ended in the scratch array. */
  method CopyBack(from: array<int>, list: array<int>, n: nat)
    requires from != list && n <= from.Length && n <= list.Length
    modifies list
    ensures list[..n] == from[..n]
    ensures forall k :: n <= k < list.Length ==> list[k] == old(list[k])
  {
    var i := 0;
    while i < n
      invariant i <= n
      invariant forall k :: 0 <= k < i ==> list[k] == from[k]
      invariant forall k :: n <= k < list.Length ==> list[k] == old(list[k])
    {
      list[i] := from[i];
      i := i + 1;
    }
    assert list[..n] == from[..n];
  }
}
