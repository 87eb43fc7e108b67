/** The in-place quicksort of the learned index (comp10002/a1/program.c): a three-way
    partition around a pivot value and a recursive sort that takes the middle element as
    its pivot. A C call on `dataset + k` with length `n` is a call here on the section of
    `a` that starts at `lo == k` and holds `n` elements. */
module Sorting {

  /** cmp(): the three-way comparison of two values, on mathematical integers. */
  function Cmp(x1: int, x2: int): (r: int)
    ensures r < 0 <==> x1 < x2
    ensures r == 0 <==> x1 == x2
    ensures r > 0 <==> x1 > x2
  {
    x1 - x2
  }

  /** Non-decreasing order. */
  ghost predicate Sorted(s: seq<int>)
  {
    forall i, j :: 0 <= i < j < |s| ==> s[i] <= s[j]
  }

  /** swap_data: exchange two cells of the array (the two may be the same cell). */
  method SwapData(a: array<int>, i: int, j: int)
    requires 0 <= i < a.Length && 0 <= j < a.Length
    modifies a
    ensures a[..] == old(a[..])[i := old(a[j])][j := old(a[i])]
  {
    var t := a[i];
    a[i] := a[j];
    a[j] := t;
  }

  /** Exchanging two cells inside a section keeps the section's multiset of values and
      everything outside the section. */
  lemma SwapKeepsMultiset(s: seq<int>, t: seq<int>, i: int, j: int, lo: int, hi: int)
    requires 0 <= lo <= i < hi <= |s| && lo <= j < hi
    requires t == s[i := s[j]][j := s[i]]
    ensures multiset(t[lo..hi]) == multiset(s[lo..hi])
    ensures t[..lo] == s[..lo] && t[hi..] == s[hi..]
  {
    assert t[lo..hi] == s[lo..hi][i - lo := s[j]][j - lo := s[i]];
  }

  /** The state of partition's loop over the whole array content `s`, started from `s0`:
      `[lo, lo + fe)` below the pivot, `[lo + fe, lo + next)` equal to it, `[lo + fg, lo + n)`
      above it, the section a permutation of its start and everything else untouched. */
  ghost predicate PartitionState(s: seq<int>, s0: seq<int>, lo: int, n: int, pivot: int,
                                 fe: int, next: int, fg: int)
  {
    && |s| == |s0| && 0 <= lo && lo + n <= |s|
    && 0 <= fe <= next <= fg <= n
    && (forall k :: lo <= k < lo + fe ==> s[k] < pivot)
    && (forall k :: lo + fe <= k < lo + next ==> s[k] == pivot)
    && (forall k :: lo + fg <= k < lo + n ==> s[k] > pivot)
    && multiset(s[lo..lo + n]) == multiset(s0[lo..lo + n])
    && s[..lo] == s0[..lo] && s[lo + n..] == s0[lo + n..]
  }

  /** The step of partition that meets a value below the pivot. */
  lemma PartitionStepBelow(s: seq<int>, t: seq<int>, s0: seq<int>, lo: int, n: int, pivot: int,
                           fe: int, next: int, fg: int)
    requires PartitionState(s, s0, lo, n, pivot, fe, next, fg) && next < fg
    requires s[lo + next] < pivot
    requires t == s[lo + fe := s[lo + next]][lo + next := s[lo + fe]]
    ensures PartitionState(t, s0, lo, n, pivot, fe + 1, next + 1, fg)
  {
    SwapKeepsMultiset(s, t, lo + fe, lo + next, lo, lo + n);
    if fe == next {
      assert t == s;
    } else {
      assert s[lo + fe] == pivot;
      assert t[lo + fe] < pivot && t[lo + next] == pivot;
      assert forall k :: lo <= k < lo + fe ==> t[k] == s[k];
      assert forall k :: lo + fe < k < lo + next ==> t[k] == s[k];
      assert forall k :: lo + fg <= k < lo + n ==> t[k] == s[k];
    }
  }

  /** The step of partition that meets a value above the pivot. */
  lemma PartitionStepAbove(s: seq<int>, t: seq<int>, s0: seq<int>, lo: int, n: int, pivot: int,
                           fe: int, next: int, fg: int)
    requires PartitionState(s, s0, lo, n, pivot, fe, next, fg) && next < fg
    requires s[lo + next] > pivot
    requires t == s[lo + next := s[lo + fg - 1]][lo + fg - 1 := s[lo + next]]
    ensures PartitionState(t, s0, lo, n, pivot, fe, next, fg - 1)
  {
    SwapKeepsMultiset(s, t, lo + next, lo + fg - 1, lo, lo + n);
  }

  /** The step of partition that meets a value equal to the pivot. */
  lemma PartitionStepEqual(s: seq<int>, s0: seq<int>, lo: int, n: int, pivot: int,
                           fe: int, next: int, fg: int)
    requires PartitionState(s, s0, lo, n, pivot, fe, next, fg) && next < fg
    requires s[lo + next] == pivot
    ensures PartitionState(s, s0, lo, n, pivot, fe, next + 1, fg)
  {
  }

  /** One iteration of partition's loop: compare the value at `next` with the pivot and
      swap it into the run below the pivot, swap it to the end of the unexamined run, or
      leave it in the run equal to the pivot. */
  method PartitionStep(a: array<int>, lo: int, n: int, pivot: int, ghost s0: seq<int>,
                       fe: int, next: int, fg: int) returns (fe': int, next': int, fg': int)
    requires PartitionState(a[..], s0, lo, n, pivot, fe, next, fg) && next < fg
    modifies a
    ensures PartitionState(a[..], s0, lo, n, pivot, fe', next', fg')
    ensures fg' - next' == fg - next - 1
  {
    ghost var s := a[..];
    var outcome := Cmp(a[lo + next], pivot);
    if outcome < 0 {
      SwapData(a, lo + fe, lo + next);
      PartitionStepBelow(s, a[..], s0, lo, n, pivot, fe, next, fg);
      fe', next', fg' := fe + 1, next + 1, fg;
    } else if outcome > 0 {
      SwapData(a, lo + next, lo + fg - 1);
      PartitionStepAbove(s, a[..], s0, lo, n, pivot, fe, next, fg);
      fe', next', fg' := fe, next, fg - 1;
    } else {
      PartitionStepEqual(s, s0, lo, n, pivot, fe, next, fg);
      fe', next', fg' := fe, next + 1, fg;
    }
  }

  /** partition: rearrange `a[lo .. lo + n)` into the values below, equal to and above
      `pivot`, returning where the equal and the greater values start. */
  method Partition(a: array<int>, lo: int, n: int, pivot: int) returns (firstEq: int, firstGt: int)
    requires 0 <= lo && 0 <= n && lo + n <= a.Length
    modifies a
    ensures PartitionState(a[..], old(a[..]), lo, n, pivot, firstEq, firstGt, firstGt)
  {
    var next, fe, fg := 0, 0, n;
    ghost var s0 := a[..];
    while next < fg
      invariant PartitionState(a[..], s0, lo, n, pivot, fe, next, fg)
      decreases fg - next
    {
      fe, next, fg := PartitionStep(a, lo, n, pivot, s0, fe, next, fg);
    }
    firstEq, firstGt := fe, fg;
  }

  /** Two sequences with the same multiset hold the same values. */
  lemma SameValues(s: seq<int>, t: seq<int>)
    requires multiset(s) == multiset(t)
    ensures forall x :: x in s <==> x in t
  {
    forall x ensures x in s <==> x in t {
      assert x in s <==> x in multiset(s);
      assert x in t <==> x in multiset(t);
    }
  }

  /** Every value of `s` is below `pivot`. */
  ghost predicate AllBelow(s: seq<int>, pivot: int)
  {
    forall x :: x in s ==> x < pivot
  }

  /** Every value of `s` is `pivot`. */
  ghost predicate AllEqual(s: seq<int>, pivot: int)
  {
    forall x :: x in s ==> x == pivot
  }

  /** Every value of `s` is above `pivot`. */
  ghost predicate AllAbove(s: seq<int>, pivot: int)
  {
    forall x :: x in s ==> x > pivot
  }

  /** A sorted run below the pivot, a run equal to it and a sorted run above it make a
      sorted sequence. */
  lemma SortedThreeWay(l: seq<int>, m: seq<int>, r: seq<int>, pivot: int)
    requires Sorted(l) && Sorted(r)
    requires AllBelow(l, pivot) && AllEqual(m, pivot) && AllAbove(r, pivot)
    ensures Sorted(l + m + r)
  {
    var s := l + m + r;
    forall i, j | 0 <= i < j < |s| ensures s[i] <= s[j] {
      if j < |l| {
        assert s[i] == l[i] && s[j] == l[j];
      } else if i < |l| {
        assert s[i] == l[i] && l[i] in l && s[i] < pivot;
        if j < |l| + |m| { assert s[j] == m[j - |l|] && m[j - |l|] in m; }
        else { assert s[j] == r[j - |l| - |m|] && r[j - |l| - |m|] in r; }
      } else if i < |l| + |m| {
        assert s[i] == m[i - |l|] && m[i - |l|] in m && s[i] == pivot;
        if j < |l| + |m| { assert s[j] == m[j - |l|] && m[j - |l|] in m; }
        else { assert s[j] == r[j - |l| - |m|] && r[j - |l| - |m|] in r; }
      } else {
        assert s[i] == r[i - |l| - |m|] && s[j] == r[j - |l| - |m|];
      }
    }
  }

  /** `t` is `s` with the section `[lo, hi)` sorted: the section is in non-decreasing order,
      holds the same multiset of values as before, and nothing outside it changed. */
  ghost predicate SortsSection(s: seq<int>, t: seq<int>, lo: int, hi: int)
  {
    && |t| == |s| && 0 <= lo <= hi <= |s|
    && Sorted(t[lo..hi])
    && multiset(t[lo..hi]) == multiset(s[lo..hi])
    && t[..lo] == s[..lo] && t[hi..] == s[hi..]
  }

  /** A section of at most one element is sorted as it is. */
  lemma ShortSectionSorted(s: seq<int>, lo: int, hi: int)
    requires 0 <= lo <= hi <= lo + 1 && hi <= |s|
    ensures SortsSection(s, s, lo, hi)
  {
  }

  /** The three runs `[lo, m1)`, `[m1, m2)`, `[m2, hi)` of a section after partitioning: the
      first as the first recursive sort left it, the middle one untouched by both sorts, the
      last as the second recursive sort left it. */
  lemma QuickSortRuns(s1: seq<int>, s2: seq<int>, s3: seq<int>, lo: int, m1: int, m2: int, hi: int)
    requires 0 <= lo <= m1 <= m2 <= hi <= |s1|
    requires SortsSection(s1, s2, lo, m1)
    requires SortsSection(s2, s3, m2, hi)
    ensures s3[lo..m1] == s2[lo..m1]
    ensures s3[m1..m2] == s1[m1..m2]
    ensures s2[m2..hi] == s1[m2..hi]
    ensures s3[lo..hi] == s3[lo..m1] + s3[m1..m2] + s3[m2..hi]
    ensures s1[lo..hi] == s1[lo..m1] + s1[m1..m2] + s1[m2..hi]
    ensures s3[..lo] == s1[..lo] && s3[hi..] == s1[hi..]
  {
    assert s3[..m2] == s2[..m2];
    assert s3[lo..m1] == s3[..m2][lo..m1];
    assert s3[m1..m2] == s3[..m2][m1..m2];
    assert s2[m1..] == s1[m1..];
    assert s2[m1..m2] == s2[m1..][..m2 - m1];
    assert s2[m2..hi] == s2[m1..][m2 - m1..hi - m1];
    assert s3[..lo] == s3[..m2][..lo];
    assert s2[hi..] == s2[m1..][hi - m1..];
  }

  /** The values of the three runs a partition leaves: below, equal to and above the pivot. */
  lemma PartitionRuns(s1: seq<int>, s0: seq<int>, lo: int, n: int, pivot: int, fe: int, fg: int)
    requires PartitionState(s1, s0, lo, n, pivot, fe, fg, fg)
    ensures AllBelow(s1[lo..lo + fe], pivot)
    ensures AllEqual(s1[lo + fe..lo + fg], pivot)
    ensures AllAbove(s1[lo + fg..lo + n], pivot)
  {
    var left, mid, right := s1[lo..lo + fe], s1[lo + fe..lo + fg], s1[lo + fg..lo + n];
    forall x | x in left ensures x < pivot {
      var k :| 0 <= k < fe && left[k] == x;
      assert s1[lo + k] == x;
    }
    forall x | x in mid ensures x == pivot {
      var k :| 0 <= k < fg - fe && mid[k] == x;
      assert s1[lo + fe + k] == x;
    }
    forall x | x in right ensures x > pivot {
      var k :| 0 <= k < n - fg && right[k] == x;
      assert s1[lo + fg + k] == x;
    }
  }

  /** After partitioning `s0` into `s1` (runs below the pivot up to `fe`, equal to it up to
      `fg`), sorting the run below the pivot (`s2`) and then the run above it (`s3`) sorts
      the whole section. */
  lemma QuickSortCombine(s0: seq<int>, s1: seq<int>, s2: seq<int>, s3: seq<int>,
                         lo: int, n: int, pivot: int, fe: int, fg: int, lo2: int, n2: int)
    requires PartitionState(s1, s0, lo, n, pivot, fe, fg, fg)
    requires SortsSection(s1, s2, lo, lo + fe)
    requires lo2 == lo + fg && n2 == n - fg
    requires SortsSection(s2, s3, lo2, lo2 + n2)
    ensures SortsSection(s0, s3, lo, lo + n)
  {
    var m1, m2, hi := lo + fe, lo + fg, lo + n;
    QuickSortRuns(s1, s2, s3, lo, m1, m2, hi);
    PartitionRuns(s1, s0, lo, n, pivot, fe, fg);
    SameValues(s3[lo..m1], s1[lo..m1]);
    SameValues(s3[m2..hi], s1[m2..hi]);
    SortedThreeWay(s3[lo..m1], s3[m1..m2], s3[m2..hi], pivot);
  }

  /** Partitioning on a pivot taken from the section leaves a non-empty run equal to it, so
      both recursive sorts of quick_sort work on shorter sections. */
  lemma PivotRunNonEmpty(s0: seq<int>, s1: seq<int>, lo: int, n: int, pivot: int, fe: int, fg: int)
    requires PartitionState(s1, s0, lo, n, pivot, fe, fg, fg)
    requires pivot in s0[lo..lo + n]
    ensures fe < fg
  {
    SameValues(s1[lo..lo + n], s0[lo..lo + n]);
    var k :| 0 <= k < n && s1[lo..lo + n][k] == pivot;
    assert s1[lo + k] == pivot;
  }

  /** quick_sort: sort `a[lo .. lo + n)` in place, leaving the rest of `a` alone. */
  method QuickSort(a: array<int>, lo: int, n: int)
    requires 0 <= lo && 0 <= n && lo + n <= a.Length
    modifies a
    ensures SortsSection(old(a[..]), a[..], lo, lo + n)
    decreases n
  {
    if n <= 1 {
      ShortSectionSorted(a[..], lo, lo + n);
      return;
    }
    var pivot := a[lo + n / 2];
    ghost var s0 := a[..];
    assert s0[lo..lo + n][n / 2] == pivot;
    var firstEq, firstGt := Partition(a, lo, n, pivot);
    ghost var s1 := a[..];
    PivotRunNonEmpty(s0, s1, lo, n, pivot, firstEq, firstGt);
    QuickSort(a, lo, firstEq);
    ghost var s2 := a[..];
    var lo2, n2 := lo + firstGt, n - firstGt;
    QuickSort(a, lo2, n2);
    QuickSortCombine(s0, s1, s2, a[..], lo, n, pivot, firstEq, firstGt, lo2, n2);
  }
}
