/**
 In-place Lomuto quicksort (task-2b/qsort.c).

 Every method works on the array itself and returns, as a ghost result, how
 often the comparison `A[j] < pivot` was evaluated.
 */
module QuickSort {

  ghost predicate Increasing(s: seq<int>) {
    forall i, j :: 0 <= i < j < |s| ==> s[i] <= s[j]
  }

  ghost predicate StrictlyIncreasing(s: seq<int>) {
    forall i, j :: 0 <= i < j < |s| ==> s[i] < s[j]
  }

  /** n(n-1)/2, as the sum 0 + 1 + ... + (n-1). */
  ghost function Pairs(n: nat): nat {
    if n == 0 then 0 else Pairs(n - 1) + (n - 1)
  }

  /** The number of indices in l..r. */
  ghost function Width(l: int, r: int): nat {
    if l <= r then r - l + 1 else 0
  }

  lemma {:induction false} PairsClosedForm(n: nat)
    ensures 2 * Pairs(n) == n * (n - 1)
  {
    if n > 0 {
      PairsClosedForm(n - 1);
      assert n * (n - 1) == (n - 1) * (n - 2) + 2 * (n - 1);
    }
  }

  /** The recurrence behind the bound: one pass of n-1 comparisons followed by two
      recursions on `left` and `right` elements never exceeds all pairs, whatever
      the split, and the fully lopsided split attains it. */
  lemma {:induction false} SplitCost(left: nat, right: nat)
    ensures left + right + Pairs(left) + Pairs(right) <= Pairs(left + right + 1)
    ensures left + Pairs(left) == Pairs(left + 1)
  {
    if right > 0 {
      SplitCost(left, right - 1);
    }
  }

  /** The last element of a sorted sequence bounds every element of a rearrangement. */
  lemma LastIsGreatest(s: seq<int>, x: int)
    requires Increasing(s) && x in multiset(s)
    ensures x <= s[|s| - 1]
  {
  }

  lemma SameLast(s: seq<int>, t: seq<int>)
    requires Increasing(s) && Increasing(t) && multiset(s) == multiset(t) && |s| == |t| > 0
    ensures s[|s| - 1] == t[|t| - 1]
  {
    assert s[|s| - 1] in multiset(s) && t[|t| - 1] in multiset(t);
    LastIsGreatest(s, t[|t| - 1]);
    LastIsGreatest(t, s[|s| - 1]);
  }

  lemma WithoutLast(s: seq<int>)
    requires s != []
    ensures multiset(s[..|s| - 1]) == multiset(s) - multiset{s[|s| - 1]}
  {
    assert s == s[..|s| - 1] + [s[|s| - 1]];
  }

  /** A sorted rearrangement is unique, so `Qsort` has exactly one possible result. */
  lemma {:induction false} SortedRearrangementUnique(s: seq<int>, t: seq<int>)
    requires Increasing(s) && Increasing(t) && multiset(s) == multiset(t)
    ensures s == t
  {
    assert |s| == |multiset(s)| == |multiset(t)| == |t|;
    if s != [] {
      var n := |s| - 1;
      assert s[n] == t[n] by {
        SameLast(s, t);
      }
      assert multiset(s[..n]) == multiset(t[..n]) by {
        WithoutLast(s);
        WithoutLast(t);
      }
      SortedRearrangementUnique(s[..n], t[..n]);
      assert s[..n] + [s[n]] == t[..n] + [t[n]];
    }
  }

  /** `s` and `t` differ at most at the indices l..r. */
  ghost predicate SameOutside(s: seq<int>, t: seq<int>, l: int, r: int) {
    |s| == |t| && forall m :: 0 <= m < |s| && !(l <= m <= r) ==> t[m] == s[m]
  }

  function SwapAt(s: seq<int>, x: int, y: int): seq<int>
    requires 0 <= x < |s| && 0 <= y < |s|
  {
    s[x := s[y]][y := s[x]]
  }

  lemma SwapRearranges(s: seq<int>, x: int, y: int)
    requires 0 <= x < |s| && 0 <= y < |s|
    ensures multiset(SwapAt(s, x, y)) == multiset(s)
    ensures forall m :: 0 <= m < |s| ==> SwapAt(s, x, y)[m] == if m == x then s[y] else if m == y then s[x] else s[m]
  {
  }

  method Swap(a: array<int>, x: int, y: int)
    requires 0 <= x < a.Length && 0 <= y < a.Length
    modifies a
    ensures a[..] == SwapAt(old(a[..]), x, y)
  {
    var tmp := a[x];
    a[x] := a[y];
    a[y] := tmp;
  }

  /** What the scan does from column `j` on, with the elements below `pivot` found so
      far gathered up to index `i`: the final array and the index of the pivot. */
  function ScanFrom(s: seq<int>, pivot: int, i: int, j: int, r: int): (result: (seq<int>, int))
    requires -1 <= i < j <= r < |s|
    ensures |result.0| == |s| && i < result.1 <= r
    decreases r - j
  {
    if j == r then (SwapAt(s, i + 1, r), i + 1)
    else if s[j] < pivot then ScanFrom(SwapAt(s, i + 1, j), pivot, i + 1, j + 1, r)
    else ScanFrom(s, pivot, i, j + 1, r)
  }

  method Partition(a: array<int>, l: int, r: int) returns (k: int, ghost comparisons: nat)
    requires 0 <= l <= r < a.Length
    modifies a
    ensures (a[..], k) == ScanFrom(old(a[..]), old(a[r]), l - 1, l, r)
    ensures comparisons == r - l
  {
    var pivot := a[r];
    var i := l - 1;
    comparisons := 0;
    var j := l;
    while j < r
      invariant l <= j <= r && l - 1 <= i < j
      invariant ScanFrom(a[..], pivot, i, j, r) == old(ScanFrom(a[..], a[r], l - 1, l, r))
      invariant comparisons == j - l
    {
      comparisons := comparisons + 1;
      if a[j] < pivot {
        i := i + 1;
        Swap(a, i, j);
      }
      j := j + 1;
    }
    i := i + 1;
    Swap(a, i, r);
    k := i;
  }

  /** The final array and the number of comparisons of a whole sort of l..r. */
  ghost function Sorting(s: seq<int>, l: int, r: int): (result: (seq<int>, nat))
    requires l < r ==> 0 <= l && r < |s|
    ensures |result.0| == |s|
    decreases r - l
  {
    if l >= r then (s, 0)
    else
      var (parted, k) := ScanFrom(s, s[r], l - 1, l, r);
      var (left, cl) := Sorting(parted, l, k - 1);
      var (done, cr) := Sorting(left, k + 1, r);
      (done, r - l + cl + cr)
  }

  lemma SortingSplits(s: seq<int>, l: int, r: int, parted: seq<int>, k: int, left: (seq<int>, nat), right: (seq<int>, nat))
    requires 0 <= l < r < |s| && (parted, k) == ScanFrom(s, s[r], l - 1, l, r)
    requires left == Sorting(parted, l, k - 1) && right == Sorting(left.0, k + 1, r)
    ensures Sorting(s, l, r) == (right.0, r - l + left.1 + right.1)
  {
  }

  lemma NothingToSort(s: seq<int>, l: int, r: int)
    requires l >= r
    ensures Sorting(s, l, r) == (s, 0) && SortedRange(s, s, l, r) && 0 <= Width(l, r) * (Width(l, r) - 1)
  {
  }

  /** What sorting comes to. */
  lemma SortedByParts(s: seq<int>, l: int, r: int, parted: seq<int>, k: int, left: (seq<int>, nat), right: (seq<int>, nat))
    requires 0 <= l < r < |s| && (parted, k) == ScanFrom(s, s[r], l - 1, l, r)
    requires left == Sorting(parted, l, k - 1) && right == Sorting(left.0, k + 1, r)
    ensures var comparisons := r - l + left.1 + right.1;
      && (right.0, comparisons) == Sorting(s, l, r)
      && SortedRange(s, right.0, l, r)
      && 2 * comparisons <= Width(l, r) * (Width(l, r) - 1)
  {
    SortingSplits(s, l, r, parted, k, left, right);
    SortingSorts(s, l, r);
    SortingComparisons(s, l, r);
  }

  method Qsort(a: array<int>, l: int, r: int) returns (ghost comparisons: nat)
    requires l < r ==> 0 <= l && r < a.Length
    modifies a
    ensures (a[..], comparisons) == Sorting(old(a[..]), l, r)
    ensures SortedRange(old(a[..]), a[..], l, r)
    ensures 2 * comparisons <= Width(l, r) * (Width(l, r) - 1)
    decreases r - l, 1
  {
    ghost var s := a[..];
    comparisons := 0;
    if l < r {
      var k, c := Partition(a, l, r);
      ghost var parted := a[..];
      var cl, cr := QsortParts(a, l, k, r);
      comparisons := c + cl + cr;
      SortedByParts(s, l, r, parted, k, Sorting(parted, l, k - 1), (a[..], cr));
    } else {
      NothingToSort(s, l, r);
    }
  }

  /** The two recursive calls. */
  method QsortParts(a: array<int>, l: int, k: int, r: int) returns (ghost cl: nat, ghost cr: nat)
    requires 0 <= l <= k <= r < a.Length
    modifies a
    ensures cl == Sorting(old(a[..]), l, k - 1).1
    ensures (a[..], cr) == Sorting(Sorting(old(a[..]), l, k - 1).0, k + 1, r)
    decreases r - l, 0
  {
    cl := Qsort(a, l, k - 1);
    cr := Qsort(a, k + 1, r);
  }

  /** The result of `Partition`: was[r] sits at `k` with exactly the smaller elements
      of the range on its left. */
  ghost predicate Partitioned(was: seq<int>, now: seq<int>, l: int, r: int, k: int) {
    && |now| == |was|
    && 0 <= l <= k <= r < |was|
    && now[k] == was[r]
    && (forall m :: l <= m < k ==> now[m] < now[k])
    && (forall m :: k < m <= r ==> now[m] >= now[k])
    && SameOutside(was, now, l, r)
    && multiset(now) == multiset(was)
    && ((forall m :: l <= m < r ==> was[m] < was[r]) ==> k == r)
    && (k == r ==> now == was)
  }

  /** The scan of `Partition` at column `j`: the elements of `was` below the pivot
      was[r] seen so far have been gathered at l..i. */
  ghost predicate Scanned(was: seq<int>, now: seq<int>, l: int, r: int, i: int, j: int) {
    && |now| == |was|
    && 0 <= l <= j <= r < |was|
    && l - 1 <= i < j
    && (forall m :: l <= m <= i ==> now[m] < was[r])
    && (forall m :: i < m < j ==> now[m] >= was[r])
    && SameOutside(was, now, l, j - 1)
    && multiset(now) == multiset(was)
    && ((forall m :: l <= m < j ==> was[m] < was[r]) ==> i == j - 1)
    && (i == j - 1 ==> now == was)
  }

  lemma ScanKeep(was: seq<int>, now: seq<int>, l: int, r: int, i: int, j: int)
    requires Scanned(was, now, l, r, i, j) && j < r && now[j] >= was[r]
    ensures Scanned(was, now, l, r, i, j + 1)
  {
  }

  lemma ScanMove(was: seq<int>, now: seq<int>, l: int, r: int, i: int, j: int)
    requires Scanned(was, now, l, r, i, j) && j < r && now[j] < was[r]
    ensures Scanned(was, SwapAt(now, i + 1, j), l, r, i + 1, j + 1)
  {
    SwapRearranges(now, i + 1, j);
    MovedSplit(was, now, l, r, i, j);
    ScanMoved(was, now, SwapAt(now, i + 1, j), l, r, i, j);
  }

  lemma ScanMoved(was: seq<int>, now: seq<int>, t: seq<int>, l: int, r: int, i: int, j: int)
    requires Scanned(was, now, l, r, i, j) && j < r
    requires multiset(t) == multiset(now) && (i + 1 == j ==> t == now)
    requires SameOutside(was, t, l, j)
    requires (forall m :: l <= m <= i + 1 ==> t[m] < was[r]) && (forall m :: i + 1 < m < j + 1 ==> t[m] >= was[r])
    ensures Scanned(was, t, l, r, i + 1, j + 1)
  {
  }

  lemma MovedSplit(was: seq<int>, now: seq<int>, l: int, r: int, i: int, j: int)
    requires Scanned(was, now, l, r, i, j) && j < r && now[j] < was[r]
    ensures var t := SwapAt(now, i + 1, j);
      && (forall m :: l <= m <= i + 1 ==> t[m] < was[r])
      && (forall m :: i + 1 < m < j + 1 ==> t[m] >= was[r])
      && SameOutside(was, t, l, j) && (i + 1 == j ==> t == now)
  {
  }

  lemma ScanFinish(was: seq<int>, now: seq<int>, l: int, r: int, i: int)
    requires Scanned(was, now, l, r, i, r)
    ensures Partitioned(was, SwapAt(now, i + 1, r), l, r, i + 1)
  {
    SwapRearranges(now, i + 1, r);
    FinishedSplit(was, now, l, r, i);
    ScanFinished(was, now, SwapAt(now, i + 1, r), l, r, i);
  }

  lemma FinishedSplit(was: seq<int>, now: seq<int>, l: int, r: int, i: int)
    requires Scanned(was, now, l, r, i, r)
    ensures var t := SwapAt(now, i + 1, r);
      && SameOutside(was, t, l, r) && t[i + 1] == was[r]
      && (forall m :: l <= m < i + 1 ==> t[m] < was[r])
      && (forall m :: i + 1 < m <= r ==> t[m] >= was[r])
      && (i + 1 == r ==> t == now)
  {
  }

  lemma ScanFinished(was: seq<int>, now: seq<int>, t: seq<int>, l: int, r: int, i: int)
    requires Scanned(was, now, l, r, i, r)
    requires multiset(t) == multiset(now) && (i + 1 == r ==> t == now)
    requires SameOutside(was, t, l, r) && t[i + 1] == was[r]
    requires (forall m :: l <= m < i + 1 ==> t[m] < was[r]) && (forall m :: i + 1 < m <= r ==> t[m] >= was[r])
    ensures Partitioned(was, t, l, r, i + 1)
  {
  }

  lemma ScanNext(s: seq<int>, pivot: int, i: int, j: int, r: int)
    requires -1 <= i < j < r < |s|
    ensures ScanFrom(s, pivot, i, j, r) ==
      if s[j] < pivot then ScanFrom(SwapAt(s, i + 1, j), pivot, i + 1, j + 1, r) else ScanFrom(s, pivot, i, j + 1, r)
  {
  }

  /** From a scan in progress to the finished partition. */
  lemma {:induction false} ScanPartitions(was: seq<int>, now: seq<int>, l: int, r: int, i: int, j: int,
                                          result: (seq<int>, int))
    requires Scanned(was, now, l, r, i, j) && result == ScanFrom(now, was[r], i, j, r)
    ensures Partitioned(was, result.0, l, r, result.1)
    decreases r - j
  {
    if j == r {
      ScanFinish(was, now, l, r, i);
    } else {
      ScanNext(now, was[r], i, j, r);
      if now[j] < was[r] {
        ScanMove(was, now, l, r, i, j);
        ScanPartitions(was, SwapAt(now, i + 1, j), l, r, i + 1, j + 1, result);
      } else {
        ScanKeep(was, now, l, r, i, j);
        ScanPartitions(was, now, l, r, i, j + 1, result);
      }
    }
  }

  lemma ScannedWholeRange(s: seq<int>, l: int, r: int, parted: seq<int>, k: int)
    requires 0 <= l < r < |s| && (parted, k) == ScanFrom(s, s[r], l - 1, l, r)
    ensures Partitioned(s, parted, l, r, k)
  {
    ScanPartitions(s, s, l, r, l - 1, l, (parted, k));
  }

  lemma SplitThree(s: seq<int>, lo: int, hi: int)
    requires 0 <= lo <= hi <= |s|
    ensures multiset(s[lo..hi]) == multiset(s) - multiset(s[..lo]) - multiset(s[hi..])
  {
    assert s == s[..lo] + s[lo..hi] + s[hi..];
  }

  /** A rearrangement that fixes everything outside a range rearranges the range. */
  lemma SameOutsideSameInside(s: seq<int>, t: seq<int>, lo: int, hi: int)
    requires 0 <= lo <= hi <= |s| == |t|
    requires multiset(s) == multiset(t)
    requires SameOutside(s, t, lo, hi - 1)
    ensures multiset(s[lo..hi]) == multiset(t[lo..hi])
  {
    assert s[..lo] == t[..lo] && s[hi..] == t[hi..];
    SplitThree(s, lo, hi);
    SplitThree(t, lo, hi);
  }

  /** What a completed sort of a[l..r] leaves behind. */
  ghost predicate SortedRange(was: seq<int>, now: seq<int>, l: int, r: int) {
    && SameOutside(was, now, l, r)
    && multiset(now) == multiset(was)
    && (forall i, j :: l <= i < j <= r && 0 <= i && j < |now| ==> now[i] <= now[j])
  }

  /** After partitioning around `k`, any rearrangement of the left part stays below the
      pivot and any rearrangement of the right part stays at or above it. */
  lemma RearrangedPartKeepsBound(s: seq<int>, t: seq<int>, l: int, r: int, m: int)
    requires 0 <= l <= m <= r < |s| == |t|
    requires multiset(s) == multiset(t) && SameOutside(s, t, l, r)
    ensures exists i :: l <= i <= r && s[i] == t[m]
  {
    SameOutsideSameInside(s, t, l, r + 1);
    assert t[l..r + 1][m - l] == t[m];
    assert t[m] in multiset(t[l..r + 1]);
    assert t[m] in s[l..r + 1];
    var i :| 0 <= i < |s[l..r + 1]| && s[l..r + 1][i] == t[m];
    assert s[l + i] == t[m];
  }

  /** Gluing two sorted parts around the pivot. */
  lemma GlueParts(was: seq<int>, p: seq<int>, q: seq<int>, t: seq<int>, l: int, k: int, r: int)
    requires Partitioned(was, p, l, r, k)
    requires SortedRange(p, q, l, k - 1) && SortedRange(q, t, k + 1, r)
    ensures SortedRange(was, t, l, r)
  {
    forall m | l <= m < k
      ensures t[m] < p[k]
    {
      RearrangedPartKeepsBound(p, q, l, k - 1, m);
    }
    forall m | k < m <= r
      ensures t[m] >= p[k]
    {
      RearrangedPartKeepsBound(q, t, k + 1, r, m);
    }
    assert t[k] == p[k];
    forall i, j | l <= i < j <= r
      ensures t[i] <= t[j]
    {
      if j < k {
        assert q[i] <= q[j];
      }
    }
  }

  /** On a strictly increasing range every comparison succeeds: the pivot stays at the end. */
  lemma IncreasingSplitsLast(was: seq<int>, now: seq<int>, l: int, r: int, k: int)
    requires Partitioned(was, now, l, r, k)
    requires StrictlyIncreasing(was[l..r + 1])
    ensures k == r && now == was && StrictlyIncreasing(was[l..r])
  {
    var range := was[l..r + 1];
    assert was[l..r] == range[..r - l] && range[r - l] == was[r];
    assert forall m :: l <= m < r ==> was[m] == range[m - l];
  }

  lemma {:induction false} SortingSorts(s: seq<int>, l: int, r: int)
    requires l < r ==> 0 <= l && r < |s|
    ensures SortedRange(s, Sorting(s, l, r).0, l, r)
    decreases r - l
  {
    if l < r {
      var (parted, k) := ScanFrom(s, s[r], l - 1, l, r);
      var left := Sorting(parted, l, k - 1);
      var right := Sorting(left.0, k + 1, r);
      ScannedWholeRange(s, l, r, parted, k);
      SortingSorts(parted, l, k - 1);
      SortingSorts(left.0, k + 1, r);
      GlueParts(s, parted, left.0, right.0, l, k, r);
      SortingSplits(s, l, r, parted, k, left, right);
    }
  }

  lemma SortingComparisons(s: seq<int>, l: int, r: int)
    requires l < r ==> 0 <= l && r < |s|
    ensures 2 * Sorting(s, l, r).1 <= Width(l, r) * (Width(l, r) - 1)
  {
    SortingPairs(s, l, r);
    PairsClosedForm(Width(l, r));
  }

  lemma {:induction false} SortingPairs(s: seq<int>, l: int, r: int)
    requires l < r ==> 0 <= l && r < |s|
    ensures Sorting(s, l, r).1 <= Pairs(Width(l, r))
    decreases r - l
  {
    if l < r {
      var (parted, k) := ScanFrom(s, s[r], l - 1, l, r);
      SortingPairs(parted, l, k - 1);
      SortingPairs(Sorting(parted, l, k - 1).0, k + 1, r);
      SplitCost(Width(l, k - 1), Width(k + 1, r));
    }
  }

  /** The bound is attained, by input that needs no sorting at all. */
  lemma {:induction false} IncreasingIsWorstCase(s: seq<int>, l: int, r: int)
    requires 0 <= l <= r < |s| && StrictlyIncreasing(s[l..r + 1])
    ensures Sorting(s, l, r) == (s, Pairs(Width(l, r)))
    decreases r - l
  {
    if l < r {
      IncreasingScan(s, l, r);
      IncreasingIsWorstCase(s, l, r - 1);
      NothingToSort(s, r + 1, r);
      SortingSplits(s, l, r, s, r, (s, Pairs(Width(l, r - 1))), (s, 0));
      SplitCost(Width(l, r - 1), 0);
    }
  }

  lemma IncreasingScan(s: seq<int>, l: int, r: int)
    requires 0 <= l < r < |s| && StrictlyIncreasing(s[l..r + 1])
    ensures ScanFrom(s, s[r], l - 1, l, r) == (s, r) && StrictlyIncreasing(s[l..r])
  {
    var (parted, k) := ScanFrom(s, s[r], l - 1, l, r);
    ScannedWholeRange(s, l, r, parted, k);
    IncreasingSplitsLast(s, parted, l, r, k);
  }

  /** On a whole array `Qsort` can have only one result: any sorted rearrangement. */
  lemma WholeArraySorted(s: seq<int>, other: seq<int>)
    requires Increasing(other) && multiset(other) == multiset(s)
    ensures Sorting(s, 0, |s| - 1).0 == other
  {
    SortingSorts(s, 0, |s| - 1);
    SortedRearrangementUnique(Sorting(s, 0, |s| - 1).0, other);
  }
}
