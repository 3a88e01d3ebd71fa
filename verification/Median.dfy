/** The median of two sorted arrays: partition search, and merging and sorting. */
module Median {
  import opened Extended
  import opened OrderStatistics
  import S = Sorting

  /** The elements of the two middle ranks, which coincide when the number of elements is odd. */
  ghost predicate Middle(s: seq<int>, l: int, h: int) {
    s != [] && HasRank(s, (|s| - 1) / 2, l) && HasRank(s, |s| / 2, h)
  }

  function Mean(l: int, h: int): real {
    (l + h) as real / 2.0
  }

  ghost predicate IsMedian(s: seq<int>, r: real) {
    exists l, h :: Middle(s, l, h) && r == Mean(l, h)
  }

  lemma MedianUnique(s: seq<int>, q: real, r: real)
    requires IsMedian(s, q) && IsMedian(s, r)
    ensures q == r
  {
    var l, h :| Middle(s, l, h) && q == Mean(l, h);
    var l', h' :| Middle(s, l', h') && r == Mean(l', h');
    RankUnique(s, (|s| - 1) / 2, l, l');
    RankUnique(s, |s| / 2, h, h');
  }

  lemma MedianCommutes(a: seq<int>, b: seq<int>, r: real)
    requires IsMedian(b + a, r)
    ensures IsMedian(a + b, r)
  {
    var l, h :| Middle(b + a, l, h) && r == Mean(l, h);
    RankCommutes(a, b, (|a| + |b| - 1) / 2, l);
    RankCommutes(a, b, (|a| + |b|) / 2, h);
    assert Middle(a + b, l, h);
  }

  // ------------------------------------------------------------ numbers with infinities

  function Max(x: Ext, y: Ext): Ext {
    if Le(x, y) then y else x
  }

  function Min(x: Ext, y: Ext): Ext {
    if Le(x, y) then x else y
  }

  /** The element before position k, and the element at it. */
  function LeftOf(s: seq<int>, k: int): Ext {
    if k <= 0 then MinusInf else if k <= |s| then Fin(s[k - 1]) else PlusInf
  }

  function RightOf(s: seq<int>, k: int): Ext {
    if k >= |s| then PlusInf else if k >= 0 then Fin(s[k]) else MinusInf
  }

  // ------------------------------------------------------------ the partition

  /** Nothing left of the cuts i and j is larger than anything right of them. */
  ghost predicate Parted(a: seq<int>, b: seq<int>, i: int, j: int) {
    Ascending(a) && Ascending(b) && 0 <= i <= |a| && 0 <= j <= |b| && i + j >= 1 &&
    Le(LeftOf(a, i), RightOf(b, j)) && Le(LeftOf(b, j), RightOf(a, i))
  }

  /** At most k elements of s are smaller than v, and k' are not larger. */
  lemma CutCounts(s: seq<int>, k: int, k': int, v: int)
    requires Ascending(s) && 0 <= k <= |s| && 0 <= k' <= |s|
    requires k == |s| || s[k] >= v
    requires k' == 0 || s[k' - 1] <= v
    ensures Below(s, v) <= k && k' <= UpTo(s, v)
  {
    LowPart(s, k', v);
    HighPart(s, k, v);
  }

  lemma LargestLeft(a: seq<int>, b: seq<int>, i: int, j: int, v: int)
    requires Parted(a, b, i, j) && i >= 1 && v == a[i - 1] && Le(LeftOf(b, j), Fin(v))
    ensures HasRank(a + b, i + j - 1, v)
  {
    CutCounts(a, i - 1, i, v);
    CutCounts(b, j, j, v);
    CountConcat(a, b, v);
  }

  lemma SmallestRight(a: seq<int>, b: seq<int>, i: int, j: int, v: int)
    requires Parted(a, b, i, j) && i < |a| && v == a[i] && Le(Fin(v), RightOf(b, j))
    ensures HasRank(a + b, i + j, v)
  {
    CutCounts(a, i, i + 1, v);
    CutCounts(b, j, j, v);
    CountConcat(a, b, v);
  }

  lemma LeftMaxRank(a: seq<int>, b: seq<int>, i: int, j: int)
    requires Parted(a, b, i, j)
    ensures var m := Max(LeftOf(a, i), LeftOf(b, j)); m.Fin? && HasRank(a + b, i + j - 1, m.v)
  {
    var m := Max(LeftOf(a, i), LeftOf(b, j));
    if m == LeftOf(a, i) && i >= 1 {
      LargestLeft(a, b, i, j, m.v);
    } else {
      LargestLeft(b, a, j, i, m.v);
      RankCommutes(a, b, i + j - 1, m.v);
    }
  }

  lemma RightMinRank(a: seq<int>, b: seq<int>, i: int, j: int)
    requires Parted(a, b, i, j) && i + j < |a| + |b|
    ensures var m := Min(RightOf(a, i), RightOf(b, j)); m.Fin? && HasRank(a + b, i + j, m.v)
  {
    var m := Min(RightOf(a, i), RightOf(b, j));
    if m == RightOf(a, i) && i < |a| {
      SmallestRight(a, b, i, j, m.v);
    } else {
      SmallestRight(b, a, j, i, m.v);
      RankCommutes(a, b, i + j, m.v);
    }
  }

  /** The largest element on the left, and the smallest on the right, are the middle ones. */
  lemma OddMedian(a: seq<int>, b: seq<int>, i: int, j: int, left: int)
    requires Parted(a, b, i, j) && i + j == (|a| + |b| + 1) / 2 && (|a| + |b|) % 2 == 1
    requires Max(LeftOf(a, i), LeftOf(b, j)) == Fin(left)
    ensures IsMedian(a + b, left as real)
  {
    LeftMaxRank(a, b, i, j);
    assert Middle(a + b, left, left);
    assert left as real == Mean(left, left);
  }

  lemma EvenMedian(a: seq<int>, b: seq<int>, i: int, j: int, left: int, right: int)
    requires Parted(a, b, i, j) && i + j == (|a| + |b| + 1) / 2 && (|a| + |b|) % 2 == 0
    requires Max(LeftOf(a, i), LeftOf(b, j)) == Fin(left)
    requires Min(RightOf(a, i), RightOf(b, j)) == Fin(right)
    ensures IsMedian(a + b, Mean(left, right))
  {
    LeftMaxRank(a, b, i, j);
    RightMinRank(a, b, i, j);
    assert Middle(a + b, left, right);
  }

  // ------------------------------------------------------------ the search

  predicate TooFar(a: seq<int>, b: seq<int>, i: int, j: int) {
    !Le(LeftOf(a, i), RightOf(b, j))
  }

  predicate TooNear(a: seq<int>, b: seq<int>, i: int, j: int) {
    !Le(LeftOf(b, j), RightOf(a, i))
  }

  /** The cut before one that is too far is not too near, so the search never runs out of cuts. */
  lemma FarThenNotNear(a: seq<int>, b: seq<int>, lo: int, half: int)
    requires 1 <= lo <= |a| <= half <= |b| && TooFar(a, b, lo, half - lo)
    ensures !TooNear(a, b, lo - 1, half - lo + 1)
  {
  }

  /** The leftmost cut is not too far, the rightmost not too near. */
  lemma OutermostCuts(a: seq<int>, b: seq<int>, half: int)
    ensures !TooFar(a, b, 0, half) && !TooNear(a, b, |a|, half - |a|)
  {
  }

  /** Cuts beyond hi are too far, cuts before lo too near. */
  predicate Window(a: seq<int>, b: seq<int>, half: int, lo: int, hi: int) {
    0 <= lo <= hi <= |a| && (hi == |a| || TooFar(a, b, hi + 1, half - hi - 1)) &&
    (lo == 0 || TooNear(a, b, lo - 1, half - lo + 1))
  }

  lemma WindowLeft(a: seq<int>, b: seq<int>, half: int, lo: int, hi: int, i: int)
    requires |a| <= half <= |b| && Window(a, b, half, lo, hi) && lo <= i <= hi && TooFar(a, b, i, half - i)
    ensures Window(a, b, half, lo, i - 1)
  {
    OutermostCuts(a, b, half);
    FarThenNotNear(a, b, i, half);
  }

  lemma WindowRight(a: seq<int>, b: seq<int>, half: int, lo: int, hi: int, i: int)
    requires |a| <= half <= |b| && Window(a, b, half, lo, hi) && lo <= i <= hi && TooNear(a, b, i, half - i)
    ensures Window(a, b, half, i + 1, hi)
  {
    OutermostCuts(a, b, half);
    if i < |a| && TooFar(a, b, i + 1, half - i - 1) { FarThenNotNear(a, b, i + 1, half); }
  }

  /** What the search returns at a correct partition. */
  method MedianAt(nums1: seq<int>, nums2: seq<int>, i: int, j: int, aLeft: Ext, aRight: Ext, bLeft: Ext, bRight: Ext)
    returns (r: real)
    requires Parted(nums1, nums2, i, j) && i + j == (|nums1| + |nums2| + 1) / 2
    requires aLeft == LeftOf(nums1, i) && aRight == RightOf(nums1, i)
    requires bLeft == LeftOf(nums2, j) && bRight == RightOf(nums2, j)
    ensures IsMedian(nums1 + nums2, r)
  {
    LeftMaxRank(nums1, nums2, i, j);
    var leftMax := Max(aLeft, bLeft);
    if (|nums1| + |nums2|) % 2 == 1 {
      OddMedian(nums1, nums2, i, j, leftMax.v);
      return leftMax.v as real;
    }
    RightMinRank(nums1, nums2, i, j);
    var rightMin := Min(aRight, bRight);
    EvenMedian(nums1, nums2, i, j, leftMax.v, rightMin.v);
    return (leftMax.v + rightMin.v) as real / 2.0;
  }

  /** The stored reference. */
  method MedianByPartition(nums1: seq<int>, nums2: seq<int>) returns (r: real)
    requires Ascending(nums1) && Ascending(nums2) && |nums1| + |nums2| >= 1
    ensures IsMedian(nums1 + nums2, r)
    decreases |nums1|
  {
    if |nums1| > |nums2| {
      r := MedianByPartition(nums2, nums1);
      MedianCommutes(nums1, nums2, r);
      return;
    }
    var m, n := |nums1|, |nums2|;
    var half := (m + n + 1) / 2;
    var lo, hi := 0, m;
    while lo <= hi
      invariant Window(nums1, nums2, half, lo, hi)
    {
      var i := (lo + hi) / 2;
      var j := half - i;
      var aLeft := if i == 0 then MinusInf else Fin(nums1[i - 1]);
      var aRight := if i == m then PlusInf else Fin(nums1[i]);
      var bLeft := if j == 0 then MinusInf else Fin(nums2[j - 1]);
      var bRight := if j == n then PlusInf else Fin(nums2[j]);
      if Le(aLeft, bRight) && Le(bLeft, aRight) {
        r := MedianAt(nums1, nums2, i, j, aLeft, aRight, bLeft, bRight);
        return;
      }
      if !Le(aLeft, bRight) {
        WindowLeft(nums1, nums2, half, lo, hi, i);
        hi := i - 1;
      } else {
        WindowRight(nums1, nums2, half, lo, hi, i);
        lo := i + 1;
      }
    }
    r := 0.0;
    assert false;
  }

  /** The second reference. */
  method MedianByMerge(nums1: seq<int>, nums2: seq<int>) returns (r: real)
    requires |nums1| + |nums2| >= 1
    ensures IsMedian(nums1 + nums2, r)
  {
    var both := nums1 + nums2;
    var merged := S.Sort(both, AtMost);
    var n := |merged|;
    SortedRank(both, 0);
    SortedRank(both, n / 2);
    SortedRank(both, (n - 1) / 2);
    assert Middle(both, merged[(n - 1) / 2], merged[n / 2]);
    if n % 2 != 0 {
      r := merged[n / 2] as real;
      assert r == Mean(merged[(n - 1) / 2], merged[n / 2]);
    } else {
      r := (merged[n / 2 - 1] + merged[n / 2]) as real / 2.0;
    }
  }

  method ReferencesAgree(nums1: seq<int>, nums2: seq<int>) returns (q: real, r: real)
    requires Ascending(nums1) && Ascending(nums2) && |nums1| + |nums2| >= 1
    ensures q == r && IsMedian(nums1 + nums2, q)
  {
    q := MedianByPartition(nums1, nums2);
    r := MedianByMerge(nums1, nums2);
    MedianUnique(nums1 + nums2, q, r);
  }
}
