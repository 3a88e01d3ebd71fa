/** The k-th largest element: quickselect in place, and a min-heap of the k largest. */
module QuickSelect {
  import opened OrderStatistics
  import S = Sorting
  import Shuffling

  // ------------------------------------------------------------ parts of an array

  /** All elements at positions from..to are at most v. */
  predicate AllLe(s: seq<int>, from: int, to: int, v: int) {
    forall p :: 0 <= from <= p < to <= |s| ==> s[p] <= v
  }

  predicate AllGe(s: seq<int>, from: int, to: int, v: int) {
    forall p :: 0 <= from <= p < to <= |s| ==> s[p] >= v
  }

  /** What holds for the part lo..hi, given bounds low and high of its elements, while i and j close in. */
  ghost predicate Closing(s: seq<int>, lo: int, hi: int, i: int, j: int, pivot: int) {
    0 <= lo <= i && j <= hi < |s| && i <= hi + 1 && lo - 1 <= j &&
    AllLe(s, lo, i, pivot) && AllGe(s, j + 1, hi + 1, pivot)
  }

  /** Both scans will stop inside the part. */
  ghost predicate Guarded(s: seq<int>, lo: int, hi: int, i: int, j: int, pivot: int) {
    (i > lo && j < hi) || exists mid :: 0 <= i <= mid <= j < |s| && s[mid] == pivot
  }

  method ScanRight(a: array<int>, lo: int, hi: int, i0: int, j: int, pivot: int) returns (i: int)
    requires Closing(a[..], lo, hi, i0, j, pivot) && Guarded(a[..], lo, hi, i0, j, pivot) && i0 <= j
    ensures i0 <= i <= hi && Closing(a[..], lo, hi, i, j, pivot) && Guarded(a[..], lo, hi, i, j, pivot) && a[i] >= pivot
    ensures i <= j + 1
  {
    i := i0;
    while a[i] < pivot
      invariant i0 <= i <= hi && i <= j + 1 && Closing(a[..], lo, hi, i, j, pivot) && Guarded(a[..], lo, hi, i, j, pivot)
      decreases hi - i
    {
      i := i + 1;
    }
  }

  method ScanLeft(a: array<int>, lo: int, hi: int, i: int, j0: int, pivot: int) returns (j: int)
    requires Closing(a[..], lo, hi, i, j0, pivot) && Guarded(a[..], lo, hi, i, j0, pivot) && lo <= j0 && i <= j0 + 1
    ensures lo <= j <= j0 && Closing(a[..], lo, hi, i, j, pivot) && Guarded(a[..], lo, hi, i, j, pivot) && a[j] <= pivot
    ensures i <= j0 + 1
  {
    j := j0;
    while a[j] > pivot
      invariant lo <= j <= j0 && Closing(a[..], lo, hi, i, j, pivot) && Guarded(a[..], lo, hi, i, j, pivot)
      decreases j - lo
    {
      j := j - 1;
    }
  }

  /** Everything that stays true of the array while the part lo..hi is rearranged. */
  ghost predicate Kept(s: seq<int>, t: seq<int>, lo: int, hi: int, low: int, high: int) {
    0 <= lo && hi < |s| == |t| && multiset(t) == multiset(s) &&
    (forall p :: 0 <= p < |s| && (p < lo || hi < p) ==> t[p] == s[p]) &&
    AllGe(t, lo, hi + 1, low) && AllLe(t, lo, hi + 1, high)
  }

  lemma SwapKeepsPart(s: seq<int>, t: seq<int>, t': seq<int>, lo: int, hi: int, i: int, j: int, low: int, high: int)
    requires Kept(s, t, lo, hi, low, high) && lo <= i <= j <= hi && t' == Shuffling.Swapped(t, i, j)
    ensures Kept(s, t', lo, hi, low, high)
  {
    Shuffling.SwapPermutes(t, i, j);
  }

  lemma SwapCloses(t: seq<int>, t': seq<int>, lo: int, hi: int, i: int, j: int, pivot: int)
    requires Closing(t, lo, hi, i, j, pivot) && lo <= i <= j <= hi
    requires t[i] >= pivot && t[j] <= pivot && t' == Shuffling.Swapped(t, i, j)
    ensures Closing(t', lo, hi, i + 1, j - 1, pivot)
  {
  }

  lemma SwapKeeps(s: seq<int>, t: seq<int>, t': seq<int>, lo: int, hi: int, i: int, j: int, low: int, high: int, pivot: int)
    requires Kept(s, t, lo, hi, low, high) && Closing(t, lo, hi, i, j, pivot) && lo <= i <= j <= hi
    requires t[i] >= pivot && t[j] <= pivot && t' == Shuffling.Swapped(t, i, j)
    ensures Kept(s, t', lo, hi, low, high) && Closing(t', lo, hi, i + 1, j - 1, pivot)
  {
    SwapKeepsPart(s, t, t', lo, hi, i, j, low, high);
    SwapCloses(t, t', lo, hi, i, j, pivot);
  }

  /** One round of Hoare's partition: lo..j is at most the pivot, i..hi at least, what lies between equals it. */
  method Partition(a: array<int>, lo: int, hi: int, ghost low: int, ghost high: int) returns (i: int, j: int, ghost pivot: int)
    requires 0 <= lo <= hi < a.Length && AllGe(a[..], lo, hi + 1, low) && AllLe(a[..], lo, hi + 1, high)
    modifies a
    ensures Kept(old(a[..]), a[..], lo, hi, low, high)
    ensures lo < i <= hi + 1 && lo - 1 <= j < hi && j < i && low <= pivot <= high
    ensures AllLe(a[..], lo, i, pivot) && AllGe(a[..], j + 1, hi + 1, pivot)
  {
    var middle := (lo + hi) / 2;
    var p := a[middle];
    i, j := lo, hi;
    assert a[..][middle] == p;
    while i <= j
      invariant Closing(a[..], lo, hi, i, j, p) && Guarded(a[..], lo, hi, i, j, p)
      invariant Kept(old(a[..]), a[..], lo, hi, low, high)
      decreases j - i
    {
      i := ScanRight(a, lo, hi, i, j, p);
      j := ScanLeft(a, lo, hi, i, j, p);
      if i <= j {
        SwapKeeps(old(a[..]), a[..], a[..][i := a[j]][j := a[i]], lo, hi, i, j, low, high, p);
        a[i], a[j] := a[j], a[i];
        i := i + 1;
        j := j - 1;
      }
    }
    pivot := p;
  }

  /** The part lo..hi holds the ranks lo..hi. */
  ghost predicate Narrowed(s: seq<int>, lo: int, hi: int, low: int, high: int) {
    0 <= lo <= hi < |s| && low <= high &&
    AllLe(s, 0, lo, low) && AllGe(s, lo, hi + 1, low) &&
    AllLe(s, lo, hi + 1, high) && AllGe(s, hi + 1, |s|, high)
  }

  lemma KeepsOutside(s: seq<int>, t: seq<int>, lo: int, hi: int, low: int, high: int)
    requires Narrowed(s, lo, hi, low, high) && Kept(s, t, lo, hi, low, high)
    ensures Narrowed(t, lo, hi, low, high)
  {
  }

  lemma NarrowLeft(t: seq<int>, lo: int, hi: int, j: int, low: int, high: int, pivot: int)
    requires Narrowed(t, lo, hi, low, high) && lo <= j < hi && low <= pivot <= high
    requires AllLe(t, lo, j + 1, pivot) && AllGe(t, j + 1, hi + 1, pivot)
    ensures Narrowed(t, lo, j, low, pivot)
  {
  }

  lemma NarrowRight(t: seq<int>, lo: int, hi: int, i: int, low: int, high: int, pivot: int)
    requires Narrowed(t, lo, hi, low, high) && lo < i <= hi && low <= pivot <= high
    requires AllLe(t, lo, i, pivot) && AllGe(t, i, hi + 1, pivot)
    ensures Narrowed(t, i, hi, pivot, high)
  {
  }

  /** An element between the two halves has its final place. */
  lemma FoundRank(t: seq<int>, lo: int, hi: int, i: int, j: int, low: int, high: int, pivot: int, k: int)
    requires Narrowed(t, lo, hi, low, high) && low <= pivot <= high && lo - 1 <= j < k < i <= hi + 1
    requires AllLe(t, lo, i, pivot) && AllGe(t, j + 1, hi + 1, pivot)
    ensures HasRank(t, k, t[k])
  {
    PivotRank(t, k);
  }

  lemma {:induction false} Extremes(s: seq<int>) returns (low: int, high: int)
    ensures low <= high && AllGe(s, 0, |s|, low) && AllLe(s, 0, |s|, high)
  {
    if s == [] {
      low, high := 0, 0;
    } else {
      var l, h := Extremes(s[1..]);
      low := if s[0] < l then s[0] else l;
      high := if s[0] > h then s[0] else h;
      assert forall p :: 1 <= p < |s| ==> s[p] == s[1..][p - 1];
    }
  }

  /** The k-th largest of n elements has rank n - k. */
  ghost predicate IsKthLargest(s: seq<int>, k: int, v: int) {
    HasRank(s, |s| - k, v)
  }

  /** The stored reference, on its copy of the numbers. */
  method Select(a: array<int>, target: int) returns (v: int)
    requires 0 <= target < a.Length
    modifies a
    ensures multiset(a[..]) == multiset(old(a[..])) && HasRank(old(a[..]), target, v)
  {
    var lo, hi := 0, a.Length - 1;
    ghost var low, high := Extremes(a[..]);
    while true
      invariant lo <= target <= hi && Narrowed(a[..], lo, hi, low, high)
      invariant multiset(a[..]) == multiset(old(a[..]))
      decreases hi - lo
    {
      ghost var before := a[..];
      ghost var pivot;
      var i, j;
      i, j, pivot := Partition(a, lo, hi, low, high);
      KeepsOutside(before, a[..], lo, hi, low, high);
      if target <= j {
        NarrowLeft(a[..], lo, hi, j, low, high, pivot);
        hi, high := j, pivot;
      } else if target >= i {
        NarrowRight(a[..], lo, hi, i, low, high, pivot);
        lo, low := i, pivot;
      } else {
        FoundRank(a[..], lo, hi, i, j, low, high, pivot, target);
        RankOfPermutation(a[..], old(a[..]), target, a[target]);
        return a[target];
      }
    }
  }

  method KthLargest(nums: seq<int>, k: int) returns (v: int)
    requires 1 <= k <= |nums|
    ensures IsKthLargest(nums, k, v)
  {
    var a := new int[|nums|](p requires 0 <= p < |nums| => nums[p]);
    assert a[..] == nums;
    v := Select(a, a.Length - k);
  }

  // ------------------------------------------------------------ the heap

  // A heap is represented by its elements in ascending order: a push inserts, a pop removes the first.

  /** Inserting and dropping the smallest keeps the k largest elements of an ascending sequence. */
  lemma {:induction false} InsertAndPop(x: int, s: seq<int>, d: int)
    requires Ascending(s) && 0 <= d <= |s|
    ensures |S.Insert(x, s, AtMost)| == |s| + 1 && S.Insert(x, s[d..], AtMost) != []
    ensures S.Insert(x, s, AtMost)[d + 1..] == S.Insert(x, s[d..], AtMost)[1..]
  {
    InsertLength(x, s);
    InsertLength(x, s[d..]);
    if d == 0 {
      assert s[d..] == s;
    } else if AtMost(x, s[0]) {
      assert S.Insert(x, s, AtMost)[d + 1..] == s[d..];
      assert d < |s| ==> AtMost(x, s[d..][0]);
    } else {
      InsertAndPop(x, s[1..], d - 1);
      assert s[1..][d - 1..] == s[d..];
      assert S.Insert(x, s, AtMost)[d + 1..] == S.Insert(x, s[1..], AtMost)[d..];
    }
  }

  lemma {:induction false} InsertLength(x: int, s: seq<int>)
    ensures |S.Insert(x, s, AtMost)| == |s| + 1
  {
    if s != [] && !AtMost(x, s[0]) { InsertLength(x, s[1..]); }
  }

  /** Sorted by inserting the elements from the front. */
  function Sorted(s: seq<int>): seq<int> {
    if s == [] then [] else S.Insert(s[|s| - 1], Sorted(s[..|s| - 1]), AtMost)
  }

  lemma SnocBag(s: seq<int>, front: seq<int>, last: int)
    requires s != [] && front == s[..|s| - 1] && last == s[|s| - 1]
    ensures multiset(s) == multiset{last} + multiset(front)
  {
    assert s == front + [last];
  }

  lemma {:induction false} SortedSpec(s: seq<int>)
    ensures |Sorted(s)| == |s| && Ascending(Sorted(s)) && multiset(Sorted(s)) == multiset(s)
  {
    if s != [] {
      var rest := s[..|s| - 1];
      SortedSpec(rest);
      InsertAscends(s[|s| - 1], Sorted(rest));
      SnocBag(s, rest, s[|s| - 1]);
    }
  }

  lemma InsertAscends(x: int, s: seq<int>)
    requires Ascending(s)
    ensures Ascending(S.Insert(x, s, AtMost)) && multiset(S.Insert(x, s, AtMost)) == multiset{x} + multiset(s)
    ensures |S.Insert(x, s, AtMost)| == |s| + 1
  {
    AtMostIsTotal();
    assert S.Ordered(s, AtMost);
    S.InsertSpec(x, s, AtMost);
    InsertLength(x, s);
    var r := S.Insert(x, s, AtMost);
    forall i, j | 0 <= i < j < |r|
      ensures r[i] <= r[j]
    {
      assert AtMost(r[i], r[j]);
    }
  }

  /** The last k elements, all of them when there are fewer. */
  function Last(t: seq<int>, k: nat): (r: seq<int>)
    ensures |r| == if |t| > k then k else |t|
  {
    if |t| > k then t[|t| - k..] else t
  }

  /** The k largest elements, ascending; all of them when there are fewer. */
  function Largest(s: seq<int>, k: nat): seq<int> {
    Last(Sorted(s), k)
  }

  lemma SortedStep(s: seq<int>, next: seq<int>, x: int)
    requires next == s + [x]
    ensures Sorted(next) == S.Insert(x, Sorted(s), AtMost)
  {
    assert next[..|next| - 1] == s;
  }

  /** A full heap: the push is followed by a pop. */
  lemma PushAndPop(t: seq<int>, next: seq<int>, x: int, k: nat, d: nat, heap: seq<int>)
    requires Ascending(t) && |t| == d + k && next == S.Insert(x, t, AtMost) && heap == S.Insert(x, t[d..], AtMost)
    ensures |heap| == k + 1 && heap[1..] == Last(next, k)
  {
    InsertLength(x, t[d..]);
    InsertAndPop(x, t, d);
  }

  lemma HeapStep(t: seq<int>, next: seq<int>, x: int, k: nat, heap: seq<int>)
    requires k >= 1 && Ascending(t) && next == S.Insert(x, t, AtMost) && heap == S.Insert(x, Last(t, k), AtMost)
    ensures Last(next, k) == if |heap| > k then heap[1..] else heap
  {
    if |t| < k {
      InsertLength(x, t);
    } else {
      assert Last(t, k) == t[|t| - k..];
      PushAndPop(t, next, x, k, |t| - k, heap);
    }
  }

  lemma HeapTop(nums: seq<int>, k: nat)
    requires 1 <= k <= |nums|
    ensures Largest(nums, k) != [] && IsKthLargest(nums, k, Largest(nums, k)[0])
  {
    SortedSpec(nums);
    PivotRank(Sorted(nums), |nums| - k);
    RankOfPermutation(Sorted(nums), nums, |nums| - k, Largest(nums, k)[0]);
  }

  /** The second reference. */
  method KthLargestByHeap(nums: seq<int>, k: int) returns (v: int)
    requires 1 <= k <= |nums|
    ensures IsKthLargest(nums, k, v)
  {
    var heap: seq<int> := [];
    for n := 0 to |nums|
      invariant heap == Largest(nums[..n], k)
    {
      heap := S.Insert(nums[n], heap, AtMost);
      SortedSpec(nums[..n]);
      SortedStep(nums[..n], nums[..n + 1], nums[n]);
      HeapStep(Sorted(nums[..n]), Sorted(nums[..n + 1]), nums[n], k, heap);
      if |heap| > k { heap := heap[1..]; }
    }
    assert nums[..|nums|] == nums;
    HeapTop(nums, k);
    v := heap[0];
  }

  method ReferencesAgree(nums: seq<int>, k: int) returns (v: int, w: int)
    requires 1 <= k <= |nums|
    ensures v == w && IsKthLargest(nums, k, v)
  {
    v := KthLargest(nums, k);
    w := KthLargestByHeap(nums, k);
    RankUnique(nums, |nums| - k, v, w);
  }
}
