/** Largest rectangle in a histogram: one pass with a sentinel, and two passes of boundaries. */
module Histogram {

  /** A rectangle of height ht over the bars l..r. */
  ghost predicate Fits(h: seq<int>, l: int, r: int, ht: int) {
    0 <= l < r <= |h| && forall x :: l <= x < r ==> h[x] >= ht
  }

  ghost predicate IsLargest(h: seq<int>, best: int) {
    (exists l, r, ht :: Fits(h, l, r, ht) && ht * (r - l) == best) &&
    forall l, r, ht :: Fits(h, l, r, ht) ==> ht * (r - l) <= best
  }

  lemma LargestUnique(h: seq<int>, a: int, b: int)
    requires IsLargest(h, a) && IsLargest(h, b)
    ensures a == b
  {
  }

  ghost predicate Heights(h: seq<int>) {
    forall x :: 0 <= x < |h| ==> h[x] >= 0
  }

  lemma AreaMono(ht: int, w: int, ht': int, w': int)
    requires ht <= ht' && 0 <= w <= w' && 0 <= ht'
    ensures ht * w <= ht' * w'
  {
    assert ht * w <= ht' * w by {
      assert (ht' - ht) * w >= 0;
    }
    assert ht' * (w' - w) >= 0;
  }

  // ------------------------------------------------------------ the stack

  /** Where the bars dominated by stack entry k begin. */
  function From(stack: seq<int>, k: int): int
    requires 0 <= k <= |stack|
  {
    if k == 0 then 0 else stack[k - 1] + 1
  }

  /** The height of bar x; the sentinel behind the last bar has height 0. */
  function Bar(h: seq<int>, x: int): int {
    if 0 <= x < |h| then h[x] else 0
  }

  /** All bars of lo..hi are at least v high. */
  ghost predicate AtLeast(h: seq<int>, lo: int, hi: int, v: int) {
    forall x :: 0 <= lo <= x < hi <= |h| ==> h[x] >= v
  }

  /** Entry k is an index below i, higher than the entry below, and a lowest bar of its stretch. */
  ghost predicate EntryOk(h: seq<int>, stack: seq<int>, i: int, k: int) {
    0 <= k < |stack| && 0 <= From(stack, k) <= stack[k] < i <= |h| &&
    (k > 0 ==> Bar(h, stack[k - 1]) < Bar(h, stack[k])) && AtLeast(h, From(stack, k), stack[k] + 1, Bar(h, stack[k]))
  }

  ghost predicate Monotone(h: seq<int>, stack: seq<int>, i: int) {
    0 <= i <= |h| && forall k :: 0 <= k < |stack| ==> EntryOk(h, stack, i, k)
  }

  /** Nothing from the stretch above the top up to i is lower than `low`. */
  ghost predicate Covered(h: seq<int>, stack: seq<int>, i: int, low: int) {
    Monotone(h, stack, i) && AtLeast(h, From(stack, |stack|), i, low)
  }

  lemma PopMonotone(h: seq<int>, stack: seq<int>, i: int)
    requires Monotone(h, stack, i) && stack != []
    ensures Monotone(h, stack[..|stack| - 1], i)
    ensures From(stack[..|stack| - 1], |stack| - 1) == From(stack, |stack| - 1)
  {
    var rest := stack[..|stack| - 1];
    forall k | 0 <= k < |rest|
      ensures EntryOk(h, rest, i, k)
    {
      assert EntryOk(h, stack, i, k);
    }
  }

  /** The stretch of the top entry reaches up to i when everything above it was at least as high. */
  lemma TopStretch(h: seq<int>, stack: seq<int>, i: int, low: int)
    requires Covered(h, stack, i, low) && stack != [] && low <= Bar(h, stack[|stack| - 1])
    requires AtLeast(h, stack[|stack| - 1] + 1, i, Bar(h, stack[|stack| - 1]))
    ensures Fits(h, From(stack, |stack| - 1), i, Bar(h, stack[|stack| - 1]))
    ensures Covered(h, stack[..|stack| - 1], i, low)
  {
    PopMonotone(h, stack, i);
    assert EntryOk(h, stack, i, |stack| - 1);
  }

  // ------------------------------------------------------------ one pass

  /** Every rectangle that ends before i and cannot be extended to the right is no larger than best. */
  ghost predicate Closed(h: seq<int>, i: int, best: int) {
    i <= |h| && forall l, r, ht :: Fits(h, l, r, ht) && r < i && h[r] < ht ==> ht * (r - l) <= best
  }

  /** The rectangles ending at i, starting at or above the stretch of entry m and at least as high as `floor`,
      are no larger than best. */
  ghost predicate EndsHere(h: seq<int>, stack: seq<int>, m: int, i: int, floor: int, best: int) {
    0 <= m <= |stack| &&
    forall l, ht :: Fits(h, l, i, ht) && From(stack, m) <= l && ht > floor ==> ht * (i - l) <= best
  }

  ghost predicate Attained(h: seq<int>, best: int) {
    best == 0 || exists l, r, ht :: Fits(h, l, r, ht) && ht * (r - l) == best
  }

  /** Popping an entry accounts for all rectangles that start in its stretch. */
  lemma PopCounts(h: seq<int>, stack: seq<int>, i: int, floor: int, best: int, next: int)
    requires Heights(h) && Monotone(h, stack, i) && stack != []
    requires EndsHere(h, stack, |stack|, i, floor, best) && best <= next
    requires next >= Bar(h, stack[|stack| - 1]) * (i - From(stack, |stack| - 1))
    ensures EndsHere(h, stack[..|stack| - 1], |stack| - 1, i, floor, next)
  {
    var top := |stack| - 1;
    PopMonotone(h, stack, i);
    assert EntryOk(h, stack, i, top);
    forall l, ht | Fits(h, l, i, ht) && From(stack, top) <= l && ht > floor
      ensures ht * (i - l) <= next
    {
      if l <= stack[top] {
        assert Bar(h, stack[top]) >= ht;
        AreaMono(ht, i - l, Bar(h, stack[top]), i - From(stack, top));
      }
    }
  }

  /** Once no entry is higher than `floor`, no rectangle that is remains. */
  lemma PopDone(h: seq<int>, stack: seq<int>, i: int, floor: int, best: int)
    requires Monotone(h, stack, i) && EndsHere(h, stack, |stack|, i, floor, best)
    requires stack == [] || Bar(h, stack[|stack| - 1]) <= floor
    ensures forall l, ht :: Fits(h, l, i, ht) && ht > floor ==> ht * (i - l) <= best
  {
    assert stack != [] ==> EntryOk(h, stack, i, |stack| - 1);
    forall l, ht | Fits(h, l, i, ht) && ht > floor
      ensures From(stack, |stack|) <= l
    {
    }
  }

  ghost predicate PopState(h: seq<int>, stack: seq<int>, i: int, floor: int, best: int) {
    Heights(h) && Covered(h, stack, i, floor) && EndsHere(h, stack, |stack|, i, floor, best) &&
    Attained(h, best) && best >= 0 &&
    (stack != [] ==> EntryOk(h, stack, i, |stack| - 1) && AtLeast(h, stack[|stack| - 1] + 1, i, Bar(h, stack[|stack| - 1])))
  }

  function Max(a: int, b: int): int {
    if a < b then b else a
  }

  lemma PopStep(h: seq<int>, stack: seq<int>, i: int, floor: int, best: int, rest: seq<int>, area: int, next: int)
    requires PopState(h, stack, i, floor, best) && stack != [] && Bar(h, stack[|stack| - 1]) >= floor
    requires rest == stack[..|stack| - 1] && next == Max(best, area)
    requires area == Bar(h, stack[|stack| - 1]) * (i - From(rest, |rest|))
    ensures PopState(h, rest, i, floor, next)
  {
    var top := |stack| - 1;
    TopStretch(h, stack, i, floor);
    PopCounts(h, stack, i, floor, best, next);
    assert Fits(h, From(stack, top), i, Bar(h, stack[top]));
    if top > 0 {
      assert EntryOk(h, rest, i, top - 1);
      assert AtLeast(h, stack[top - 1] + 1, i, Bar(h, stack[top - 1]));
    }
  }

  /** Indices on the stack are indices of bars. */
  lemma TopIsBar(h: seq<int>, stack: seq<int>, i: int, floor: int, best: int)
    requires PopState(h, stack, i, floor, best) && stack != []
    ensures 0 <= stack[|stack| - 1] < |h|
  {
  }

  /** The inner loop: pop everything at least as high as the bar at hand. */
  method PopHigher(h: seq<int>, stack0: seq<int>, i: int, floor: int, best0: int) returns (stack: seq<int>, best: int)
    requires PopState(h, stack0, i, floor, best0)
    ensures PopState(h, stack, i, floor, best) && best0 <= best
    ensures stack == [] || Bar(h, stack[|stack| - 1]) < floor
  {
    stack, best := stack0, best0;
    while |stack| > 0 && Bar(h, stack[|stack| - 1]) >= floor
      invariant PopState(h, stack, i, floor, best) && best0 <= best
    {
      TopIsBar(h, stack, i, floor, best);
      var height := h[stack[|stack| - 1]];
      var rest := stack[..|stack| - 1];
      var left := if |rest| > 0 then rest[|rest| - 1] + 1 else 0;
      var area := height * (i - left);
      PopStep(h, stack, i, floor, best, rest, area, Max(best, area));
      stack := rest;
      best := Max(best, area);
    }
  }

  ghost predicate SweepState(h: seq<int>, stack: seq<int>, i: int, best: int) {
    Heights(h) && Monotone(h, stack, i) && From(stack, |stack|) == i && Attained(h, best) && best >= 0 && Closed(h, i, best)
  }

  lemma EnterPop(h: seq<int>, stack: seq<int>, i: int, floor: int, best: int)
    requires SweepState(h, stack, i, best)
    ensures PopState(h, stack, i, floor, best)
  {
    assert stack != [] ==> EntryOk(h, stack, i, |stack| - 1);
  }

  lemma LeavePop(h: seq<int>, stack: seq<int>, i: int, best0: int, best: int)
    requires 0 <= i < |h| && Closed(h, i, best0) && best0 <= best && PopState(h, stack, i, h[i], best)
    requires stack == [] || Bar(h, stack[|stack| - 1]) < h[i]
    ensures SweepState(h, stack + [i], i + 1, best)
  {
    PopDone(h, stack, i, h[i], best);
    forall l, r, ht | Fits(h, l, r, ht) && r < i + 1 && h[r] < ht
      ensures ht * (r - l) <= best
    {
      if r < i { assert ht * (r - l) <= best0; }
    }
    PushMonotone(h, stack, i);
  }

  lemma PushMonotone(h: seq<int>, stack: seq<int>, i: int)
    requires 0 <= i < |h| && Covered(h, stack, i, h[i]) && (stack == [] || Bar(h, stack[|stack| - 1]) < h[i])
    ensures Monotone(h, stack + [i], i + 1)
  {
    var next, j := stack + [i], i + 1;
    assert stack != [] ==> EntryOk(h, stack, i, |stack| - 1);
    forall k | 0 <= k < |next|
      ensures EntryOk(h, next, j, k)
    {
      assert k < |stack| ==> EntryOk(h, stack, i, k);
      assert From(next, k) == From(stack, k);
    }
  }

  /** A rectangle that cannot grow to the right ends at a lower bar or at the right edge. */
  lemma {:induction false} GrowRight(h: seq<int>, l: int, r: int, ht: int) returns (r': int)
    requires Fits(h, l, r, ht)
    ensures r <= r' <= |h| && Fits(h, l, r', ht) && (r' == |h| || h[r'] < ht)
    decreases |h| - r
  {
    r' := r;
    if r < |h| && h[r] >= ht {
      r' := GrowRight(h, l, r + 1, ht);
    }
  }

  lemma SweepDone(h: seq<int>, stack: seq<int>, best0: int, best: int)
    requires |h| >= 1 && Closed(h, |h|, best0) && best0 <= best
    requires PopState(h, stack, |h|, 0, best) && (stack == [] || Bar(h, stack[|stack| - 1]) < 0)
    ensures IsLargest(h, best)
  {
    PopDone(h, stack, |h|, 0, best);
    forall l, r, ht | Fits(h, l, r, ht)
      ensures ht * (r - l) <= best
    {
      if ht <= 0 {
        AreaMono(ht, r - l, 0, r - l);
      } else {
        var r' := GrowRight(h, l, r, ht);
        AreaMono(ht, r - l, ht, r' - l);
      }
    }
    assert Fits(h, 0, 1, 0);
  }

  /** The stored reference. In the last round a sentinel bar of height 0 empties the stack. */
  method LargestOnePass(h: seq<int>) returns (best: int)
    requires |h| >= 1 && Heights(h)
    ensures IsLargest(h, best)
  {
    var stack: seq<int> := [];
    best := 0;
    var i := 0;
    while i <= |h|
      invariant 0 <= i <= |h| + 1
      invariant if i <= |h| then SweepState(h, stack, i, best) else IsLargest(h, best)
    {
      var bar := Bar(h, i);
      ghost var best0 := best;
      EnterPop(h, stack, i, bar, best);
      stack, best := PopHigher(h, stack, i, bar, best);
      if i < |h| {
        LeavePop(h, stack, i, best0, best);
      } else {
        SweepDone(h, stack, best0, best);
      }
      stack := stack + [i];
      i := i + 1;
    }
  }

  // ------------------------------------------------------------ two passes

  /** The widest stretch around bar i in which no bar is lower than it begins at lo. */
  ghost predicate LeftEdge(h: seq<int>, i: int, lo: int) {
    0 <= lo <= i < |h| && AtLeast(h, lo, i + 1, h[i]) && (lo > 0 ==> h[lo - 1] < h[i])
  }

  /** ... and ends before hi. */
  ghost predicate RightEdge(h: seq<int>, i: int, hi: int) {
    0 <= i < hi <= |h| && AtLeast(h, i, hi, h[i]) && (hi < |h| ==> h[hi] < h[i])
  }

  /** The stack after popping for bar i: everything above the top is at least as high as bar i. */
  method LeftPop(h: seq<int>, stack0: seq<int>, i: int) returns (stack: seq<int>)
    requires 0 <= i < |h| && Monotone(h, stack0, i) && From(stack0, |stack0|) == i
    ensures Covered(h, stack, i, h[i]) && (stack == [] || Bar(h, stack[|stack| - 1]) < h[i])
  {
    stack := stack0;
    while |stack| > 0 && Bar(h, stack[|stack| - 1]) >= h[i]
      invariant Covered(h, stack, i, h[i])
    {
      PopCovered(h, stack, i, h[i]);
      stack := stack[..|stack| - 1];
    }
  }

  lemma PopCovered(h: seq<int>, stack: seq<int>, i: int, low: int)
    requires Covered(h, stack, i, low) && stack != [] && low <= Bar(h, stack[|stack| - 1])
    ensures Covered(h, stack[..|stack| - 1], i, low)
  {
    PopMonotone(h, stack, i);
    assert EntryOk(h, stack, i, |stack| - 1);
  }

  lemma LeftEdgeFound(h: seq<int>, stack: seq<int>, i: int)
    requires 0 <= i < |h| && Covered(h, stack, i, h[i]) && (stack == [] || Bar(h, stack[|stack| - 1]) < h[i])
    ensures LeftEdge(h, i, From(stack, |stack|))
  {
    assert stack != [] ==> EntryOk(h, stack, i, |stack| - 1);
  }

  method LeftEdges(h: seq<int>) returns (left: array<int>)
    ensures fresh(left) && left.Length == |h| && forall i :: 0 <= i < |h| ==> LeftEdge(h, i, left[i])
  {
    left := new int[|h|](_ => 0);
    var stack: seq<int> := [];
    for i := 0 to |h|
      invariant Monotone(h, stack, i) && From(stack, |stack|) == i
      invariant forall k :: 0 <= k < i ==> LeftEdge(h, k, left[k])
    {
      stack := LeftPop(h, stack, i);
      LeftEdgeFound(h, stack, i);
      PushMonotone(h, stack, i);
      left[i] := if |stack| > 0 then stack[|stack| - 1] + 1 else 0;
      stack := stack + [i];
    }
  }

  // The second pass runs from the right; its stack is the mirror image.

  /** Where the bars dominated by entry k of the right-to-left stack end. */
  function Upto(h: seq<int>, stack: seq<int>, k: int): int
    requires 0 <= k <= |stack|
  {
    if k == 0 then |h| else stack[k - 1]
  }

  ghost predicate MirrorOk(h: seq<int>, stack: seq<int>, i: int, k: int) {
    0 <= k < |stack| && i <= stack[k] < Upto(h, stack, k) <= |h| && 0 <= i &&
    (k > 0 ==> Bar(h, stack[k - 1]) < Bar(h, stack[k])) && AtLeast(h, stack[k], Upto(h, stack, k), Bar(h, stack[k]))
  }

  ghost predicate Mirror(h: seq<int>, stack: seq<int>, i: int, low: int) {
    0 <= i <= |h| && (forall k :: 0 <= k < |stack| ==> MirrorOk(h, stack, i, k)) &&
    AtLeast(h, i, Upto(h, stack, |stack|), low)
  }

  lemma MirrorPop(h: seq<int>, stack: seq<int>, i: int, low: int)
    requires Mirror(h, stack, i, low) && stack != [] && low <= Bar(h, stack[|stack| - 1])
    ensures Mirror(h, stack[..|stack| - 1], i, low)
  {
    var rest := stack[..|stack| - 1];
    forall k | 0 <= k < |rest|
      ensures MirrorOk(h, rest, i, k)
    {
      assert MirrorOk(h, stack, i, k);
    }
    assert MirrorOk(h, stack, i, |stack| - 1);
  }

  method RightPop(h: seq<int>, stack0: seq<int>, i: int) returns (stack: seq<int>)
    requires 0 <= i < |h| && Mirror(h, stack0, i + 1, h[i]) && Upto(h, stack0, |stack0|) == i + 1
    ensures Mirror(h, stack, i + 1, h[i]) && (stack == [] || Bar(h, stack[|stack| - 1]) < h[i])
  {
    stack := stack0;
    while |stack| > 0 && Bar(h, stack[|stack| - 1]) >= h[i]
      invariant Mirror(h, stack, i + 1, h[i])
    {
      MirrorPop(h, stack, i + 1, h[i]);
      stack := stack[..|stack| - 1];
    }
  }

  lemma RightEdgeFound(h: seq<int>, stack: seq<int>, i: int)
    requires 0 <= i < |h| && Mirror(h, stack, i + 1, h[i]) && (stack == [] || Bar(h, stack[|stack| - 1]) < h[i])
    ensures RightEdge(h, i, Upto(h, stack, |stack|))
    ensures forall low :: Mirror(h, stack + [i], i, low)
  {
    var next := stack + [i];
    assert stack != [] ==> MirrorOk(h, stack, i + 1, |stack| - 1);
    forall k | 0 <= k < |next|
      ensures MirrorOk(h, next, i, k)
    {
      assert k < |stack| ==> MirrorOk(h, stack, i + 1, k);
    }
  }

  lemma MirrorAnyLow(h: seq<int>, stack: seq<int>, i: int, low: int, low': int)
    requires Mirror(h, stack, i, low) && Upto(h, stack, |stack|) == i
    ensures Mirror(h, stack, i, low')
  {
  }

  method RightEdges(h: seq<int>) returns (right: array<int>)
    ensures fresh(right) && right.Length == |h| && forall i :: 0 <= i < |h| ==> RightEdge(h, i, right[i])
  {
    right := new int[|h|](_ => |h|);
    var stack: seq<int> := [];
    var i := |h| - 1;
    while i >= 0
      invariant -1 <= i < |h| && Mirror(h, stack, i + 1, 0) && Upto(h, stack, |stack|) == i + 1
      invariant forall k :: i < k < |h| ==> RightEdge(h, k, right[k])
    {
      MirrorAnyLow(h, stack, i + 1, 0, h[i]);
      stack := RightPop(h, stack, i);
      RightEdgeFound(h, stack, i);
      right[i] := if |stack| > 0 then stack[|stack| - 1] else |h|;
      stack := stack + [i];
      i := i - 1;
    }
  }

  lemma {:induction false} LowestBar(h: seq<int>, l: int, r: int) returns (j: int)
    requires 0 <= l < r <= |h|
    ensures l <= j < r && AtLeast(h, l, r, h[j])
    decreases r - l
  {
    j := l;
    if r - l > 1 {
      var k := LowestBar(h, l, r - 1);
      j := if h[r - 1] < h[k] then r - 1 else k;
    }
  }

  /** The area of the widest rectangle in which bar i is a lowest one. */
  ghost predicate WidestArea(h: seq<int>, i: int, area: int) {
    exists lo, hi :: LeftEdge(h, i, lo) && RightEdge(h, i, hi) && area == h[i] * (hi - lo)
  }

  lemma WidestFits(h: seq<int>, i: int, area: int)
    requires WidestArea(h, i, area)
    ensures exists l, r, ht :: Fits(h, l, r, ht) && ht * (r - l) == area
  {
    var lo, hi :| LeftEdge(h, i, lo) && RightEdge(h, i, hi) && area == h[i] * (hi - lo);
    assert Fits(h, lo, hi, h[i]);
  }

  /** Every rectangle fits into the widest one of its lowest bar. */
  lemma WidestCovers(h: seq<int>, l: int, r: int, ht: int, j: int, area: int)
    requires Heights(h) && Fits(h, l, r, ht) && l <= j < r && AtLeast(h, l, r, h[j])
    requires WidestArea(h, j, area)
    ensures ht * (r - l) <= area
  {
    var lo, hi :| LeftEdge(h, j, lo) && RightEdge(h, j, hi) && area == h[j] * (hi - lo);
    AreaMono(ht, r - l, h[j], hi - lo);
  }

  lemma TwoPassDone(h: seq<int>, areas: seq<int>, best: int, at: int)
    requires Heights(h) && |areas| == |h| && 0 <= at < |h| && areas[at] == best
    requires forall i :: 0 <= i < |h| ==> WidestArea(h, i, areas[i]) && areas[i] <= best
    ensures IsLargest(h, best)
  {
    WidestFits(h, at, best);
    forall l, r, ht | Fits(h, l, r, ht)
      ensures ht * (r - l) <= best
    {
      var j := LowestBar(h, l, r);
      WidestCovers(h, l, r, ht, j, areas[j]);
    }
  }

  /** heights[i] * (right[i] - left[i]) for every bar. */
  method Areas(h: seq<int>, left: array<int>, right: array<int>) returns (areas: seq<int>)
    requires left.Length == right.Length == |h|
    requires forall i :: 0 <= i < |h| ==> LeftEdge(h, i, left[i]) && RightEdge(h, i, right[i])
    ensures |areas| == |h| && forall i :: 0 <= i < |h| ==> WidestArea(h, i, areas[i])
  {
    areas := [];
    for i := 0 to |h|
      invariant |areas| == i && forall k :: 0 <= k < i ==> WidestArea(h, k, areas[k])
    {
      var area := h[i] * (right[i] - left[i]);
      assert WidestArea(h, i, area);
      areas := areas + [area];
    }
  }

  method Maximum(s: seq<int>) returns (best: int, ghost at: int)
    requires |s| >= 1
    ensures 0 <= at < |s| && s[at] == best && forall i :: 0 <= i < |s| ==> s[i] <= best
  {
    best, at := s[0], 0;
    for i := 1 to |s|
      invariant 0 <= at < |s| && s[at] == best && forall k :: 0 <= k < i ==> s[k] <= best
    {
      if best < s[i] { best, at := s[i], i; }
    }
  }

  /** The second reference. */
  method LargestTwoPass(h: seq<int>) returns (best: int)
    requires |h| >= 1 && Heights(h)
    ensures IsLargest(h, best)
  {
    var left := LeftEdges(h);
    var right := RightEdges(h);
    var areas := Areas(h, left, right);
    ghost var at;
    best, at := Maximum(areas);
    TwoPassDone(h, areas, best, at);
  }

  method ReferencesAgree(h: seq<int>) returns (a: int, b: int)
    requires |h| >= 1 && Heights(h)
    ensures a == b && IsLargest(h, a)
  {
    a := LargestOnePass(h);
    b := LargestTwoPass(h);
    LargestUnique(h, a, b);
  }
}
