/** Meeting rooms: the fewest rooms equal the most meetings at one time, as both references compute. */
module MeetingRooms {
  import opened Intervals
  import opened OrderStatistics
  import S = Sorting

  // ------------------------------------------------------------ rooms and overlaps

  function Flatten(rooms: seq<seq<Interval>>): seq<Interval> {
    if rooms == [] then [] else Flatten(rooms[..|rooms| - 1]) + rooms[|rooms| - 1]
  }

  /** Every meeting gets a room, and no two meetings of a room overlap. */
  ghost predicate Plan(a: seq<Interval>, rooms: seq<seq<Interval>>) {
    multiset(Flatten(rooms)) == multiset(a) && forall k :: 0 <= k < |rooms| ==> Disjoint(rooms[k])
  }

  ghost predicate IsFewest(a: seq<Interval>, r: int) {
    (exists rooms :: Plan(a, rooms) && |rooms| == r) && forall rooms :: Plan(a, rooms) ==> r <= |rooms|
  }

  predicate Runs(x: Interval, t: int) {
    x.0 <= t < x.1
  }

  /** How many meetings are running at time t. */
  function Running(a: seq<Interval>, t: int): nat {
    if a == [] then 0 else (if Runs(a[0], t) then 1 else 0) + Running(a[1..], t)
  }

  ghost predicate IsPeak(a: seq<Interval>, r: int) {
    (exists t :: Running(a, t) == r) && forall t :: Running(a, t) <= r
  }

  lemma PeakUnique(a: seq<Interval>, q: int, r: int)
    requires IsPeak(a, q) && IsPeak(a, r)
    ensures q == r
  {
  }

  ghost predicate Meetings(a: seq<Interval>) {
    forall k :: 0 <= k < |a| ==> a[k].0 < a[k].1
  }

  lemma {:induction false} RunningConcat(a: seq<Interval>, b: seq<Interval>, t: int)
    ensures Running(a + b, t) == Running(a, t) + Running(b, t)
  {
    if a == [] {
      assert a + b == b;
    } else {
      assert (a + b)[1..] == a[1..] + b;
      RunningConcat(a[1..], b, t);
    }
  }

  lemma RunningWithout(b: seq<Interval>, j: nat, t: int)
    requires j < |b|
    ensures Running(b, t) == (if Runs(b[j], t) then 1 else 0) + Running(S.Without(b, j), t)
  {
    assert b == b[..j] + ([b[j]] + b[j + 1..]);
    RunningConcat(b[..j], [b[j]] + b[j + 1..], t);
    RunningConcat(b[..j], b[j + 1..], t);
    assert ([b[j]] + b[j + 1..])[1..] == b[j + 1..];
  }

  lemma {:induction false} RunningPermuted(a: seq<Interval>, b: seq<Interval>, t: int)
    requires multiset(a) == multiset(b)
    ensures Running(a, t) == Running(b, t)
  {
    assert |multiset(a)| == |a| && |multiset(b)| == |b|;
    if a != [] {
      assert a[0] in multiset(b);
      var j :| 0 <= j < |b| && b[j] == a[0];
      assert a == [a[0]] + a[1..];
      S.RemoveAt(b, j);
      S.CancelOne(a[0], multiset(a[1..]), multiset(S.Without(b, j)));
      RunningPermuted(a[1..], S.Without(b, j), t);
      RunningWithout(b, j, t);
    }
  }

  /** Of meetings that do not overlap at most one is running. */
  lemma {:induction false} OneRuns(k: seq<Interval>, t: int)
    requires Disjoint(k)
    ensures Running(k, t) <= 1
  {
    if k != [] {
      assert Disjoint(k[1..]);
      OneRuns(k[1..], t);
      if Runs(k[0], t) { NoneRuns(k[0], k[1..], t); }
    }
  }

  lemma {:induction false} NoneRuns(x: Interval, k: seq<Interval>, t: int)
    requires Runs(x, t) && forall j :: 0 <= j < |k| ==> Apart(x, k[j])
    ensures Running(k, t) == 0
  {
    if k != [] { NoneRuns(x, k[1..], t); }
  }

  lemma {:induction false} RoomsBound(rooms: seq<seq<Interval>>, t: int)
    requires forall k :: 0 <= k < |rooms| ==> Disjoint(rooms[k])
    ensures Running(Flatten(rooms), t) <= |rooms|
  {
    if rooms != [] {
      var front, last := rooms[..|rooms| - 1], rooms[|rooms| - 1];
      RoomsBound(front, t);
      OneRuns(last, t);
      RunningConcat(Flatten(front), last, t);
    }
  }

  /** No plan has fewer rooms than meetings running at one time. */
  lemma PeakBound(a: seq<Interval>, rooms: seq<seq<Interval>>, t: int)
    requires Plan(a, rooms)
    ensures Running(a, t) <= |rooms|
  {
    RoomsBound(rooms, t);
    RunningPermuted(Flatten(rooms), a, t);
  }

  /** A plan whose rooms are all taken at some time is optimal, and its size is the peak. */
  lemma Duality(a: seq<Interval>, rooms: seq<seq<Interval>>, t: int)
    requires Plan(a, rooms) && Running(a, t) >= |rooms|
    ensures IsFewest(a, |rooms|) && IsPeak(a, |rooms|)
  {
    forall u ensures Running(a, u) <= |rooms| { PeakBound(a, rooms, u); }
    forall plan | Plan(a, plan) ensures |rooms| <= |plan| { PeakBound(a, plan, t); }
  }

  lemma PlanPermuted(a: seq<Interval>, b: seq<Interval>, r: int)
    requires multiset(a) == multiset(b) && IsFewest(a, r) && IsPeak(a, r)
    ensures IsFewest(b, r) && IsPeak(b, r)
  {
    forall t ensures Running(a, t) == Running(b, t) { RunningPermuted(a, b, t); }
    forall rooms ensures Plan(a, rooms) <==> Plan(b, rooms) { }
  }

  // ------------------------------------------------------------ rooms given out one by one

  // The heap holds the time at which each room becomes free, entry k that of room k; its top is a smallest entry.

  /** Every room is in use until its entry, by a meeting that began no later than `now`. */
  ghost predicate InUse(room: seq<Interval>, free: int) {
    room != [] && room[|room| - 1].1 == free && Disjoint(room) && forall k :: 0 <= k < |room| ==> room[k].1 <= free
  }

  ghost predicate Given(a: seq<Interval>, i: nat, heap: seq<int>, rooms: seq<seq<Interval>>) {
    i <= |a| && |rooms| == |heap| && multiset(Flatten(rooms)) == multiset(a[..i]) &&
    forall k :: 0 <= k < |rooms| ==> InUse(rooms[k], heap[k])
  }

  lemma {:induction false} FlattenUpdate(rooms: seq<seq<Interval>>, m: nat, x: Interval)
    requires m < |rooms|
    ensures multiset(Flatten(rooms[m := rooms[m] + [x]])) == multiset(Flatten(rooms)) + multiset{x}
  {
    var next := rooms[m := rooms[m] + [x]];
    var n := |rooms| - 1;
    if m == n {
      assert next[..n] == rooms[..n];
    } else {
      assert next[..n] == rooms[..n][m := rooms[..n][m] + [x]];
      FlattenUpdate(rooms[..n], m, x);
    }
  }

  lemma Reuse(a: seq<Interval>, i: nat, heap: seq<int>, rooms: seq<seq<Interval>>, m: nat, x: Interval)
    requires Given(a, i, heap, rooms) && i < |a| && x == a[i] && x.0 < x.1 && m < |heap| && heap[m] <= x.0
    ensures Given(a, i + 1, heap[m := x.1], rooms[m := rooms[m] + [x]])
  {
    FlattenUpdate(rooms, m, x);
    assert a[..i + 1] == a[..i] + [x];
    assert InUse(rooms[m], heap[m]);
    assert InUse(rooms[m] + [x], x.1);
  }

  lemma OpenRoom(a: seq<Interval>, i: nat, heap: seq<int>, rooms: seq<seq<Interval>>, x: Interval)
    requires Given(a, i, heap, rooms) && i < |a| && x == a[i]
    ensures Given(a, i + 1, heap + [x.1], rooms + [[x]])
  {
    assert (rooms + [[x]])[..|rooms|] == rooms;
    assert a[..i + 1] == a[..i] + [x];
  }

  /** When no room is free at the start of the next meeting, all of them are in use then. */
  lemma {:induction false} AllBusy(rooms: seq<seq<Interval>>, heap: seq<int>, t: int)
    requires |rooms| == |heap| && forall k :: 0 <= k < |rooms| ==> InUse(rooms[k], heap[k]) && heap[k] > t
    requires forall k :: 0 <= k < |rooms| ==> rooms[k] != [] && rooms[k][|rooms[k]| - 1].0 <= t
    ensures Running(Flatten(rooms), t) >= |rooms|
  {
    if rooms != [] {
      var n := |rooms| - 1;
      AllBusy(rooms[..n], heap[..n], t);
      RunningConcat(Flatten(rooms[..n]), rooms[n], t);
      LastRuns(rooms[n], t);
    }
  }

  lemma LastRuns(room: seq<Interval>, t: int)
    requires room != [] && Runs(room[|room| - 1], t)
    ensures Running(room, t) >= 1
  {
    RunningWithout(room, |room| - 1, t);
  }

  lemma {:induction false} InFlatten(rooms: seq<seq<Interval>>, k: nat, j: nat)
    requires k < |rooms| && j < |rooms[k]|
    ensures rooms[k][j] in Flatten(rooms)
  {
    var n := |rooms| - 1;
    if k < n { InFlatten(rooms[..n], k, j); }
  }

  /** Everything seen before began no later than the next meeting. */
  lemma BeganBefore(a: seq<Interval>, i: nat, heap: seq<int>, rooms: seq<seq<Interval>>, k: nat)
    requires ByStart(a) && Given(a, i, heap, rooms) && i < |a| && k < |rooms|
    ensures rooms[k] != [] && rooms[k][|rooms[k]| - 1].0 <= a[i].0
  {
    assert InUse(rooms[k], heap[k]);
    var x := rooms[k][|rooms[k]| - 1];
    InFlatten(rooms, k, |rooms[k]| - 1);
    assert x in multiset(a[..i]);
    var p :| 0 <= p < i && a[p] == x;
  }

  lemma OneMoreRuns(a: seq<Interval>, i: nat)
    requires Meetings(a) && i < |a|
    ensures Running(a, a[i].0) >= Running(a[..i], a[i].0) + 1
  {
    assert a == a[..i] + a[i..];
    RunningConcat(a[..i], a[i..], a[i].0);
    assert a[i..][0] == a[i];
  }

  lemma PeakReached(a: seq<Interval>, i: nat, heap: seq<int>, rooms: seq<seq<Interval>>)
    requires ByStart(a) && Meetings(a) && Given(a, i, heap, rooms) && i < |a|
    requires forall k :: 0 <= k < |heap| ==> heap[k] > a[i].0
    ensures Running(a, a[i].0) >= |heap| + 1
  {
    var t := a[i].0;
    forall k | 0 <= k < |rooms|
      ensures rooms[k] != [] && rooms[k][|rooms[k]| - 1].0 <= t
    {
      BeganBefore(a, i, heap, rooms, k);
    }
    AllBusy(rooms, heap, t);
    RunningPermuted(Flatten(rooms), a[..i], t);
    OneMoreRuns(a, i);
  }

  /** The top of the heap. */
  method Earliest(heap: seq<int>) returns (m: nat)
    requires heap != []
    ensures m < |heap| && forall k :: 0 <= k < |heap| ==> heap[m] <= heap[k]
  {
    m := 0;
    for k := 1 to |heap|
      invariant m < |heap| && forall j :: 0 <= j < k ==> heap[m] <= heap[j]
    {
      if heap[k] < heap[m] { m := k; }
    }
  }

  ghost predicate Reached(a: seq<Interval>, n: nat) {
    n == 0 || exists t :: Running(a, t) >= n
  }

  method RoomsByHeap(intervals: seq<Interval>) returns (r: int)
    requires Meetings(intervals)
    ensures IsFewest(intervals, r) && IsPeak(intervals, r)
  {
    var a := S.Sort(intervals, LexLe);
    SortedMeetings(intervals, a);
    var heap: seq<int> := [];
    ghost var rooms: seq<seq<Interval>> := [];
    for i := 0 to |a|
      invariant Given(a, i, heap, rooms) && Reached(a, |heap|)
    {
      var x := a[i];
      var top := 0;
      if |heap| > 0 { top := Earliest(heap); }
      if |heap| > 0 && heap[top] <= x.0 {
        Reuse(a, i, heap, rooms, top, x);
        heap, rooms := heap[top := x.1], rooms[top := rooms[top] + [x]];
      } else {
        PeakReached(a, i, heap, rooms);
        OpenRoom(a, i, heap, rooms, x);
        heap, rooms := heap + [x.1], rooms + [[x]];
      }
    }
    r := |heap|;
    HeapDone(a, heap, rooms);
    PlanPermuted(a, intervals, r);
  }

  lemma SortedMeetings(intervals: seq<Interval>, a: seq<Interval>)
    requires Meetings(intervals) && a == S.Sort(intervals, LexLe)
    ensures ByStart(a) && Meetings(a) && multiset(a) == multiset(intervals)
  {
    SortedByStart(intervals);
    forall k | 0 <= k < |a|
      ensures a[k].0 < a[k].1
    {
      assert a[k] in multiset(intervals);
    }
  }

  lemma HeapDone(a: seq<Interval>, heap: seq<int>, rooms: seq<seq<Interval>>)
    requires Given(a, |a|, heap, rooms) && Reached(a, |heap|)
    ensures IsFewest(a, |heap|) && IsPeak(a, |heap|)
  {
    assert a[..|a|] == a;
    forall k | 0 <= k < |rooms| ensures Disjoint(rooms[k]) { assert InUse(rooms[k], heap[k]); }
    var t :| |heap| == 0 || Running(a, t) >= |heap|;
    Duality(a, rooms, t);
  }

  // ------------------------------------------------------------ a sweep over starts and ends

  function Starts(a: seq<Interval>): seq<int> {
    if a == [] then [] else [a[0].0] + Starts(a[1..])
  }

  function Ends(a: seq<Interval>): seq<int> {
    if a == [] then [] else [a[0].1] + Ends(a[1..])
  }

  /** Meetings running are those begun less those over. */
  lemma {:induction false} RunningIsDifference(a: seq<Interval>, t: int)
    requires Meetings(a)
    ensures Running(a, t) == UpTo(Starts(a), t) - UpTo(Ends(a), t)
    ensures |Starts(a)| == |Ends(a)| == |a|
  {
    if a != [] {
      RunningIsDifference(a[1..], t);
      assert Starts(a)[1..] == Starts(a[1..]) && Ends(a)[1..] == Ends(a[1..]);
    }
  }

  /** Nothing from position j on counts. */
  lemma UpToBound(s: seq<int>, t: int, j: int)
    requires 0 <= j <= |s| && forall p :: j <= p < |s| ==> s[p] > t
    ensures UpTo(s, t) <= j
  {
    assert s == s[..j] + s[j..];
    CountConcat(s[..j], s[j..], t);
    NoneUpTo(s[j..], t);
    CountsAtMostLength(s[..j], t);
  }

  /** In an ascending sequence the elements up to t are the first UpTo(s, t). */
  lemma CountIsPosition(s: seq<int>, t: int, j: int)
    requires Ascending(s) && 0 <= j <= |s| && (j == 0 || s[j - 1] <= t) && (j == |s| || s[j] > t)
    ensures UpTo(s, t) == j
  {
    LowPart(s, j, t);
    UpToBound(s, t, j);
  }

  lemma {:induction false} NoneUpTo(s: seq<int>, t: int)
    requires forall p :: 0 <= p < |s| ==> s[p] > t
    ensures UpTo(s, t) == 0
  {
    if s != [] { NoneUpTo(s[1..], t); }
  }

  lemma {:induction false} UpToMonotone(s: seq<int>, t: int, u: int)
    requires t <= u
    ensures UpTo(s, t) <= UpTo(s, u)
  {
    if s != [] { UpToMonotone(s[1..], t, u); }
  }

  /** The last of the first c elements is at most t when c of them are. */
  lemma CountedIsUpTo(s: seq<int>, t: int)
    requires Ascending(s) && UpTo(s, t) > 0
    ensures UpTo(s, t) <= |s| && s[UpTo(s, t) - 1] <= t
  {
    var c := UpTo(s, t);
    CountsAtMostLength(s, t);
    if s[c - 1] > t { UpToBound(s, t, c - 1); }
  }

  /** The rooms counted when start number i has been swept. */
  function Counted(starts: seq<int>, ends: seq<int>, i: int): int
    requires 0 <= i < |starts|
  {
    i + 1 - UpTo(ends, starts[i])
  }

  ghost predicate Swept(starts: seq<int>, ends: seq<int>, i: int, best: int) {
    0 <= i <= |starts| && (forall p :: 0 <= p < i ==> Counted(starts, ends, p) <= best) &&
    (best == 0 || exists p :: 0 <= p < i && Counted(starts, ends, p) == best) && best >= 0
  }

  lemma SweepStep(starts: seq<int>, ends: seq<int>, i: int, best: int, rooms: int)
    requires Swept(starts, ends, i, best) && i < |starts| && rooms == Counted(starts, ends, i)
    ensures Swept(starts, ends, i + 1, if best < rooms then rooms else best)
  {
  }

  lemma SweepDone(a: seq<Interval>, starts: seq<int>, ends: seq<int>, best: int)
    requires Meetings(a) && Ascending(starts) && |starts| == |a| && Swept(starts, ends, |starts|, best)
    requires forall t :: UpTo(starts, t) == UpTo(Starts(a), t) && UpTo(ends, t) == UpTo(Ends(a), t)
    ensures IsPeak(a, best)
  {
    forall t
      ensures Running(a, t) <= best
    {
      RunningIsDifference(a, t);
      var c := UpTo(starts, t);
      assert c == UpTo(Starts(a), t) && UpTo(ends, t) == UpTo(Ends(a), t);
      if c > 0 {
        CountedIsUpTo(starts, t);
        UpToMonotone(ends, starts[c - 1], t);
        assert Counted(starts, ends, c - 1) <= best;
      }
    }
    if best == 0 {
      assert Running(a, 0) == 0;
    } else {
      var p :| 0 <= p < |starts| && Counted(starts, ends, p) == best;
      var t := starts[p];
      LowPart(starts, p + 1, t);
      RunningIsDifference(a, t);
      assert UpTo(starts, t) == UpTo(Starts(a), t) && UpTo(ends, t) == UpTo(Ends(a), t);
      assert Running(a, t) == best;
    }
  }

  lemma SortedTimes(s: seq<int>, sorted: seq<int>)
    requires sorted == S.Sort(s, AtMost)
    ensures Ascending(sorted) && |sorted| == |s| && forall t :: UpTo(sorted, t) == UpTo(s, t)
  {
    AtMostIsTotal();
    S.SortSpec(s, AtMost);
    forall i, j | 0 <= i < j < |sorted| ensures sorted[i] <= sorted[j] { assert AtMost(sorted[i], sorted[j]); }
    forall t ensures UpTo(sorted, t) == UpTo(s, t) { CountSort(s, t); }
  }

  /** The inner loop: give back the rooms of the meetings that are over. */
  method PassEnds(ends: seq<int>, t: int, j0: int, rooms0: int) returns (j: int, rooms: int)
    requires Ascending(ends) && 0 <= j0 <= |ends| && (j0 == 0 || ends[j0 - 1] <= t)
    ensures j0 <= j <= |ends| && j == UpTo(ends, t) && rooms == rooms0 - (j - j0)
    ensures j == 0 || ends[j - 1] <= t
  {
    j, rooms := j0, rooms0;
    while j < |ends| && ends[j] <= t
      invariant j0 <= j <= |ends| && rooms == rooms0 - (j - j0) && (j == 0 || ends[j - 1] <= t)
    {
      j := j + 1;
      rooms := rooms - 1;
    }
    CountIsPosition(ends, t, j);
  }

  method SweepAll(starts: seq<int>, ends: seq<int>) returns (best: int)
    requires Ascending(starts) && Ascending(ends)
    ensures Swept(starts, ends, |starts|, best)
  {
    var rooms, j := 0, 0;
    best := 0;
    for i := 0 to |starts|
      invariant Swept(starts, ends, i, best)
      invariant 0 <= j <= |ends| && rooms == i - j && (j == 0 || (i > 0 && ends[j - 1] <= starts[i - 1]))
    {
      j, rooms := PassEnds(ends, starts[i], j, rooms);
      rooms := rooms + 1;
      SweepStep(starts, ends, i, best, rooms);
      if best < rooms { best := rooms; }
    }
  }

  method RoomsBySweep(intervals: seq<Interval>) returns (best: int)
    requires Meetings(intervals)
    ensures IsPeak(intervals, best)
  {
    var starts := S.Sort(Starts(intervals), AtMost);
    var ends := S.Sort(Ends(intervals), AtMost);
    SortedTimes(Starts(intervals), starts);
    SortedTimes(Ends(intervals), ends);
    RunningIsDifference(intervals, 0);
    best := SweepAll(starts, ends);
    SweepDone(intervals, starts, ends, best);
  }

  /** The sweep's peak is the heap's number of rooms, which is the least possible. */
  method ReferencesAgree(intervals: seq<Interval>) returns (a: int, b: int)
    requires Meetings(intervals)
    ensures a == b && IsFewest(intervals, a) && IsPeak(intervals, a)
  {
    a := RoomsBySweep(intervals);
    b := RoomsByHeap(intervals);
    PeakUnique(intervals, a, b);
  }
}
