/** Non-overlapping intervals: the earliest-end greedy and the sort-by-start sweep. */
module Intervals {
  import opened Sorting

  /** Start and end, start before end. */
  type Interval = (int, int)

  ghost predicate Proper(m: multiset<Interval>) {
    forall x :: x in m ==> x.0 < x.1
  }

  ghost predicate AllProper(a: seq<Interval>) {
    forall j :: 0 <= j < |a| ==> a[j].0 < a[j].1
  }

  lemma ProperOrder(a: seq<Interval>, m: multiset<Interval>)
    requires Proper(m) && multiset(a) == m
    ensures AllProper(a)
  {
    forall j | 0 <= j < |a|
      ensures a[j].0 < a[j].1
    {
      assert a[j] in multiset(a);
    }
  }

  ghost predicate Apart(x: Interval, y: Interval) {
    x.1 <= y.0 || y.1 <= x.0
  }

  ghost predicate Disjoint(k: seq<Interval>) {
    forall i, j :: 0 <= i < j < |k| ==> Apart(k[i], k[j])
  }

  /** A non-overlapping selection from the given intervals. */
  ghost predicate Selection(k: seq<Interval>, from: multiset<Interval>) {
    Disjoint(k) && Fits(k, from)
  }

  /** Every interval of k can be taken from `from`, one copy each. */
  ghost predicate Fits(k: seq<Interval>, from: multiset<Interval>) {
    k == [] || (k[0] in from && Fits(k[1..], from - multiset{k[0]}))
  }

  lemma {:induction false} FitsIsSubset(k: seq<Interval>, from: multiset<Interval>)
    ensures Fits(k, from) <==> multiset(k) <= from
  {
    if k != [] {
      assert k == [k[0]] + k[1..];
      FitsIsSubset(k[1..], from - multiset{k[0]});
      if k[0] in from {
        SubsetCons(multiset(k[1..]), from, k[0]);
      } else {
        assert k[0] in multiset(k);
      }
    }
  }

  lemma SubsetCons(m: multiset<Interval>, from: multiset<Interval>, x: Interval)
    requires x in from
    ensures m <= from - multiset{x} <==> m + multiset{x} <= from
  {
    if m + multiset{x} <= from {
      forall y
        ensures m[y] <= (from - multiset{x})[y]
      {
        assert (m + multiset{x})[y] <= from[y];
      }
    }
  }

  ghost predicate MinRemovals(intervals: seq<Interval>, r: int) {
    (exists k :: Selection(k, multiset(intervals)) && |intervals| - |k| == r) &&
    forall k: seq<Interval> :: Selection(k, multiset(intervals)) ==> r <= |intervals| - |k|
  }

  lemma MinRemovalsUnique(intervals: seq<Interval>, a: int, b: int)
    requires MinRemovals(intervals, a) && MinRemovals(intervals, b)
    ensures a == b
  {
    var k :| Selection(k, multiset(intervals)) && |intervals| - |k| == a;
    var l :| Selection(l, multiset(intervals)) && |intervals| - |l| == b;
  }

  // ------------------------------------------------------------ the exchange argument

  ghost predicate ReachesEnd(k: seq<Interval>, end: int) {
    exists j :: 0 <= j < |k| && k[j].1 >= end
  }

  /** No selection is larger than `kept`, and one of that size does not end before `end`. */
  ghost predicate Upper(from: multiset<Interval>, kept: nat, end: int) {
    forall k: seq<Interval> :: Selection(k, from) ==> |k| <= kept && (|k| == kept > 0 ==> ReachesEnd(k, end))
  }

  function Without(k: seq<Interval>, j: nat): seq<Interval>
    requires j < |k|
  {
    k[..j] + k[j + 1..]
  }

  lemma CancelBelow(m: multiset<Interval>, from: multiset<Interval>, x: Interval)
    requires m + multiset{x} <= from + multiset{x}
    ensures m <= from
  {
    forall y
      ensures m[y] <= from[y]
    {
      assert (m + multiset{x})[y] <= (from + multiset{x})[y];
    }
  }

  lemma WithoutApart(k: seq<Interval>, j: nat, x: Interval)
    requires j < |k| && k[j] == x && Disjoint(k)
    ensures Disjoint(Without(k, j))
    ensures forall y :: y in Without(k, j) ==> Apart(x, y)
  {
    var r := Without(k, j);
    forall a, b | 0 <= a < b < |r|
      ensures Apart(r[a], r[b])
    {
      assert r[a] == k[if a < j then a else a + 1] && r[b] == k[if b < j then b else b + 1];
    }
    forall y | y in r
      ensures Apart(x, y)
    {
      var a :| 0 <= a < |r| && r[a] == y;
      assert y == k[if a < j then a else a + 1];
    }
  }

  lemma WithoutSpec(k: seq<Interval>, j: nat, from: multiset<Interval>, x: Interval)
    requires j < |k| && k[j] == x && Selection(k, from + multiset{x})
    ensures Selection(Without(k, j), from)
    ensures forall y :: y in Without(k, j) ==> Apart(x, y)
  {
    WithoutApart(k, j, x);
    FitsIsSubset(k, from + multiset{x});
    FitsIsSubset(Without(k, j), from);
    assert k == k[..j] + [x] + k[j + 1..];
    assert multiset(k) == multiset(Without(k, j)) + multiset{x};
    CancelBelow(multiset(Without(k, j)), from, x);
  }

  /** Adding one interval that no earlier one follows: keep it when it starts after `end`, else keep the
      earlier of the two ends. */
  lemma UpperStep(from: multiset<Interval>, x: Interval, kept: nat, end: int, next: int)
    requires Upper(from, kept, end) && forall y :: y in from ==> !(x.1 <= y.0)
    requires if kept == 0 || x.0 >= end then next == x.1 else next <= x.1 && next <= end
    ensures Upper(from + multiset{x}, if kept == 0 || x.0 >= end then kept + 1 else kept, next)
  {
    var kept' := if kept == 0 || x.0 >= end then kept + 1 else kept;
    forall k: seq<Interval> | Selection(k, from + multiset{x})
      ensures |k| <= kept' && (|k| == kept' > 0 ==> ReachesEnd(k, next))
    {
      FitsIsSubset(k, from);
      FitsIsSubset(k, from + multiset{x});
      if multiset(k) <= from {
        if |k| == kept' {
          var j :| 0 <= j < |k| && k[j].1 >= end;
          assert k[j].1 >= next;
        }
      } else {
        assert x in multiset(k) by {
          var y :| multiset(k)[y] > from[y];
          assert y == x;
        }
        var j :| 0 <= j < |k| && k[j] == x;
        UpperWith(from, x, kept, end, k, j);
        assert k[j].1 >= next;
      }
    }
  }

  /** A selection that uses the new interval leaves a selection of the old ones that ends before it starts. */
  lemma UpperWith(from: multiset<Interval>, x: Interval, kept: nat, end: int, k: seq<Interval>, j: nat)
    requires Upper(from, kept, end) && forall y :: y in from ==> !(x.1 <= y.0)
    requires Selection(k, from + multiset{x}) && j < |k| && k[j] == x
    ensures |k| <= if kept == 0 || x.0 >= end then kept + 1 else kept
  {
    var r := Without(k, j);
    WithoutSpec(k, j, from, x);
    FitsIsSubset(r, from);
    if |r| == kept > 0 {
      var a :| 0 <= a < |r| && r[a].1 >= end;
      assert r[a] in multiset(r);
      assert Apart(x, r[a]);
    }
  }

  // ------------------------------------------------------------ earliest end first

  function End(x: Interval): int {
    x.1
  }

  /** The kept intervals: a selection of the right size in which the last one ends at `end`. */
  ghost predicate Kept(k: seq<Interval>, from: multiset<Interval>, kept: nat, end: int) {
    Selection(k, from) && |k| == kept &&
    (kept > 0 ==> k[kept - 1].1 == end) && forall j :: 0 <= j < kept - 1 ==> k[j].1 <= k[kept - 1].0
  }

  lemma SkipOne(k: seq<Interval>, from: multiset<Interval>, kept: nat, end: int, x: Interval, upto: multiset<Interval>)
    requires upto == from + multiset{x} && Kept(k, from, kept, end)
    ensures Kept(k, upto, kept, end)
  {
    FitsIsSubset(k, from);
    FitsIsSubset(k, from + multiset{x});
  }

  lemma LastKept(k: seq<Interval>, from: multiset<Interval>, kept: nat, end: int)
    requires Kept(k, from, kept, end) && kept > 0
    ensures k[kept - 1] in from && k[kept - 1].1 == end
  {
    FitsIsSubset(k, from);
    assert k[kept - 1] in multiset(k);
  }

  lemma FitsSnoc(k: seq<Interval>, from: multiset<Interval>, x: Interval)
    requires Fits(k, from)
    ensures Fits(k + [x], from + multiset{x})
  {
    FitsIsSubset(k, from);
    FitsIsSubset(k + [x], from + multiset{x});
  }

  ghost predicate AllEndBy(k: seq<Interval>, start: int) {
    forall j :: 0 <= j < |k| ==> k[j].1 <= start
  }

  lemma KeptEndBy(k: seq<Interval>, from: multiset<Interval>, kept: nat, end: int, start: int)
    requires Kept(k, from, kept, end) && (kept == 0 || start >= end) && Proper(from)
    ensures AllEndBy(k, start)
  {
    if kept > 0 { LastKept(k, from, kept, end); }
  }

  lemma DisjointSnoc(k: seq<Interval>, x: Interval)
    requires Disjoint(k) && AllEndBy(k, x.0)
    ensures Disjoint(k + [x])
  {
  }

  lemma KeepOneMore(k: seq<Interval>, from: multiset<Interval>, kept: nat, end: int, x: Interval, upto: multiset<Interval>)
    requires upto == from + multiset{x} && Kept(k, from, kept, end) && (kept == 0 || x.0 >= end) && Proper(from)
    ensures Kept(k + [x], upto, kept + 1, x.1)
  {
    FitsSnoc(k, from, x);
    KeptEndBy(k, from, kept, end, x.0);
    DisjointSnoc(k, x);
  }

  /** The first i intervals. */
  ghost function Bag(a: seq<Interval>, i: nat): multiset<Interval>
    requires i <= |a|
  {
    if i == 0 then multiset{} else Bag(a, i - 1) + multiset{a[i - 1]}
  }

  lemma PrefixBag(a: seq<Interval>, i: nat)
    requires 0 < i <= |a|
    ensures multiset(a[..i]) == multiset(a[..i - 1]) + multiset{a[i - 1]}
  {
    assert a[..i] == a[..i - 1] + [a[i - 1]];
  }

  lemma {:induction false} BagIs(a: seq<Interval>, i: nat)
    requires i <= |a|
    ensures Bag(a, i) == multiset(a[..i])
  {
    if i > 0 {
      BagIs(a, i - 1);
      PrefixBag(a, i);
    }
  }

  lemma {:induction false} InBag(a: seq<Interval>, i: nat, y: Interval)
    requires i <= |a| && y in Bag(a, i)
    ensures exists j :: 0 <= j < i && a[j] == y
  {
    if y != a[i - 1] {
      InBag(a, i - 1, y);
    }
  }

  lemma Conclude(intervals: seq<Interval>, a: seq<Interval>, k: seq<Interval>, kept: nat, end: int)
    requires multiset(a) == multiset(intervals) && |a| == |intervals|
    requires Kept(k, Bag(a, |a|), kept, end) && Upper(Bag(a, |a|), kept, end)
    ensures MinRemovals(intervals, |a| - kept)
  {
    BagIs(a, |a|);
    assert a[..|a|] == a;
    assert Selection(k, multiset(intervals));
  }

  lemma NothingSelected()
    ensures Kept([], multiset{}, 0, 0) && Upper(multiset{}, 0, 0)
  {
  }

  /** A sweep remembers how many intervals it kept and the end it must not overlap. */
  datatype Sweep = Sweep(kept: nat, end: int)

  function TakeByEnd(w: Sweep, x: Interval): Sweep {
    if w.kept == 0 || x.0 >= w.end then Sweep(w.kept + 1, x.1) else w
  }

  function SweepEnd(a: seq<Interval>, i: nat): Sweep
    requires i <= |a|
  {
    if i == 0 then Sweep(0, 0) else TakeByEnd(SweepEnd(a, i - 1), a[i - 1])
  }

  /** The end a sweep remembers belongs to an interval it has seen. */
  lemma {:induction false} EndSeen(a: seq<Interval>, i: nat)
    requires i <= |a|
    ensures SweepEnd(a, i).kept > 0 ==> exists j :: 0 <= j < i && a[j].1 == SweepEnd(a, i).end
  {
    if i > 0 {
      EndSeen(a, i - 1);
      if SweepEnd(a, i) == SweepEnd(a, i - 1) {
      } else {
        assert a[i - 1].1 == SweepEnd(a, i).end;
      }
    }
  }

  ghost predicate NoneAfter(from: multiset<Interval>, x: Interval) {
    forall y :: y in from ==> !(x.1 <= y.0)
  }

  /** What both sweeps do with one more interval. */
  ghost predicate Advances(w: Sweep, x: Interval, next: Sweep) {
    if w.kept == 0 || x.0 >= w.end then next == Sweep(w.kept + 1, x.1)
    else next.kept == w.kept && next.end <= x.1 && next.end <= w.end
  }

  lemma UpperNext(from: multiset<Interval>, x: Interval, w: Sweep, upto: multiset<Interval>, next: Sweep)
    requires upto == from + multiset{x} && Upper(from, w.kept, w.end) && NoneAfter(from, x) && Advances(w, x, next)
    ensures Upper(upto, next.kept, next.end)
  {
    UpperStep(from, x, w.kept, w.end, next.end);
  }

  lemma NextByEnd(a: seq<Interval>, i: nat)
    requires 0 < i <= |a| && ByEnd(a) && AllProper(a)
    ensures NoneAfter(Bag(a, i - 1), a[i - 1]) && Advances(SweepEnd(a, i - 1), a[i - 1], SweepEnd(a, i))
  {
    LaterEnd(a, i - 1);
    EndSeen(a, i - 1);
  }

  lemma {:induction false} SweepEndUpper(a: seq<Interval>, i: nat)
    requires i <= |a| && ByEnd(a) && AllProper(a)
    ensures Upper(Bag(a, i), SweepEnd(a, i).kept, SweepEnd(a, i).end)
  {
    if i == 0 {
      NothingSelected();
    } else {
      SweepEndUpper(a, i - 1);
      NextByEnd(a, i);
      UpperNext(Bag(a, i - 1), a[i - 1], SweepEnd(a, i - 1), Bag(a, i), SweepEnd(a, i));
    }
  }

  lemma KeptNextByEnd(k: seq<Interval>, from: multiset<Interval>, x: Interval, w: Sweep, upto: multiset<Interval>, next: Sweep)
    returns (k': seq<Interval>)
    requires upto == from + multiset{x} && Kept(k, from, w.kept, w.end) && NotFollowed(from, x) && next == TakeByEnd(w, x)
    ensures Kept(k', upto, next.kept, next.end)
  {
    if w.kept == 0 || x.0 >= w.end {
      KeepOneMore(k, from, w.kept, w.end, x, upto);
      k' := k + [x];
    } else {
      SkipOne(k, from, w.kept, w.end, x, upto);
      k' := k;
    }
  }

  lemma NextEndKept(a: seq<Interval>, i: nat, k: seq<Interval>) returns (k': seq<Interval>)
    requires 0 < i <= |a| && ByEnd(a) && AllProper(a)
    requires Kept(k, Bag(a, i - 1), SweepEnd(a, i - 1).kept, SweepEnd(a, i - 1).end)
    ensures Kept(k', Bag(a, i), SweepEnd(a, i).kept, SweepEnd(a, i).end)
  {
    LaterEnd(a, i - 1);
    k' := KeptNextByEnd(k, Bag(a, i - 1), a[i - 1], SweepEnd(a, i - 1), Bag(a, i), SweepEnd(a, i));
  }

  lemma {:induction false} SweepEndKept(a: seq<Interval>, i: nat) returns (k: seq<Interval>)
    requires i <= |a| && ByEnd(a) && AllProper(a)
    ensures Kept(k, Bag(a, i), SweepEnd(a, i).kept, SweepEnd(a, i).end)
  {
    if i == 0 {
      NothingSelected();
      k := [];
    } else {
      var shorter := SweepEndKept(a, i - 1);
      k := NextEndKept(a, i, shorter);
    }
  }

  lemma SweepEndAnswer(intervals: seq<Interval>)
    requires Proper(multiset(intervals))
    ensures var a := SortByKey(intervals, End);
      |a| == |intervals| && MinRemovals(intervals, |a| - SweepEnd(a, |a|).kept)
  {
    SortedByEnd(intervals);
    var a := SortByKey(intervals, End);
    ProperOrder(a, multiset(intervals));
    var k := SweepEndKept(a, |a|);
    SweepEndUpper(a, |a|);
    Conclude(intervals, a, k, SweepEnd(a, |a|).kept, SweepEnd(a, |a|).end);
  }

  /** The stored reference: sort by end, keep whatever starts after the last kept end. */
  method EraseByEnd(intervals: seq<Interval>) returns (r: int)
    requires Proper(multiset(intervals))
    ensures MinRemovals(intervals, r)
  {
    var a := SortByKey(intervals, End);
    var kept: nat, end := 0, 0;
    for i := 0 to |a|
      invariant Sweep(kept, end) == SweepEnd(a, i)
    {
      var (s, e) := a[i];
      if kept == 0 || s >= end {
        kept := kept + 1;
        end := e;
      }
    }
    SweepEndAnswer(intervals);
    r := |a| - kept;
  }

  ghost predicate ByEnd(a: seq<Interval>) {
    forall i, j :: 0 <= i < j < |a| ==> a[i].1 <= a[j].1
  }

  lemma SortedByEnd(intervals: seq<Interval>)
    ensures var a := SortByKey(intervals, End);
      ByEnd(a) && multiset(a) == multiset(intervals) && |a| == |intervals|
  {
    SortByKeySpec(intervals, End);
    var a := SortByKey(intervals, End);
    forall i, j | 0 <= i < j < |a|
      ensures a[i].1 <= a[j].1
    {
      assert End(a[i]) <= End(a[j]);
    }
  }

  ghost predicate NotFollowed(from: multiset<Interval>, x: Interval) {
    x.0 < x.1 && forall y :: y in from ==> y.0 < y.1 && !(x.1 <= y.0) && y.1 <= x.1
  }

  lemma LaterEnd(a: seq<Interval>, i: nat)
    requires i < |a| && ByEnd(a) && AllProper(a)
    ensures NotFollowed(Bag(a, i), a[i])
  {
    forall y | y in Bag(a, i)
      ensures y.0 < y.1 && !(a[i].1 <= y.0) && y.1 <= a[i].1
    {
      InBag(a, i, y);
      var j :| 0 <= j < i && a[j] == y;
    }
  }

  // ------------------------------------------------------------ earliest start first

  predicate LexLe(x: Interval, y: Interval) {
    x.0 < y.0 || (x.0 == y.0 && x.1 <= y.1)
  }

  ghost predicate ByStart(a: seq<Interval>) {
    forall i, j :: 0 <= i < j < |a| ==> a[i].0 <= a[j].0
  }

  lemma SortedByStart(intervals: seq<Interval>)
    ensures var a := Sort(intervals, LexLe);
      ByStart(a) && multiset(a) == multiset(intervals) && |a| == |intervals|
  {
    SortSpec(intervals, LexLe);
    var a := Sort(intervals, LexLe);
    forall i, j | 0 <= i < j < |a|
      ensures a[i].0 <= a[j].0
    {
      assert LexLe(a[i], a[j]);
    }
  }

  ghost predicate NotBefore(from: multiset<Interval>, x: Interval) {
    x.0 < x.1 && forall y :: y in from ==> y.0 < y.1 && !(x.1 <= y.0) && y.0 <= x.0
  }

  lemma EarlierStart(a: seq<Interval>, i: nat)
    requires i < |a| && ByStart(a) && AllProper(a)
    ensures NotBefore(Bag(a, i), a[i])
  {
    forall y | y in Bag(a, i)
      ensures y.0 < y.1 && !(a[i].1 <= y.0) && y.0 <= a[i].0
    {
      InBag(a, i, y);
      var j :| 0 <= j < i && a[j] == y;
    }
  }

  lemma FitsInit(init: seq<Interval>, last: Interval, from: multiset<Interval>)
    requires Fits(init + [last], from)
    ensures Fits(init, from)
  {
    FitsIsSubset(init + [last], from);
    assert multiset(init) <= multiset(init + [last]);
    FitsIsSubset(init, from);
  }

  lemma ReplaceLast(k: seq<Interval>, from: multiset<Interval>, x: Interval)
    requires k != [] && Fits(k, from)
    ensures Fits(k[..|k| - 1] + [x], from + multiset{x})
  {
    var init := k[..|k| - 1];
    assert k == init + [k[|k| - 1]];
    FitsInit(init, k[|k| - 1], from);
    FitsSnoc(init, from, x);
  }

  /** The new interval ends earlier than the last kept one and takes its place. */
  lemma Replace(k: seq<Interval>, from: multiset<Interval>, kept: nat, end: int, x: Interval, upto: multiset<Interval>)
    requires upto == from + multiset{x} && Kept(k, from, kept, end) && kept > 0 && x.1 < end && k[kept - 1].0 <= x.0
    ensures Kept(k[..kept - 1] + [x], upto, kept, x.1)
  {
    ReplaceLast(k, from, x);
  }

  function TakeByStart(w: Sweep, x: Interval): Sweep {
    if w.kept == 0 || x.0 >= w.end then Sweep(w.kept + 1, x.1) else Sweep(w.kept, if w.end < x.1 then w.end else x.1)
  }

  function SweepStart(a: seq<Interval>, i: nat): (w: Sweep)
    requires i <= |a|
    ensures w.kept <= i
  {
    if i == 0 then Sweep(0, 0) else TakeByStart(SweepStart(a, i - 1), a[i - 1])
  }

  lemma {:induction false} SweepStartUpper(a: seq<Interval>, i: nat)
    requires i <= |a| && ByStart(a) && AllProper(a)
    ensures Upper(Bag(a, i), SweepStart(a, i).kept, SweepStart(a, i).end)
  {
    if i == 0 {
      NothingSelected();
    } else {
      SweepStartUpper(a, i - 1);
      EarlierStart(a, i - 1);
      UpperNext(Bag(a, i - 1), a[i - 1], SweepStart(a, i - 1), Bag(a, i), SweepStart(a, i));
    }
  }

  lemma KeptNextByStart(k: seq<Interval>, from: multiset<Interval>, x: Interval, w: Sweep, upto: multiset<Interval>, next: Sweep)
    returns (k': seq<Interval>)
    requires upto == from + multiset{x} && Kept(k, from, w.kept, w.end) && NotBefore(from, x) && next == TakeByStart(w, x)
    ensures Kept(k', upto, next.kept, next.end)
  {
    if w.kept == 0 || x.0 >= w.end {
      KeepOneMore(k, from, w.kept, w.end, x, upto);
      k' := k + [x];
    } else if x.1 < w.end {
      LastKept(k, from, w.kept, w.end);
      Replace(k, from, w.kept, w.end, x, upto);
      k' := k[..w.kept - 1] + [x];
    } else {
      SkipOne(k, from, w.kept, w.end, x, upto);
      k' := k;
    }
  }

  lemma NextStartKept(a: seq<Interval>, i: nat, k: seq<Interval>) returns (k': seq<Interval>)
    requires 0 < i <= |a| && ByStart(a) && AllProper(a)
    requires Kept(k, Bag(a, i - 1), SweepStart(a, i - 1).kept, SweepStart(a, i - 1).end)
    ensures Kept(k', Bag(a, i), SweepStart(a, i).kept, SweepStart(a, i).end)
  {
    EarlierStart(a, i - 1);
    k' := KeptNextByStart(k, Bag(a, i - 1), a[i - 1], SweepStart(a, i - 1), Bag(a, i), SweepStart(a, i));
  }

  lemma {:induction false} SweepStartKept(a: seq<Interval>, i: nat) returns (k: seq<Interval>)
    requires i <= |a| && ByStart(a) && AllProper(a)
    ensures Kept(k, Bag(a, i), SweepStart(a, i).kept, SweepStart(a, i).end)
  {
    if i == 0 {
      NothingSelected();
      k := [];
    } else {
      var shorter := SweepStartKept(a, i - 1);
      k := NextStartKept(a, i, shorter);
    }
  }

  lemma SweepStartAnswer(intervals: seq<Interval>)
    requires Proper(multiset(intervals))
    ensures var a := Sort(intervals, LexLe);
      |a| == |intervals| && MinRemovals(intervals, |a| - SweepStart(a, |a|).kept)
  {
    SortedByStart(intervals);
    var a := Sort(intervals, LexLe);
    ProperOrder(a, multiset(intervals));
    var k := SweepStartKept(a, |a|);
    SweepStartUpper(a, |a|);
    Conclude(intervals, a, k, SweepStart(a, |a|).kept, SweepStart(a, |a|).end);
  }

  /** The second reference: sort by start, drop the later end of every overlapping pair. */
  method EraseByStart(intervals: seq<Interval>) returns (removed: int)
    requires Proper(multiset(intervals))
    ensures MinRemovals(intervals, removed)
  {
    var a := Sort(intervals, LexLe);
    removed := 0;
    var prevEnd := 0;
    var none := true;
    for i := 0 to |a|
      invariant 0 <= removed <= i && (none <==> i == removed)
      invariant Sweep(i - removed, prevEnd) == SweepStart(a, i)
    {
      var (start, end) := a[i];
      if none || start >= prevEnd {
        prevEnd, none := end, false;
      } else {
        removed := removed + 1;
        prevEnd := if prevEnd < end then prevEnd else end;
      }
    }
    SweepStartAnswer(intervals);
  }

  method ReferencesAgree(intervals: seq<Interval>) returns (a: int, b: int)
    requires Proper(multiset(intervals))
    ensures a == b && MinRemovals(intervals, a)
  {
    a := EraseByEnd(intervals);
    b := EraseByStart(intervals);
    MinRemovalsUnique(intervals, a, b);
  }
}
