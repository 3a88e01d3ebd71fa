/** The generator's shuffle: in place, and fair in the sense that no order is favoured. */
module Shuffling {

  /** draws[i] is the partner that position i is swapped with, drawn from 0..i. */
  ghost predicate Legal(draws: seq<int>) {
    forall i :: 0 <= i < |draws| ==> 0 <= draws[i] <= i
  }

  function Swapped<T>(s: seq<T>, i: int, j: int): seq<T>
    requires 0 <= i < |s| && 0 <= j < |s|
  {
    s[i := s[j]][j := s[i]]
  }

  /** The order after the last item has been swapped with its partner and the items before it are shuffled. */
  function Shuffled<T>(s: seq<T>, draws: seq<int>): (r: seq<T>)
    requires |draws| == |s| && Legal(draws)
    ensures |r| == |s|
    decreases |s|
  {
    if |s| <= 1 then s
    else
      var n := |s| - 1;
      var t := Swapped(s, n, draws[n]);
      Shuffled(t[..n], draws[..n]) + [t[n]]
  }

  lemma ShuffledStep<T>(s: seq<T>, draws: seq<int>, i: nat, t: seq<T>)
    requires 1 <= i < |s| && |draws| == |s| && Legal(draws) && t == Swapped(s, i, draws[i])
    ensures Shuffled(s[..i + 1], draws[..i + 1]) + s[i + 1..] == Shuffled(t[..i], draws[..i]) + t[i..]
  {
    assert t[..i + 1] == Swapped(s[..i + 1], i, draws[i]);
    assert t[..i + 1][..i] == t[..i] && draws[..i + 1][..i] == draws[..i];
    assert [t[i]] + s[i + 1..] == t[i..];
  }

  /** Items behind position i are settled. */
  ghost predicate Settled<T>(s: seq<T>, draws: seq<int>, i: int, goal: seq<T>)
    requires |draws| == |s| && Legal(draws)
  {
    0 <= i < |s| && Shuffled(s[..i + 1], draws[..i + 1]) + s[i + 1..] == goal
  }

  lemma AllOpen<T>(s: seq<T>, draws: seq<int>)
    requires |draws| == |s| >= 1 && Legal(draws)
    ensures Settled(s, draws, |s| - 1, Shuffled(s, draws))
  {
    assert s[..|s|] == s && draws[..|s|] == draws;
  }

  lemma AllSettled<T>(s: seq<T>, draws: seq<int>, goal: seq<T>)
    requires |draws| == |s| && Legal(draws) && Settled(s, draws, 0, goal)
    ensures s == goal
  {
    assert s[..1] + s[1..] == s;
  }

  method Shuffle<T>(a: array<T>, draws: seq<int>)
    requires |draws| == a.Length && Legal(draws)
    modifies a
    ensures a[..] == Shuffled(old(a[..]), draws)
  {
    ghost var goal := Shuffled(a[..], draws);
    if a.Length == 0 { return; }
    var i := a.Length - 1;
    AllOpen(a[..], draws);
    while i > 0
      invariant Settled(a[..], draws, i, goal)
    {
      var j := draws[i];
      ghost var before := a[..];
      a[i], a[j] := a[j], a[i];
      ShuffledStep(before, draws, i, a[..]);
      i := i - 1;
    }
    AllSettled(a[..], draws, goal);
  }

  // ------------------------------------------------------------ orders

  lemma SwapPermutes<T>(s: seq<T>, i: int, j: int)
    requires 0 <= i < |s| && 0 <= j < |s|
    ensures multiset(Swapped(s, i, j)) == multiset(s)
  {
  }

  lemma SplitLast<T>(s: seq<T>)
    requires s != []
    ensures multiset(s) == multiset(s[..|s| - 1]) + multiset{s[|s| - 1]}
    ensures s == s[..|s| - 1] + [s[|s| - 1]]
  {
    assert s == s[..|s| - 1] + [s[|s| - 1]];
  }

  /** What the first swap decides. */
  lemma FirstSwap<T>(s: seq<T>, draws: seq<int>, n: nat, front: seq<T>, r: seq<T>)
    requires |s| == |draws| == n + 1 > 1 && Legal(draws) && r == Shuffled(s, draws)
    requires front == Swapped(s, n, draws[n])[..n]
    ensures |front| == n && r[n] == s[draws[n]] && Legal(draws[..n]) && r[..n] == Shuffled(front, draws[..n])
  {
  }

  /** The items left after the first swap, in any order, and then the item swapped to the end. */
  lemma FrontAndLast<T>(s: seq<T>, n: nat, j: int, front: seq<T>, r: seq<T>)
    requires |s| == |r| == n + 1 && 0 <= j <= n && front == Swapped(s, n, j)[..n]
    requires multiset(r[..n]) == multiset(front) && r[n] == s[j]
    ensures multiset(r) == multiset(s)
  {
    SwapPermutes(s, n, j);
    SplitLast(Swapped(s, n, j));
    SplitLast(r);
  }

  /** A shuffle loses and invents nothing. */
  lemma {:induction false} ShufflePermutes<T>(s: seq<T>, draws: seq<int>)
    requires |draws| == |s| && Legal(draws)
    ensures multiset(Shuffled(s, draws)) == multiset(s)
    decreases |s|
  {
    if |s| > 1 {
      var n := |s| - 1;
      var front := Swapped(s, n, draws[n])[..n];
      FirstSwap(s, draws, n, front, Shuffled(s, draws));
      ShufflePermutes(front, draws[..n]);
      FrontAndLast(s, n, draws[n], front, Shuffled(s, draws));
    }
  }

  ghost predicate Distinct<T>(s: seq<T>) {
    forall i, j :: 0 <= i < j < |s| ==> s[i] != s[j]
  }

  lemma FrontDistinct<T>(s: seq<T>, i: int, j: int)
    requires 0 <= i < |s| && 0 <= j < |s| && Distinct(s)
    ensures Distinct(Swapped(s, i, j)[..|s| - 1])
  {
  }

  lemma SameItem<T>(s: seq<T>, i: int, j: int)
    requires Distinct(s) && 0 <= i < |s| && 0 <= j < |s| && s[i] == s[j]
    ensures i == j
  {
  }

  lemma SameEnds<T>(d: seq<T>, e: seq<T>, n: nat)
    requires |d| == |e| == n + 1 && d[..n] == e[..n] && d[n] == e[n]
    ensures d == e
  {
    assert d == d[..n] + [d[n]] && e == e[..n] + [e[n]];
  }

  lemma SmallDraws(d: seq<int>, e: seq<int>)
    requires |d| == |e| <= 1 && Legal(d) && Legal(e)
    ensures d == e
  {
  }

  /** Different draws give different orders of distinct items. */
  lemma {:induction false} DrawsDetermined<T>(s: seq<T>, d: seq<int>, e: seq<int>)
    requires |d| == |e| == |s| && Legal(d) && Legal(e) && Distinct(s) && Shuffled(s, d) == Shuffled(s, e)
    ensures d == e
    decreases |s|
  {
    if |s| <= 1 {
      SmallDraws(d, e);
    } else {
      var n := |s| - 1;
      var front := Swapped(s, n, d[n])[..n];
      FirstSwap(s, d, n, front, Shuffled(s, d));
      FirstSwap(s, e, n, Swapped(s, n, e[n])[..n], Shuffled(s, e));
      SameItem(s, d[n], e[n]);
      FrontDistinct(s, n, d[n]);
      DrawsDetermined(front, d[..n], e[..n]);
      SameEnds(d, e, n);
    }
  }

  lemma FrontOfOrder<T>(s: seq<T>, p: seq<T>, n: nat, j: int, front: seq<T>)
    requires |s| == |p| == n + 1 && multiset(s) == multiset(p) && 0 <= j <= n && s[j] == p[n]
    requires front == Swapped(s, n, j)[..n]
    ensures multiset(front) == multiset(p[..n])
  {
    SwapPermutes(s, n, j);
    SplitLast(Swapped(s, n, j));
    SplitLast(p);
    Cancel(multiset(front), multiset(p[..n]), p[n]);
  }

  lemma Cancel<T>(a: multiset<T>, b: multiset<T>, x: T)
    requires a + multiset{x} == b + multiset{x}
    ensures a == b
  {
    assert a == (a + multiset{x}) - multiset{x} && b == (b + multiset{x}) - multiset{x};
  }

  lemma AddDraw<T>(s: seq<T>, p: seq<T>, n: nat, j: int, front: seq<T>, d: seq<int>, draws: seq<int>)
    requires |s| == |p| == n + 1 > 1 && 0 <= j <= n && s[j] == p[n] && front == Swapped(s, n, j)[..n]
    requires |d| == n && Legal(d) && Shuffled(front, d) == p[..n] && draws == d + [j]
    ensures Legal(draws) && Shuffled(s, draws) == p
  {
    assert draws[..n] == d;
    FirstSwap(s, draws, n, front, Shuffled(s, draws));
    SameEnds(Shuffled(s, draws), p, n);
  }

  /** Draws that produce a given order. */
  lemma {:induction false} DrawsFor<T>(s: seq<T>, p: seq<T>) returns (draws: seq<int>)
    requires |s| == |p| && multiset(s) == multiset(p)
    ensures |draws| == |s| && Legal(draws) && Shuffled(s, draws) == p
    decreases |s|
  {
    if |s| <= 1 {
      draws := seq(|s|, _ => 0);
      if |s| == 1 { assert s[0] in multiset(p); }
    } else {
      var n := |s| - 1;
      var j := IndexOf(s, p[n], multiset(p));
      var front := Swapped(s, n, j)[..n];
      FrontOfOrder(s, p, n, j, front);
      var d := DrawsFor(front, p[..n]);
      draws := d + [j];
      AddDraw(s, p, n, j, front, d, draws);
    }
  }

  lemma IndexOf<T>(s: seq<T>, x: T, m: multiset<T>) returns (j: int)
    requires m == multiset(s) && x in m
    ensures 0 <= j < |s| && s[j] == x
  {
    assert x in s;
    j :| 0 <= j < |s| && s[j] == x;
  }

  /** Every order comes from draws, and with distinct items from exactly one choice of them: n! choices, n! orders. */
  lemma EveryOrderOnce<T>(s: seq<T>, p: seq<T>) returns (draws: seq<int>)
    requires multiset(s) == multiset(p) && Distinct(s)
    ensures |draws| == |s| && Legal(draws) && Shuffled(s, draws) == p
    ensures forall d :: |d| == |s| && Legal(d) && Shuffled(s, d) == p ==> d == draws
  {
    assert |multiset(s)| == |s| && |multiset(p)| == |p|;
    draws := DrawsFor(s, p);
    forall d | |d| == |s| && Legal(d) && Shuffled(s, d) == p
      ensures d == draws
    {
      DrawsDetermined(s, d, draws);
    }
  }
}
