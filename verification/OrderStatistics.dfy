/** The element of rank k of a collection of integers, found without or with sorting it. */
module OrderStatistics {
  import S = Sorting

  predicate AtMost(x: int, y: int) {
    x <= y
  }

  /** How many elements of s are smaller than v. */
  function Below(s: seq<int>, v: int): nat {
    if s == [] then 0 else (if s[0] < v then 1 else 0) + Below(s[1..], v)
  }

  /** How many are not larger. */
  function UpTo(s: seq<int>, v: int): nat {
    if s == [] then 0 else (if s[0] <= v then 1 else 0) + UpTo(s[1..], v)
  }

  /** v has rank k (from 0) among the elements of s: fewer than k + 1 are smaller, more than k are not larger. */
  ghost predicate HasRank(s: seq<int>, k: int, v: int) {
    v in s && Below(s, v) <= k < UpTo(s, v)
  }

  lemma {:induction false} BelowUpTo(s: seq<int>, v: int, w: int)
    requires v < w
    ensures UpTo(s, v) <= Below(s, w)
  {
    if s != [] { BelowUpTo(s[1..], v, w); }
  }

  lemma RankUnique(s: seq<int>, k: int, v: int, w: int)
    requires HasRank(s, k, v) && HasRank(s, k, w)
    ensures v == w
  {
    if v < w { BelowUpTo(s, v, w); }
    if w < v { BelowUpTo(s, w, v); }
  }

  lemma {:induction false} CountConcat(a: seq<int>, b: seq<int>, v: int)
    ensures Below(a + b, v) == Below(a, v) + Below(b, v)
    ensures UpTo(a + b, v) == UpTo(a, v) + UpTo(b, v)
  {
    if a == [] {
      assert a + b == b;
    } else {
      assert (a + b)[1..] == a[1..] + b;
      CountConcat(a[1..], b, v);
    }
  }

  lemma RankCommutes(a: seq<int>, b: seq<int>, k: int, v: int)
    requires HasRank(b + a, k, v)
    ensures HasRank(a + b, k, v)
  {
    CountConcat(a, b, v);
    CountConcat(b, a, v);
  }

  // ------------------------------------------------------------ sorting keeps the counts

  lemma {:induction false} CountInsert(x: int, s: seq<int>, v: int)
    ensures Below(S.Insert(x, s, AtMost), v) == (if x < v then 1 else 0) + Below(s, v)
    ensures UpTo(S.Insert(x, s, AtMost), v) == (if x <= v then 1 else 0) + UpTo(s, v)
  {
    if s == [] || AtMost(x, s[0]) {
      assert ([x] + s)[1..] == s;
    } else {
      var r := S.Insert(x, s[1..], AtMost);
      CountInsert(x, s[1..], v);
      assert ([s[0]] + r)[1..] == r;
    }
  }

  lemma {:induction false} CountSort(s: seq<int>, v: int)
    ensures Below(S.Sort(s, AtMost), v) == Below(s, v)
    ensures UpTo(S.Sort(s, AtMost), v) == UpTo(s, v)
  {
    if s != [] {
      CountSort(s[1..], v);
      CountInsert(s[0], S.Sort(s[1..], AtMost), v);
    }
  }

  /** Permutations have the same ranks. */
  lemma RankOfPermutation(a: seq<int>, b: seq<int>, k: int, v: int)
    requires multiset(a) == multiset(b) && HasRank(a, k, v)
    ensures HasRank(b, k, v)
  {
    AtMostIsTotal();
    S.SortCanonical(a, b, AtMost);
    CountSort(a, v);
    CountSort(b, v);
    assert v in multiset(b);
  }

  lemma AtMostIsTotal()
    ensures S.TotalOrder(AtMost)
  {
  }

  // ------------------------------------------------------------ ascending sequences

  predicate Ascending(s: seq<int>) {
    forall i, j :: 0 <= i < j < |s| ==> s[i] <= s[j]
  }

  lemma {:induction false} AllUpTo(s: seq<int>, v: int)
    requires forall p :: 0 <= p < |s| ==> s[p] <= v
    ensures UpTo(s, v) == |s|
  {
    if s != [] { AllUpTo(s[1..], v); }
  }

  lemma {:induction false} NoneBelow(s: seq<int>, v: int)
    requires forall p :: 0 <= p < |s| ==> s[p] >= v
    ensures Below(s, v) == 0
  {
    if s != [] { NoneBelow(s[1..], v); }
  }

  lemma {:induction false} CountsAtMostLength(s: seq<int>, v: int)
    ensures Below(s, v) <= |s| && UpTo(s, v) <= |s|
  {
    if s != [] { CountsAtMostLength(s[1..], v); }
  }

  /** Everything before position k is at most v. */
  lemma LowPart(s: seq<int>, k: int, v: int)
    requires 0 <= k <= |s| && forall p :: 0 <= p < k ==> s[p] <= v
    ensures k <= UpTo(s, v)
  {
    assert s == s[..k] + s[k..];
    CountConcat(s[..k], s[k..], v);
    AllUpTo(s[..k], v);
  }

  /** Everything from position k on is at least v. */
  lemma HighPart(s: seq<int>, k: int, v: int)
    requires 0 <= k <= |s| && forall p :: k <= p < |s| ==> s[p] >= v
    ensures Below(s, v) <= k
  {
    assert s == s[..k] + s[k..];
    CountConcat(s[..k], s[k..], v);
    NoneBelow(s[k..], v);
    CountsAtMostLength(s[..k], v);
  }

  /** A position with nothing larger before it and nothing smaller behind it has its rank. */
  lemma PivotRank(s: seq<int>, k: int)
    requires 0 <= k < |s|
    requires forall p :: 0 <= p < k ==> s[p] <= s[k]
    requires forall p :: k < p < |s| ==> s[p] >= s[k]
    ensures HasRank(s, k, s[k])
  {
    LowPart(s, k + 1, s[k]);
    HighPart(s, k, s[k]);
  }

  lemma SortedRank(s: seq<int>, k: int)
    requires 0 <= k < |s|
    ensures |S.Sort(s, AtMost)| == |s| && HasRank(s, k, S.Sort(s, AtMost)[k])
  {
    var t := S.Sort(s, AtMost);
    AtMostIsTotal();
    S.SortSpec(s, AtMost);
    forall p | 0 <= p < k ensures t[p] <= t[k] { assert AtMost(t[p], t[k]); }
    forall p | k < p < |s| ensures t[p] >= t[k] { assert AtMost(t[k], t[p]); }
    PivotRank(t, k);
    RankOfPermutation(t, s, k, t[k]);
  }
}
