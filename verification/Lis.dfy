/** Longest increasing subsequence: patience sorting and the quadratic dynamic program. */
module Lis {

  /** ix lists positions of an increasing subsequence of the first n values. */
  ghost predicate Increasing(nums: seq<int>, n: nat, ix: seq<nat>) {
    n <= |nums| && (forall a :: 0 <= a < |ix| ==> ix[a] < n) &&
    forall a, b :: 0 <= a < b < |ix| ==> ix[a] < ix[b] && nums[ix[a]] < nums[ix[b]]
  }

  /** A non-empty increasing subsequence whose last position is i. */
  ghost predicate EndsAt(nums: seq<int>, i: nat, ix: seq<nat>) {
    i < |nums| && |ix| >= 1 && Increasing(nums, i + 1, ix) && ix[|ix| - 1] == i
  }

  ghost predicate IsLength(nums: seq<int>, r: int) {
    (exists ix :: |ix| == r && Increasing(nums, |nums|, ix)) &&
    forall ix :: Increasing(nums, |nums|, ix) ==> |ix| <= r
  }

  lemma LengthUnique(nums: seq<int>, a: int, b: int)
    requires IsLength(nums, a) && IsLength(nums, b)
    ensures a == b
  {
    var x :| |x| == a && Increasing(nums, |nums|, x);
    var y :| |y| == b && Increasing(nums, |nums|, y);
  }

  lemma Append(nums: seq<int>, i: nat, ix: seq<nat>)
    requires i < |nums| && Increasing(nums, i, ix) && (ix == [] || nums[ix[|ix| - 1]] < nums[i])
    ensures EndsAt(nums, i, ix + [i]) && |ix + [i]| == |ix| + 1
  {
    var jx := ix + [i];
    forall a, b | 0 <= a < b < |jx|
      ensures jx[a] < jx[b] && nums[jx[a]] < nums[jx[b]]
    {
      if b == |ix| && a < |ix| - 1 { assert nums[ix[a]] < nums[ix[|ix| - 1]]; }
    }
  }

  lemma Init(nums: seq<int>, i: nat, ix: seq<nat>)
    requires EndsAt(nums, i, ix)
    ensures Increasing(nums, i, ix[..|ix| - 1])
    ensures |ix| >= 2 ==> ix[|ix| - 2] < i && nums[ix[|ix| - 2]] < nums[i] &&
                          EndsAt(nums, ix[|ix| - 2], ix[..|ix| - 1])
  {
  }

  // ------------------------------------------------------------ patience sorting

  ghost predicate Sorted(s: seq<int>) {
    forall a, b :: 0 <= a < b < |s| ==> s[a] < s[b]
  }

  /** Some increasing subsequence of the first n values has length len and ends in the value v. */
  ghost predicate Reached(nums: seq<int>, n: nat, len: nat, v: int) {
    exists i: nat, ix :: i < n && |ix| == len && EndsAt(nums, i, ix) && nums[i] == v
  }

  /** tails[j] is the value in which some increasing subsequence of length j + 1 ends. */
  ghost predicate Attained(nums: seq<int>, n: nat, tails: seq<int>) {
    n <= |nums| &&
    forall j :: 0 <= j < |tails| ==> Reached(nums, n, j + 1, tails[j])
  }

  /** No increasing subsequence is longer than tails, or ends lower than tails says for its length. */
  ghost predicate Least(nums: seq<int>, n: nat, tails: seq<int>) {
    n <= |nums| &&
    forall i: nat, ix :: i < n && EndsAt(nums, i, ix) ==> |ix| <= |tails| && tails[|ix| - 1] <= nums[i]
  }

  /** The slot a value goes to: everything before is smaller, everything from there on is not. */
  ghost predicate Slot(tails: seq<int>, x: int, lo: nat) {
    lo <= |tails| && (forall j :: 0 <= j < lo ==> tails[j] < x) && forall j :: lo <= j < |tails| ==> x <= tails[j]
  }

  function Put(tails: seq<int>, lo: nat, x: int): seq<int>
    requires lo <= |tails|
  {
    if lo == |tails| then tails + [x] else tails[lo := x]
  }

  lemma PutSorted(tails: seq<int>, x: int, lo: nat)
    requires Sorted(tails) && Slot(tails, x, lo)
    ensures Sorted(Put(tails, lo, x))
  {
  }

  lemma PutAttained(nums: seq<int>, n: nat, tails: seq<int>, lo: nat)
    requires n < |nums| && Attained(nums, n, tails) && Slot(tails, nums[n], lo)
    ensures Attained(nums, n + 1, Put(tails, lo, nums[n]))
  {
    var next := Put(tails, lo, nums[n]);
    forall j | 0 <= j < |next|
      ensures Reached(nums, n + 1, j + 1, next[j])
    {
      if j == lo {
        if lo == 0 {
          Append(nums, n, []);
          assert EndsAt(nums, n, [] + [n]);
        } else {
          assert Reached(nums, n, lo - 1 + 1, tails[lo - 1]);
          var i: nat, ix :| i < n && |ix| == lo && EndsAt(nums, i, ix) && nums[i] == tails[lo - 1];
          Append(nums, n, ix);
        }
      } else {
        assert Reached(nums, n, j + 1, tails[j]);
        var i: nat, ix :| i < n && |ix| == j + 1 && EndsAt(nums, i, ix) && nums[i] == tails[j];
        assert i < n + 1;
      }
    }
  }

  lemma PutLeast(nums: seq<int>, n: nat, tails: seq<int>, lo: nat)
    requires n < |nums| && Least(nums, n, tails) && Slot(tails, nums[n], lo)
    ensures Least(nums, n + 1, Put(tails, lo, nums[n]))
  {
    var next := Put(tails, lo, nums[n]);
    forall i: nat, ix | i < n + 1 && EndsAt(nums, i, ix)
      ensures |ix| <= |next| && next[|ix| - 1] <= nums[i]
    {
      if i == n {
        Init(nums, n, ix);
        if |ix| >= 2 {
          assert tails[|ix| - 2] <= nums[ix[|ix| - 2]] < nums[n];
        }
        assert |ix| - 1 <= lo;
      } else {
        assert |ix| <= |tails| && tails[|ix| - 1] <= nums[i];
      }
    }
  }

  method FindSlot(tails: seq<int>, x: int) returns (lo: nat)
    requires Sorted(tails)
    ensures Slot(tails, x, lo)
  {
    lo := 0;
    var hi := |tails|;
    while lo < hi
      invariant 0 <= lo <= hi <= |tails|
      invariant forall j :: 0 <= j < lo ==> tails[j] < x
      invariant forall j :: hi <= j < |tails| ==> x <= tails[j]
      decreases hi - lo
    {
      var mid := (lo + hi) / 2;
      if tails[mid] < x {
        lo := mid + 1;
      } else {
        hi := mid;
      }
    }
  }

  lemma PatienceDone(nums: seq<int>, tails: seq<int>)
    requires Attained(nums, |nums|, tails) && Least(nums, |nums|, tails)
    ensures IsLength(nums, |tails|)
  {
    if |tails| > 0 {
      assert Reached(nums, |nums|, |tails| - 1 + 1, tails[|tails| - 1]);
      var i: nat, ix :| i < |nums| && |ix| == |tails| && EndsAt(nums, i, ix) && nums[i] == tails[|tails| - 1];
      assert Increasing(nums, |nums|, ix);
    } else {
      assert Increasing(nums, |nums|, []);
    }
    forall ix | Increasing(nums, |nums|, ix)
      ensures |ix| <= |tails|
    {
      if |ix| > 0 { assert EndsAt(nums, ix[|ix| - 1], ix); }
    }
  }

  /** The stored reference. */
  method LengthPatience(nums: seq<int>) returns (r: nat)
    ensures IsLength(nums, r)
  {
    var tails: seq<int> := [];
    for n := 0 to |nums|
      invariant Sorted(tails) && Attained(nums, n, tails) && Least(nums, n, tails)
    {
      var lo := FindSlot(tails, nums[n]);
      PutSorted(tails, nums[n], lo);
      PutAttained(nums, n, tails, lo);
      PutLeast(nums, n, tails, lo);
      tails := Put(tails, lo, nums[n]);
    }
    PatienceDone(nums, tails);
    r := |tails|;
  }

  // ------------------------------------------------------------ quadratic dynamic program

  /** len is the length of the longest increasing subsequence ending at i, among those whose last but one
      position lies before m. */
  ghost predicate BestUpTo(nums: seq<int>, i: nat, m: nat, len: nat) {
    (exists ix :: |ix| == len && EndsAt(nums, i, ix)) &&
    forall ix :: EndsAt(nums, i, ix) && (|ix| >= 2 ==> ix[|ix| - 2] < m) ==> |ix| <= len
  }

  lemma SingletonBest(nums: seq<int>, i: nat)
    requires i < |nums|
    ensures BestUpTo(nums, i, 0, 1)
  {
    assert EndsAt(nums, i, [i]);
  }

  lemma BestStep(nums: seq<int>, i: nat, j: nat, len: nat, lenJ: nat)
    requires j < i < |nums| && BestUpTo(nums, i, j, len) && BestUpTo(nums, j, j, lenJ)
    ensures BestUpTo(nums, i, j + 1, if nums[j] < nums[i] && lenJ + 1 > len then lenJ + 1 else len)
  {
    var next := if nums[j] < nums[i] && lenJ + 1 > len then lenJ + 1 else len;
    if next != len {
      var ix :| |ix| == lenJ && EndsAt(nums, j, ix);
      Append(nums, i, ix);
      assert EndsAt(nums, i, ix + [i]);
    }
    forall ix | EndsAt(nums, i, ix) && (|ix| >= 2 ==> ix[|ix| - 2] < j + 1)
      ensures |ix| <= next
    {
      Init(nums, i, ix);
      if |ix| >= 2 && ix[|ix| - 2] == j {
        assert EndsAt(nums, j, ix[..|ix| - 1]);
        assert |ix| - 1 <= lenJ;
      }
    }
  }

  ghost predicate Filled(nums: seq<int>, best: seq<int>, n: nat) {
    |best| == |nums| && n <= |nums| && forall i :: 0 <= i < n ==> best[i] >= 1 && BestUpTo(nums, i, i, best[i])
  }

  method FillOne(nums: seq<int>, best: array<int>, i: nat)
    requires best.Length == |nums| && i < |nums| && Filled(nums, best[..], i) && best[i] == 1
    modifies best
    ensures Filled(nums, best[..], i + 1)
    ensures best[i + 1..] == old(best[i + 1..])
  {
    SingletonBest(nums, i);
    for j := 0 to i
      invariant Filled(nums, best[..], i) && best[i] >= 1 && BestUpTo(nums, i, j, best[i])
      invariant best[i + 1..] == old(best[i + 1..])
    {
      assert BestUpTo(nums, j, j, best[..][j]);
      BestStep(nums, i, j, best[i], best[j]);
      if nums[j] < nums[i] && best[j] + 1 > best[i] {
        best[i] := best[j] + 1;
      }
    }
  }

  lemma DynamicDone(nums: seq<int>, best: seq<int>, at: nat)
    requires Filled(nums, best, |nums|) && at < |nums| && forall i :: 0 <= i < |nums| ==> best[i] <= best[at]
    ensures IsLength(nums, best[at])
  {
    var ix :| |ix| == best[at] && EndsAt(nums, at, ix);
    assert Increasing(nums, |nums|, ix);
    forall jx | Increasing(nums, |nums|, jx)
      ensures |jx| <= best[at]
    {
      if |jx| > 0 {
        var i := jx[|jx| - 1];
        assert EndsAt(nums, i, jx);
        assert BestUpTo(nums, i, i, best[i]);
      }
    }
  }

  method MaxOf(best: array<int>) returns (at: nat)
    requires best.Length > 0
    ensures at < best.Length && forall i :: 0 <= i < best.Length ==> best[i] <= best[at]
  {
    at := 0;
    for i := 1 to best.Length
      invariant at < best.Length && forall j :: 0 <= j < i ==> best[j] <= best[at]
    {
      if best[at] < best[i] { at := i; }
    }
  }

  /** The second reference. */
  method LengthDynamic(nums: seq<int>) returns (r: int)
    requires |nums| >= 1
    ensures IsLength(nums, r)
  {
    var best := new int[|nums|](_ => 1);
    for i := 0 to |nums|
      invariant Filled(nums, best[..], i) && forall k :: i <= k < |nums| ==> best[k] == 1
    {
      FillOne(nums, best, i);
      assert forall k :: i + 1 <= k < |nums| ==> best[k] == best[i + 1..][k - (i + 1)];
    }
    var at := MaxOf(best);
    DynamicDone(nums, best[..], at);
    r := best[at];
  }

  method ReferencesAgree(nums: seq<int>) returns (a: int, b: int)
    requires |nums| >= 1
    ensures a == b && IsLength(nums, a)
  {
    a := LengthPatience(nums);
    b := LengthDynamic(nums);
    LengthUnique(nums, a, b);
  }
}
