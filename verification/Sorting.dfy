/** Sorting by a total order, and what equality of sorted sequences means. */
module Sorting {

  ghost predicate TotalOrder<T(!new)>(le: (T, T) -> bool) {
    (forall x :: le(x, x)) &&
    (forall x, y :: le(x, y) || le(y, x)) &&
    (forall x, y :: le(x, y) && le(y, x) ==> x == y) &&
    (forall x, y, z :: le(x, y) && le(y, z) ==> le(x, z))
  }

  ghost predicate Ordered<T(!new)>(s: seq<T>, le: (T, T) -> bool) {
    forall i, j :: 0 <= i < j < |s| ==> le(s[i], s[j])
  }

  function Insert<T>(x: T, s: seq<T>, le: (T, T) -> bool): seq<T> {
    if s == [] then [x]
    else if le(x, s[0]) then [x] + s
    else [s[0]] + Insert(x, s[1..], le)
  }

  function Sort<T>(s: seq<T>, le: (T, T) -> bool): seq<T> {
    if s == [] then [] else Insert(s[0], Sort(s[1..], le), le)
  }

  lemma OrderedCons<T(!new)>(x: T, s: seq<T>, le: (T, T) -> bool)
    requires TotalOrder(le) && Ordered(s, le)
    requires s != [] ==> le(x, s[0]) || forall y :: y in s ==> le(x, y)
    ensures Ordered([x] + s, le)
  {
  }

  lemma BagCons<T>(x: T, s: seq<T>)
    ensures multiset([x] + s) == multiset{x} + multiset(s)
  {
  }

  lemma BagHead<T>(s: seq<T>)
    requires s != []
    ensures s == [s[0]] + s[1..] && multiset(s) == multiset{s[0]} + multiset(s[1..])
  {
    assert s == [s[0]] + s[1..];
  }

  lemma InBag<T>(y: T, r: seq<T>, x: T, s: seq<T>)
    requires multiset(r) == multiset{x} + multiset(s) && y in r
    ensures y == x || y in s
  {
    assert y in multiset(r);
  }

  lemma SameBag<T>(a: seq<T>, b: seq<T>)
    requires multiset(a) == multiset(b)
    ensures |a| == |b| && forall y :: y in a ==> y in b
  {
    assert |multiset(a)| == |multiset(b)|;
    forall y | y in a
      ensures y in b
    {
      assert y in multiset(b);
    }
  }

  lemma LeastFirst<T(!new)>(y: T, s: seq<T>, le: (T, T) -> bool)
    requires TotalOrder(le) && Ordered(s, le) && y in s
    ensures le(s[0], y)
  {
    var k :| 0 <= k < |s| && s[k] == y;
    if k > 0 { assert le(s[0], s[k]); }
  }

  lemma {:induction false} InsertSpec<T(!new)>(x: T, s: seq<T>, le: (T, T) -> bool)
    requires TotalOrder(le) && Ordered(s, le)
    ensures Ordered(Insert(x, s, le), le)
    ensures multiset(Insert(x, s, le)) == multiset{x} + multiset(s)
  {
    if s == [] {
    } else if le(x, s[0]) {
      BagCons(x, s);
      OrderedCons(x, s, le);
    } else {
      var r := Insert(x, s[1..], le);
      InsertSpec(x, s[1..], le);
      BagCons(s[0], r);
      BagHead(s);
      forall y | y in r
        ensures le(s[0], y)
      {
        InBag(y, r, x, s[1..]);
        if y != x { LeastFirst(y, s, le); }
      }
      OrderedCons(s[0], r, le);
    }
  }

  lemma {:induction false} SortSpec<T(!new)>(s: seq<T>, le: (T, T) -> bool)
    requires TotalOrder(le)
    ensures Ordered(Sort(s, le), le)
    ensures multiset(Sort(s, le)) == multiset(s)
    ensures |Sort(s, le)| == |s|
  {
    if s != [] {
      SortSpec(s[1..], le);
      InsertSpec(s[0], Sort(s[1..], le), le);
      BagHead(s);
    }
    SameBag(Sort(s, le), s);
  }

  lemma SameHead<T(!new)>(a: seq<T>, b: seq<T>, le: (T, T) -> bool)
    requires TotalOrder(le) && Ordered(a, le) && Ordered(b, le) && multiset(a) == multiset(b) && a != [] && b != []
    ensures a[0] == b[0] && multiset(a[1..]) == multiset(b[1..])
  {
    SameBag(a, b);
    SameBag(b, a);
    LeastFirst(b[0], a, le);
    LeastFirst(a[0], b, le);
    BagHead(a);
    BagHead(b);
    CancelOne(a[0], multiset(a[1..]), multiset(b[1..]));
  }

  lemma {:induction false} OrderedUnique<T(!new)>(a: seq<T>, b: seq<T>, le: (T, T) -> bool)
    requires TotalOrder(le) && Ordered(a, le) && Ordered(b, le) && multiset(a) == multiset(b)
    ensures a == b
  {
    SameBag(a, b);
    if a != [] {
      SameHead(a, b, le);
      OrderedUnique(a[1..], b[1..], le);
      assert a == [a[0]] + a[1..] && b == [b[0]] + b[1..];
    }
  }

  /** Two sequences sort to the same result exactly when they are permutations of each other. */
  lemma SortCanonical<T(!new)>(a: seq<T>, b: seq<T>, le: (T, T) -> bool)
    requires TotalOrder(le)
    ensures Sort(a, le) == Sort(b, le) <==> multiset(a) == multiset(b)
  {
    SortSpec(a, le);
    SortSpec(b, le);
    if multiset(a) == multiset(b) {
      OrderedUnique(Sort(a, le), Sort(b, le), le);
    }
  }

  // ------------------------------------------------------------ the order of strings

  predicate StrLe(a: string, b: string) {
    a == "" || (b != "" && (a[0] < b[0] || (a[0] == b[0] && StrLe(a[1..], b[1..]))))
  }

  lemma {:induction false} StrLeRefl(a: string)
    ensures StrLe(a, a)
  {
    if a != "" { StrLeRefl(a[1..]); }
  }

  lemma {:induction false} StrLeTotal(a: string, b: string)
    ensures StrLe(a, b) || StrLe(b, a)
  {
    if a != "" && b != "" && a[0] == b[0] { StrLeTotal(a[1..], b[1..]); }
  }

  lemma {:induction false} StrLeAnti(a: string, b: string)
    requires StrLe(a, b) && StrLe(b, a)
    ensures a == b
  {
    if a != "" {
      StrLeAnti(a[1..], b[1..]);
      assert a == [a[0]] + a[1..] && b == [b[0]] + b[1..];
    }
  }

  lemma {:induction false} StrLeTrans(a: string, b: string, c: string)
    requires StrLe(a, b) && StrLe(b, c)
    ensures StrLe(a, c)
  {
    if a != "" && a[0] == b[0] && b[0] == c[0] { StrLeTrans(a[1..], b[1..], c[1..]); }
  }

  lemma StrLeOrder()
    ensures TotalOrder(StrLe)
  {
    forall x { StrLeRefl(x); }
    forall x, y { StrLeTotal(x, y); }
    forall x, y | StrLe(x, y) && StrLe(y, x) ensures x == y { StrLeAnti(x, y); }
    forall x, y, z | StrLe(x, y) && StrLe(y, z) ensures StrLe(x, z) { StrLeTrans(x, y, z); }
  }

  // ------------------------------------------------------------ images of multisets

  function Image<T, U>(f: T -> U, s: seq<T>): (r: seq<U>)
    ensures |r| == |s| && forall i :: 0 <= i < |r| ==> r[i] == f(s[i])
  {
    seq(|s|, i requires 0 <= i < |s| => f(s[i]))
  }

  lemma RemoveAt<T>(s: seq<T>, j: nat)
    requires j < |s|
    ensures multiset(s) == multiset{s[j]} + multiset(s[..j] + s[j + 1..])
  {
    assert s == s[..j] + [s[j]] + s[j + 1..];
  }

  function Without<T>(s: seq<T>, j: nat): seq<T>
    requires j < |s|
  {
    s[..j] + s[j + 1..]
  }

  lemma ImageWithout<T, U>(f: T -> U, s: seq<T>, j: nat)
    requires j < |s|
    ensures multiset(Image(f, s)) == multiset{f(s[j])} + multiset(Image(f, Without(s, j)))
  {
    assert Image(f, Without(s, j)) == Without(Image(f, s), j);
    RemoveAt(Image(f, s), j);
  }

  lemma CancelOne<T>(x: T, a: multiset<T>, b: multiset<T>)
    requires multiset{x} + a == multiset{x} + b
    ensures a == b
  {
    assert a == (multiset{x} + a) - multiset{x};
    assert b == (multiset{x} + b) - multiset{x};
  }

  /** When f distinguishes only what g distinguishes, equal images under g give equal images under f. */
  lemma {:induction false} ImageOfKernel<T(!new), U(!new), V(!new)>(f: T -> U, g: T -> V, a: seq<T>, b: seq<T>)
    requires forall x, y :: g(x) == g(y) ==> f(x) == f(y)
    requires multiset(Image(g, a)) == multiset(Image(g, b))
    ensures multiset(Image(f, a)) == multiset(Image(f, b))
    decreases |a|
  {
    assert |multiset(Image(g, a))| == |a| && |multiset(Image(g, b))| == |b|;
    if a != [] {
      assert Image(g, a)[0] in multiset(Image(g, b));
      var j :| 0 <= j < |b| && Image(g, b)[j] == Image(g, a)[0];
      ImageWithout(g, a, 0);
      ImageWithout(g, b, j);
      CancelOne(g(a[0]), multiset(Image(g, Without(a, 0))), multiset(Image(g, Without(b, j))));
      ImageOfKernel(f, g, Without(a, 0), Without(b, j));
      ImageWithout(f, a, 0);
      ImageWithout(f, b, j);
    }
  }

  /** Two maps with the same kernel agree on which sequences have equal images as multisets. */
  lemma SameKernel<T(!new), U(!new), V(!new)>(f: T -> U, g: T -> V, a: seq<T>, b: seq<T>)
    requires forall x, y :: g(x) == g(y) <==> f(x) == f(y)
    ensures multiset(Image(f, a)) == multiset(Image(f, b)) <==> multiset(Image(g, a)) == multiset(Image(g, b))
  {
    if multiset(Image(g, a)) == multiset(Image(g, b)) { ImageOfKernel(f, g, a, b); }
    if multiset(Image(f, a)) == multiset(Image(f, b)) { ImageOfKernel(g, f, a, b); }
  }

  // ------------------------------------------------------------ stable sort by an integer key

  function InsertByKey<T>(x: T, s: seq<T>, key: T -> int): seq<T> {
    if s == [] then [x]
    else if key(x) <= key(s[0]) then [x] + s
    else [s[0]] + InsertByKey(x, s[1..], key)
  }

  function SortByKey<T>(s: seq<T>, key: T -> int): seq<T> {
    if s == [] then [] else InsertByKey(s[0], SortByKey(s[1..], key), key)
  }

  ghost predicate OrderedByKey<T>(s: seq<T>, key: T -> int) {
    forall i, j :: 0 <= i < j < |s| ==> key(s[i]) <= key(s[j])
  }

  lemma OrderedByKeyCons<T>(x: T, s: seq<T>, key: T -> int)
    requires OrderedByKey(s, key)
    requires (s != [] ==> key(x) <= key(s[0])) || forall i :: 0 <= i < |s| ==> key(x) <= key(s[i])
    ensures OrderedByKey([x] + s, key)
  {
  }

  lemma LeastKeyFirst<T>(y: T, s: seq<T>, key: T -> int)
    requires OrderedByKey(s, key) && y in s
    ensures key(s[0]) <= key(y)
  {
    var k :| 0 <= k < |s| && s[k] == y;
    if k > 0 { assert key(s[0]) <= key(s[k]); }
  }

  lemma {:induction false} InsertByKeySpec<T>(x: T, s: seq<T>, key: T -> int)
    requires OrderedByKey(s, key)
    ensures multiset(InsertByKey(x, s, key)) == multiset{x} + multiset(s)
    ensures OrderedByKey(InsertByKey(x, s, key), key)
  {
    if s == [] {
    } else if key(x) <= key(s[0]) {
      BagCons(x, s);
      OrderedByKeyCons(x, s, key);
    } else {
      var r := InsertByKey(x, s[1..], key);
      InsertByKeySpec(x, s[1..], key);
      BagCons(s[0], r);
      BagHead(s);
      forall i | 0 <= i < |r|
        ensures key(s[0]) <= key(r[i])
      {
        InBag(r[i], r, x, s[1..]);
        if r[i] != x { LeastKeyFirst(r[i], s, key); }
      }
      OrderedByKeyCons(s[0], r, key);
    }
  }

  lemma {:induction false} SortByKeySpec<T>(s: seq<T>, key: T -> int)
    ensures multiset(SortByKey(s, key)) == multiset(s) && OrderedByKey(SortByKey(s, key), key)
    ensures |SortByKey(s, key)| == |s|
  {
    if s != [] {
      SortByKeySpec(s[1..], key);
      InsertByKeySpec(s[0], SortByKey(s[1..], key), key);
      BagHead(s);
    }
    SameBag(SortByKey(s, key), s);
  }
}
