/** The generator's invalid trees: two entries of a search tree's level-order array are exchanged. */
module BrokenTrees {
  import opened LevelOrder
  import opened SearchTrees
  import SearchTreeNodes
  import Sh = Shuffling
  import TreeNodes

  // ------------------------------------------------------------ renaming values

  function MapSeq(f: int -> int, s: seq<int>): (r: seq<int>)
    ensures |r| == |s| && forall i :: 0 <= i < |s| ==> r[i] == f(s[i])
  {
    seq(|s|, i requires 0 <= i < |s| => f(s[i]))
  }

  function MapToken(f: int -> int, tok: Token<int>): Token<int> {
    if tok.Null? then Null else Num(f(tok.v))
  }

  function MapTokens(f: int -> int, ts: seq<Token<int>>): (r: seq<Token<int>>)
    ensures |r| == |ts| && forall i :: 0 <= i < |ts| ==> r[i] == MapToken(f, ts[i])
  {
    seq(|ts|, i requires 0 <= i < |ts| => MapToken(f, ts[i]))
  }

  function MapTree(f: int -> int, t: Tree<int>): Tree<int> {
    match t
    case Leaf => Leaf
    case Node(v, l, r) => Node(f(v), MapTree(f, l), MapTree(f, r))
  }

  /** The trees of one queue are those of another with all values renamed. */
  ghost predicate Renamed(f: int -> int, g: seq<Tree<int>>, g': seq<Tree<int>>) {
    |g| == |g'| && forall k :: 0 <= k < |g| ==> g'[k] == MapTree(f, g[k])
  }

  lemma KidsMap(f: int -> int, vals: seq<int>, l: Token<int>, r: Token<int>)
    requires vals != []
    ensures MapSeq(f, vals[1..] + Kids(l, r)) == MapSeq(f, vals)[1..] + Kids(MapToken(f, l), MapToken(f, r))
    ensures |Kids(l, r)| == |Kids(MapToken(f, l), MapToken(f, r))|
  {
  }

  lemma TailMap(f: int -> int, toks: seq<Token<int>>)
    requires toks != []
    ensures Second(MapTokens(f, toks)) == MapToken(f, Second(toks))
    ensures AfterTwo(MapTokens(f, toks)) == MapTokens(f, AfterTwo(toks))
  {
  }

  lemma ExpandsMap(f: int -> int, v: int, l: Token<int>, r: Token<int>,
                   g: seq<Tree<int>>, h: seq<Tree<int>>, g': seq<Tree<int>>, h': seq<Tree<int>>)
    requires Expands(v, l, r, g, h) && Expands(f(v), MapToken(f, l), MapToken(f, r), g', h') && |g| == |g'|
    requires Renamed(f, h, h')
    ensures Renamed(f, g, g')
  {
  }

  /** Reading renamed entries gives the same shape with renamed values. */
  lemma {:induction false} GrowMap(f: int -> int, vals: seq<int>, toks: seq<Token<int>>)
    ensures Renamed(f, Grow(vals, toks), Grow(MapSeq(f, vals), MapTokens(f, toks)))
    decreases |toks|
  {
    var vals', toks' := MapSeq(f, vals), MapTokens(f, toks);
    if vals != [] && toks != [] {
      var l, r := toks[0], Second(toks);
      var next := vals[1..] + Kids(l, r);
      KidsMap(f, vals, l, r);
      TailMap(f, toks);
      GrowMap(f, next, AfterTwo(toks));
      GrowExpands(vals, toks, next);
      GrowExpands(vals', toks', MapSeq(f, next));
      ExpandsMap(f, vals[0], l, r, Grow(vals, toks), Grow(next, AfterTwo(toks)),
                 Grow(vals', toks'), Grow(MapSeq(f, next), AfterTwo(toks')));
    }
  }

  lemma DecodeMap(f: int -> int, toks: seq<Token<int>>)
    ensures Decode(MapTokens(f, toks)) == MapTree(f, Decode(toks))
  {
    if toks != [] && toks[0].Num? {
      assert MapTokens(f, toks)[1..] == MapTokens(f, toks[1..]);
      assert MapSeq(f, [toks[0].v]) == [f(toks[0].v)];
      GrowMap(f, [toks[0].v], toks[1..]);
    }
  }

  lemma {:induction false} InOrderMap(f: int -> int, t: Tree<int>)
    ensures InOrder(MapTree(f, t)) == MapSeq(f, InOrder(t))
  {
    if t.Node? {
      InOrderMap(f, t.left);
      InOrderMap(f, t.right);
    }
  }

  // ------------------------------------------------------------ the entries of an array and the values of the tree

  function Nums(ts: seq<Token<int>>): seq<int> {
    if ts == [] then [] else (if ts[0].Num? then [ts[0].v] else []) + Nums(ts[1..])
  }

  lemma Regroup(a: seq<int>, b: seq<int>, c: seq<int>)
    ensures (a + b) + c == a + (b + c)
  {
  }

  lemma {:induction false} NumsConcat(a: seq<Token<int>>, b: seq<Token<int>>)
    ensures Nums(a + b) == Nums(a) + Nums(b)
  {
    if a == [] {
      assert a + b == b;
    } else {
      assert (a + b)[0] == a[0] && (a + b)[1..] == a[1..] + b;
      NumsConcat(a[1..], b);
      Regroup(if a[0].Num? then [a[0].v] else [], Nums(a[1..]), Nums(b));
    }
  }

  lemma {:induction false} NumsOfNulls(a: seq<Token<int>>)
    requires forall i :: 0 <= i < |a| ==> a[i].Null?
    ensures Nums(a) == []
  {
    if a != [] { NumsOfNulls(a[1..]); }
  }

  ghost function AllValues(q: seq<Tree<int>>): multiset<int> {
    if q == [] then multiset{} else multiset(InOrder(q[0])) + AllValues(q[1..])
  }

  lemma {:induction false} AllValuesConcat(p: seq<Tree<int>>, q: seq<Tree<int>>)
    ensures AllValues(p + q) == AllValues(p) + AllValues(q)
  {
    if p == [] {
      assert p + q == q;
    } else {
      assert (p + q)[1..] == p[1..] + q;
      AllValuesConcat(p[1..], q);
    }
  }

  lemma AllValuesOne(t: Tree<int>)
    ensures AllValues([t]) == multiset(InOrder(t))
  {
    assert [t][1..] == [];
    assert AllValues([t][1..]) == multiset{};
  }

  lemma AllValuesTwo(l: Tree<int>, r: Tree<int>)
    ensures AllValues([l, r]) == multiset(InOrder(l)) + multiset(InOrder(r))
  {
    assert [l, r] == [l] + [r];
    AllValuesConcat([l], [r]);
    AllValuesOne(l);
    AllValuesOne(r);
  }

  lemma NodeValues(t: Tree<int>)
    ensures multiset(InOrder(t)) == multiset(Nums([Head(t)])) + AllValues(Children(t))
  {
    match t
    case Leaf => NumsOfNulls([Head(t)]);
    case Node(v, l, r) =>
      AllValuesTwo(l, r);
      NumsOfOne(v);
      var a, b := multiset(InOrder(l)), multiset(InOrder(r));
      assert multiset(InOrder(t)) == a + multiset{v} + b;
  }

  lemma NumsOfOne(v: int)
    ensures Nums([Num(v)]) == [v]
  {
    assert [Num(v)][1..] == [];
  }

  /** A breadth-first walk meets every value. */
  lemma {:induction false} WalkValues(q: seq<Tree<int>>)
    ensures multiset(Nums(Walk(q))) == AllValues(q)
    decreases QueueWeight(q)
  {
    if q != [] {
      var next := q[1..] + Children(q[0]);
      WalkStep(q, next);
      WalkValues(next);
      NumsConcat([Head(q[0])], Walk(next));
      AllValuesConcat(q[1..], Children(q[0]));
      NodeValues(q[0]);
    }
  }

  lemma NumsTrim(all: seq<Token<int>>, front: seq<Token<int>>)
    requires front <= all && forall i :: |front| <= i < |all| ==> all[i].Null?
    ensures Nums(all) == Nums(front)
  {
    var n := |front|;
    assert all == front + all[n..];
    NumsConcat(front, all[n..]);
    NumsOfNulls(all[n..]);
  }

  lemma TrimmedValues(q: seq<Tree<int>>, all: seq<Token<int>>, front: seq<Token<int>>)
    requires all == Walk(q) && front == Trim(all)
    ensures multiset(Nums(front)) == AllValues(q)
  {
    WalkValues(q);
    NumsTrim(all, front);
  }

  lemma TokensValues(t: Tree<int>)
    ensures multiset(Nums(Tokens(t))) == multiset(InOrder(t))
  {
    TrimmedValues([t], Walk([t]), Tokens(t));
    AllValuesOne(t);
  }

  lemma {:induction false} NumsHas(ts: seq<Token<int>>, i: nat)
    requires i < |ts| && ts[i].Num?
    ensures ts[i].v in multiset(Nums(ts))
  {
    if i > 0 { NumsHas(ts[1..], i - 1); }
  }

  lemma NumsTwice(ts: seq<Token<int>>, i: nat, j: nat)
    requires i < j < |ts| && ts[i].Num? && ts[j].Num? && ts[i].v == ts[j].v
    ensures multiset(Nums(ts))[ts[i].v] >= 2
  {
    assert ts == ts[..j] + ts[j..];
    NumsConcat(ts[..j], ts[j..]);
    NumsHas(ts[..j], i);
    NumsHas(ts[j..], 0);
  }

  /** In the array of a search tree no number occurs twice. */
  lemma EntriesDiffer(t: Tree<int>, i: nat, j: nat)
    requires IsBst(t) && i < |Tokens(t)| && j < |Tokens(t)| && i != j && Tokens(t)[i].Num? && Tokens(t)[j].Num?
    ensures Tokens(t)[i].v != Tokens(t)[j].v
  {
    TokensValues(t);
    BstIffIncreasing(t);
    OnceEach(InOrder(t));
    if Tokens(t)[i].v == Tokens(t)[j].v {
      NumsTwice(Tokens(t), if i < j then i else j, if i < j then j else i);
    }
  }

  // ------------------------------------------------------------ the exchange

  function Exchange(x: int, y: int): int -> int {
    z => if z == x then y else if z == y then x else z
  }

  lemma SwapIsRenaming(t: Tree<int>, a: nat, b: nat)
    requires IsBst(t) && a < |Tokens(t)| && b < |Tokens(t)| && a != b && Tokens(t)[a].Num? && Tokens(t)[b].Num?
    ensures Sh.Swapped(Tokens(t), a, b) == MapTokens(Exchange(Tokens(t)[a].v, Tokens(t)[b].v), Tokens(t))
  {
    var ts := Tokens(t);
    forall k | 0 <= k < |ts|
      ensures Sh.Swapped(ts, a, b)[k] == MapToken(Exchange(ts[a].v, ts[b].v), ts[k])
    {
      if ts[k].Num? && k != a { EntriesDiffer(t, k, a); }
      if ts[k].Num? && k != b { EntriesDiffer(t, k, b); }
    }
  }

  lemma ExchangeBreaks(s: seq<int>, x: int, y: int)
    requires Increasing(s) && x in s && y in s && x != y
    ensures !Increasing(MapSeq(Exchange(x, y), s))
  {
    var i :| 0 <= i < |s| && s[i] == x;
    var j :| 0 <= j < |s| && s[j] == y;
    var r := MapSeq(Exchange(x, y), s);
    assert r[i] == y && r[j] == x;
    if i < j { assert s[i] < s[j]; } else { assert s[j] < s[i]; }
  }

  /** Exchanging any two numbers in the array of a search tree gives the array of a tree that is none. */
  lemma ExchangedIsNoBst(t: Tree<int>, a: nat, b: nat)
    requires IsBst(t) && a < |Tokens(t)| && b < |Tokens(t)| && a != b && Tokens(t)[a].Num? && Tokens(t)[b].Num?
    ensures !IsBst(Decode(Sh.Swapped(Tokens(t), a, b)))
    ensures multiset(InOrder(Decode(Sh.Swapped(Tokens(t), a, b)))) == multiset(InOrder(t))
  {
    var ts := Tokens(t);
    var x, y := ts[a].v, ts[b].v;
    var f := Exchange(x, y);
    SwapIsRenaming(t, a, b);
    DecodeMap(f, ts);
    DecodeTokens(t);
    InOrderMap(f, t);
    TokensValues(t);
    NumsHas(ts, a);
    NumsHas(ts, b);
    EntriesDiffer(t, a, b);
    BstIffIncreasing(t);
    BstIffIncreasing(MapTree(f, t));
    assert x in multiset(InOrder(t)) && y in multiset(InOrder(t));
    ExchangeBreaks(InOrder(t), x, y);
    ExchangeKeepsValues(InOrder(t), x, y);
  }

  lemma ExchangeKeepsValues(s: seq<int>, x: int, y: int)
    requires Increasing(s) && x in s && y in s && x != y
    ensures multiset(MapSeq(Exchange(x, y), s)) == multiset(s)
  {
    var i :| 0 <= i < |s| && s[i] == x;
    var j :| 0 <= j < |s| && s[j] == y;
    forall k | 0 <= k < |s|
      ensures Sh.Swapped(s, i, j)[k] == MapSeq(Exchange(x, y), s)[k]
    {
      assert k < i ==> s[k] < s[i];
      assert i < k ==> s[i] < s[k];
      assert k < j ==> s[k] < s[j];
      assert j < k ==> s[j] < s[k];
    }
    assert Sh.Swapped(s, i, j) == MapSeq(Exchange(x, y), s);
    Sh.SwapPermutes(s, i, j);
  }

  /** Every invalid tree the generator produces from distinct values is rejected by both references. */
  method BrokenIsRejected(values: seq<int>, draws: seq<int>, tree: seq<Token<int>>, a: nat, b: nat)
    returns (broken: seq<Token<int>>, iterative: bool, recursive: bool)
    requires |draws| == |values| && Sh.Legal(draws) && Sh.Distinct(values) && tree == RandomBst(values, draws)
    requires a < |tree| && b < |tree| && a != b && tree[a].Num? && tree[b].Num?
    ensures broken == Sh.Swapped(tree, a, b) && !iterative && !recursive
  {
    broken := tree[a := tree[b]][b := tree[a]];
    InsertAllSpec(Sh.Shuffled(values, draws));
    Sh.ShufflePermutes(values, draws);
    DistinctIffOnce(values);
    DistinctIffOnce(Sh.Shuffled(values, draws));
    ExchangedIsNoBst(InsertAll(Sh.Shuffled(values, draws)), a, b);
    var root, repr := TreeNodes.ReadTree(broken);
    iterative, recursive := SearchTreeNodes.ValidationsAgree(root, Decode(broken), repr);
  }
}
