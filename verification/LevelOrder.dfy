/** Binary trees and their level-order array form.

    `Tokens` is the printer (a breadth-first walk that emits a null for every
    missing child and finally drops trailing nulls); `Decode` is the reader of
    the generated harness (a queue of nodes still waiting for their children). */
module LevelOrder {

  datatype Tree<T> = Leaf | Node(val: T, left: Tree<T>, right: Tree<T>)

  /** An entry of a level-order array. */
  datatype Token<T> = Null | Num(v: T)

  function Weight<T>(t: Tree<T>): nat {
    match t
    case Leaf => 1
    case Node(_, l, r) => 1 + Weight(l) + Weight(r)
  }

  function QueueWeight<T>(q: seq<Tree<T>>): nat {
    if q == [] then 0 else Weight(q[0]) + QueueWeight(q[1..])
  }

  lemma {:induction false} QueueWeightAppend<T>(q: seq<Tree<T>>, p: seq<Tree<T>>)
    ensures QueueWeight(q + p) == QueueWeight(q) + QueueWeight(p)
  {
    if q == [] {
      assert q + p == p;
    } else {
      assert (q + p)[1..] == q[1..] + p;
      QueueWeightAppend(q[1..], p);
    }
  }

  lemma QueueWeightStep<T>(q: seq<Tree<T>>)
    requires q != []
    ensures q[0].Leaf? ==> QueueWeight(q[1..]) == QueueWeight(q) - 1
    ensures q[0].Node? ==> QueueWeight(q[1..] + [q[0].left, q[0].right]) == QueueWeight(q) - 1
  {
    if q[0].Node? {
      var kids := [q[0].left, q[0].right];
      QueueWeightAppend(q[1..], kids);
      assert kids[1..] == [q[0].right];
      assert kids[1..][1..] == [];
    }
  }

  // ------------------------------------------------------------ printer

  function Head<T>(t: Tree<T>): Token<T> {
    if t.Leaf? then Null else Num(t.val)
  }

  function Children<T>(t: Tree<T>): seq<Tree<T>> {
    if t.Leaf? then [] else [t.left, t.right]
  }

  /** The untrimmed breadth-first print of a queue of trees. */
  function Walk<T>(q: seq<Tree<T>>): (out: seq<Token<T>>)
    decreases QueueWeight(q)
  {
    if q == [] then []
    else
      QueueWeightStep(q);
      assert q[0].Leaf? ==> q[1..] + Children(q[0]) == q[1..];
      [Head(q[0])] + Walk(q[1..] + Children(q[0]))
  }

  lemma WalkStep<T>(q: seq<Tree<T>>, next: seq<Tree<T>>)
    requires q != [] && next == q[1..] + Children(q[0])
    ensures Walk(q) == [Head(q[0])] + Walk(next)
    ensures QueueWeight(next) == QueueWeight(q) - 1
  {
    QueueWeightStep(q);
    assert q[0].Leaf? ==> next == q[1..];
  }

  /** Drops trailing nulls. */
  function Trim<T>(a: seq<Token<T>>): (b: seq<Token<T>>)
    ensures b <= a
    ensures b == [] || b[|b| - 1].Num?
    ensures forall i :: |b| <= i < |a| ==> a[i].Null?
  {
    if a != [] && a[|a| - 1].Null? then Trim(a[..|a| - 1]) else a
  }

  /** The level-order array of a tree. */
  function Tokens<T>(t: Tree<T>): seq<Token<T>> {
    Trim(Walk([t]))
  }

  // ------------------------------------------------------------ reader

  function Kids<T>(l: Token<T>, r: Token<T>): seq<T> {
    (if l.Num? then [l.v] else []) + (if r.Num? then [r.v] else [])
  }

  function Second<T>(toks: seq<Token<T>>): Token<T> {
    if |toks| > 1 then toks[1] else Null
  }

  function AfterTwo<T>(toks: seq<Token<T>>): seq<Token<T>> {
    if |toks| > 1 then toks[2..] else []
  }

  /** Nodes without children. */
  function Bare<T>(vals: seq<T>): (f: seq<Tree<T>>)
    ensures |f| == |vals|
    ensures forall k :: 0 <= k < |vals| ==> f[k] == Node(vals[k], Leaf, Leaf)
  {
    seq(|vals|, k requires 0 <= k < |vals| => Node(vals[k], Leaf, Leaf))
  }

  /** The subtrees of the queued nodes, whose values are `vals`, when `toks` is still unread. */
  function Grow<T>(vals: seq<T>, toks: seq<Token<T>>): (f: seq<Tree<T>>)
    ensures |f| == |vals|
    ensures forall k :: 0 <= k < |vals| ==> f[k].Node? && f[k].val == vals[k]
    decreases |toks|
  {
    if vals == [] then []
    else if toks == [] then Bare(vals)
    else
      var l, r := toks[0], Second(toks);
      var n := |vals| - 1;
      var f := Grow(vals[1..] + Kids(l, r), AfterTwo(toks));
      var left := if l.Num? then f[n] else Leaf;
      var right := if r.Num? then f[n + if l.Num? then 1 else 0] else Leaf;
      [Node(vals[0], left, right)] + f[..n]
  }

  /** The trees `f` of a queue headed by a node of value v, from the trees `g` of the queue after that
      node has received the children l and r. */
  ghost predicate Expands<T>(v: T, l: Token<T>, r: Token<T>, f: seq<Tree<T>>, g: seq<Tree<T>>) {
    |f| > 0 && |g| == |f| - 1 + |Kids(l, r)| &&
    f[0] == Node(v, if l.Num? then g[|f| - 1] else Leaf, if r.Num? then g[|f| - 1 + |Kids(l, Null)|] else Leaf) &&
    forall j :: 1 <= j < |f| ==> f[j] == g[j - 1]
  }

  lemma ConsExpands<T>(v: T, l: Token<T>, r: Token<T>, n: nat, f: seq<Tree<T>>, g: seq<Tree<T>>)
    requires |g| == n + |Kids(l, r)|
    requires f == [Node(v, if l.Num? then g[n] else Leaf, if r.Num? then g[n + |Kids(l, Null)|] else Leaf)] + g[..n]
    ensures Expands(v, l, r, f, g)
  {
  }

  lemma GrowExpands<T>(vals: seq<T>, toks: seq<Token<T>>, next: seq<T>)
    requires vals != [] && toks != []
    requires next == vals[1..] + Kids(toks[0], Second(toks))
    ensures Expands(vals[0], toks[0], Second(toks), Grow(vals, toks), Grow(next, AfterTwo(toks)))
  {
    ConsExpands(vals[0], toks[0], Second(toks), |vals| - 1, Grow(vals, toks), Grow(next, AfterTwo(toks)));
  }

  function Decode<T>(toks: seq<Token<T>>): Tree<T> {
    if toks == [] || toks[0].Null? then Leaf else Grow([toks[0].v], toks[1..])[0]
  }

  // ------------------------------------------------------------ decode after print

  function ForestKids<T>(f: seq<Tree<T>>): seq<Tree<T>> {
    if f == [] then [] else Children(f[0]) + ForestKids(f[1..])
  }

  lemma {:induction false} ForestKidsAppend<T>(f: seq<Tree<T>>, g: seq<Tree<T>>)
    ensures ForestKids(f + g) == ForestKids(f) + ForestKids(g)
  {
    if f == [] {
      assert f + g == g;
    } else {
      assert (f + g)[1..] == f[1..] + g;
      ForestKidsAppend(f[1..], g);
    }
  }

  function Roots<T>(f: seq<Tree<T>>): seq<T>
    requires forall k :: 0 <= k < |f| ==> f[k].Node?
  {
    seq(|f|, k requires 0 <= k < |f| => f[k].val)
  }

  /** The non-leaf children of one node, in order. */
  function NonLeaves<T>(l: Tree<T>, r: Tree<T>): seq<Tree<T>> {
    if l.Leaf? then (if r.Leaf? then [] else [r])
    else if r.Leaf? then [l] else [l, r]
  }

  lemma OfOne<T>(t: Tree<T>)
    ensures ForestKids([t]) == Children(t) && QueueWeight([t]) == Weight(t)
  {
    assert [t][1..] == [];
  }

  lemma OfTwo<T>(l: Tree<T>, r: Tree<T>)
    ensures ForestKids([l, r]) == Children(l) + Children(r) && QueueWeight([l, r]) == Weight(l) + Weight(r)
  {
    assert [l, r][1..] == [r];
    OfOne(r);
  }

  lemma NonLeavesFacts<T>(l: Tree<T>, r: Tree<T>)
    ensures forall k :: 0 <= k < |NonLeaves(l, r)| ==> NonLeaves(l, r)[k].Node?
    ensures Roots(NonLeaves(l, r)) == Kids(Head(l), Head(r))
    ensures ForestKids(NonLeaves(l, r)) == Children(l) + Children(r)
    ensures QueueWeight(NonLeaves(l, r)) <= Weight(l) + Weight(r)
  {
    if l.Node? && r.Node? {
      OfTwo(l, r);
    } else if l.Node? {
      OfOne(l);
    } else if r.Node? {
      OfOne(r);
    }
  }

  lemma QueueOfTwo<T>(l: Tree<T>, r: Tree<T>, rest: seq<Tree<T>>, ls: seq<Tree<T>>, rs: seq<Tree<T>>)
    ensures [r] + (rest + ls) == ([l, r] + rest)[1..] + ls
    ensures rest + (ls + rs) == ([r] + (rest + ls))[1..] + rs
  {
  }

  lemma WalkTwo<T>(l: Tree<T>, r: Tree<T>, rest: seq<Tree<T>>)
    ensures Walk([l, r] + rest) == [Head(l), Head(r)] + Walk(rest + (Children(l) + Children(r)))
  {
    QueueOfTwo(l, r, rest, Children(l), Children(r));
    WalkStep([l, r] + rest, [r] + (rest + Children(l)));
    WalkStep([r] + (rest + Children(l)), rest + (Children(l) + Children(r)));
  }

  function Heads<T>(f: seq<Tree<T>>): (r: seq<Token<T>>)
    ensures |r| == |f| && forall k :: 0 <= k < |f| ==> r[k] == if f[k].Leaf? then Null else Num(f[k].val)
  {
    seq(|f|, k requires 0 <= k < |f| => Head(f[k]))
  }

  lemma HeadsFirst<T>(f: seq<Tree<T>>)
    requires f != []
    ensures Heads(f) == [Head(f[0])] + Heads(f[1..])
  {
  }

  lemma AcrossQueue<T>(f: seq<Tree<T>>, behind: seq<Tree<T>>, kids: seq<Tree<T>>)
    requires f != []
    ensures f + behind != [] && (f + behind)[0] == f[0] && f[1..] + (behind + kids) == (f + behind)[1..] + kids
  {
  }

  lemma Regroup<T>(a: seq<T>, b: seq<T>, c: seq<T>)
    ensures a + b + c == a + (b + c)
  {
  }

  lemma {:induction false} WalkAcross<T>(f: seq<Tree<T>>, behind: seq<Tree<T>>)
    ensures Walk(f + behind) == Heads(f) + Walk(behind + ForestKids(f))
    decreases |f|
  {
    if f == [] {
      assert f + behind == behind && behind + ForestKids(f) == behind;
    } else {
      var kids := Children(f[0]);
      AcrossQueue(f, behind, kids);
      WalkStep(f + behind, f[1..] + (behind + kids));
      WalkAcross(f[1..], behind + kids);
      Regroup(behind, kids, ForestKids(f[1..]));
      HeadsFirst(f);
      Regroup([Head(f[0])], Heads(f[1..]), Walk(behind + ForestKids(f)));
    }
  }

  /** The print goes level by level, each from left to right: first the roots of the forest, then their children. */
  lemma WalkByLevels<T>(f: seq<Tree<T>>)
    ensures Walk(f) == Heads(f) + Walk(ForestKids(f))
  {
    WalkAcross(f, []);
    assert f + [] == f && [] + ForestKids(f) == ForestKids(f);
  }

  /** The reader's queue after the first node has received its children. */
  function Shift<T>(f: seq<Tree<T>>): seq<Tree<T>>
    requires f != [] && f[0].Node?
  {
    f[1..] + NonLeaves(f[0].left, f[0].right)
  }

  lemma ShiftWalk<T>(f: seq<Tree<T>>)
    requires f != [] && f[0].Node?
    ensures Walk(ForestKids(f)) == [Head(f[0].left), Head(f[0].right)] + Walk(ForestKids(Shift(f)))
  {
    var l, r, rest := f[0].left, f[0].right, f[1..];
    NonLeavesFacts(l, r);
    ForestKidsAppend(rest, NonLeaves(l, r));
    WalkTwo(l, r, ForestKids(rest));
  }

  lemma ShiftWeight<T>(f: seq<Tree<T>>)
    requires f != [] && f[0].Node?
    ensures QueueWeight(Shift(f)) < QueueWeight(f)
  {
    NonLeavesFacts(f[0].left, f[0].right);
    QueueWeightAppend(f[1..], NonLeaves(f[0].left, f[0].right));
  }

  lemma ShiftRoots<T>(f: seq<Tree<T>>)
    requires f != [] && forall k :: 0 <= k < |f| ==> f[k].Node?
    ensures forall k :: 0 <= k < |Shift(f)| ==> Shift(f)[k].Node?
    ensures Roots(Shift(f)) == Roots(f)[1..] + Kids(Head(f[0].left), Head(f[0].right))
  {
    NonLeavesFacts(f[0].left, f[0].right);
  }

  lemma ShiftExpands<T>(f: seq<Tree<T>>)
    requires f != [] && f[0].Node?
    ensures Expands(f[0].val, Head(f[0].left), Head(f[0].right), f, Shift(f))
  {
  }

  lemma ExpandsUnique<T>(v: T, l: Token<T>, r: Token<T>, f: seq<Tree<T>>, f': seq<Tree<T>>, g: seq<Tree<T>>)
    requires Expands(v, l, r, f, g) && Expands(v, l, r, f', g)
    ensures f == f'
  {
    assert forall j :: 0 <= j < |f| ==> f[j] == f'[j];
  }

  /** One step of the reader: the queue it continues with determines the trees it returns. */
  lemma GrowStep<T>(vals: seq<T>, toks: seq<Token<T>>, f: seq<Tree<T>>)
    requires |f| == |vals| > 0 && f[0].Node? && f[0].val == vals[0]
    requires |toks| > 0 && Head(f[0].left) == toks[0] && Head(f[0].right) == Second(toks)
    requires Grow(vals[1..] + Kids(toks[0], Second(toks)), AfterTwo(toks)) == Shift(f)
    ensures Grow(vals, toks) == f
  {
    GrowExpands(vals, toks, vals[1..] + Kids(toks[0], Second(toks)));
    ShiftExpands(f);
    ExpandsUnique(vals[0], toks[0], Second(toks), f, Grow(vals, toks), Shift(f));
  }

  /** Reading back the print of the children of a forest rebuilds the forest. */
  lemma {:induction false} GrowWalk<T>(f: seq<Tree<T>>)
    requires forall k :: 0 <= k < |f| ==> f[k].Node?
    ensures Grow(Roots(f), Walk(ForestKids(f))) == f
    decreases QueueWeight(f)
  {
    if f != [] {
      ShiftWeight(f);
      ShiftRoots(f);
      ShiftWalk(f);
      var toks := Walk(ForestKids(f));
      assert AfterTwo(toks) == Walk(ForestKids(Shift(f)));
      GrowWalk(Shift(f));
      GrowStep(Roots(f), toks, f);
    }
  }

  /** A trailing null never changes what is read. */
  lemma {:induction false} GrowIgnoresNull<T>(vals: seq<T>, toks: seq<Token<T>>)
    ensures Grow(vals, toks + [Null]) == Grow(vals, toks)
    decreases |toks|
  {
    if vals == [] {
    } else if toks == [] {
      var gap: seq<Token<T>> := [Null];
      assert AfterTwo(gap) == [];
      assert Kids(gap[0], gap[0]) == [];
      assert vals[1..] + [] == vals[1..];
      assert toks + [Null] == [Null];
    } else if |toks| == 1 {
      assert AfterTwo(toks + [Null]) == [];
    } else {
      assert AfterTwo(toks + [Null]) == AfterTwo(toks) + [Null];
      GrowIgnoresNull(vals[1..] + Kids(toks[0], toks[1]), AfterTwo(toks));
    }
  }

  /** Trimming an array, as the argument encoder does, keeps the tree it denotes. */
  lemma {:induction false} DecodeIgnoresTrailingNulls<T>(a: seq<Token<T>>)
    ensures Decode(Trim(a)) == Decode(a)
    decreases |a|
  {
    if a != [] && a[|a| - 1].Null? {
      var b := a[..|a| - 1];
      DecodeIgnoresTrailingNulls(b);
      if b != [] && b[0].Num? {
        assert a[1..] == b[1..] + [Null];
        GrowIgnoresNull([b[0].v], b[1..]);
      }
    }
  }

  lemma WalkOfNode<T>(t: Tree<T>)
    requires t.Node?
    ensures Walk([t]) == [Num(t.val)] + Walk(ForestKids([t]))
  {
    OfOne(t);
    WalkStep([t], ForestKids([t]));
  }

  /** Decoding the level-order print of any tree gives that tree back. */
  lemma DecodeTokens<T>(t: Tree<T>)
    ensures Decode(Tokens(t)) == t
  {
    DecodeIgnoresTrailingNulls(Walk([t]));
    if t.Node? {
      WalkOfNode(t);
      assert Walk([t])[1..] == Walk(ForestKids([t]));
      assert Roots([t]) == [t.val];
      GrowWalk([t]);
    } else {
      WalkStep([t], []);
    }
  }

  /** Different trees print differently. */
  lemma TokensInjective<T>(t: Tree<T>, u: Tree<T>)
    ensures Tokens(t) == Tokens(u) <==> t == u
  {
    DecodeTokens(t);
    DecodeTokens(u);
  }

  /** Decode, print, decode equals one decode, on every array. */
  lemma DecodeStable<T>(a: seq<Token<T>>)
    ensures Decode(Tokens(Decode(a))) == Decode(a)
  {
    DecodeTokens(Decode(a));
  }

  // ------------------------------------------------------------ print after decode

  /** With `n` nodes queued, the reader consumes all of `toks` before it runs out of nodes. */
  predicate Fed<T>(n: nat, toks: seq<Token<T>>)
    decreases |toks|
  {
    toks == [] || (n > 0 && Fed(n - 1 + |Kids(toks[0], Second(toks))|, AfterTwo(toks)))
  }

  /** Arrays in canonical form: a non-null root, no trailing null, no entry without a parent. */
  predicate Canonical<T>(a: seq<Token<T>>) {
    a == [] || (a[0].Num? && a[|a| - 1].Num? && Fed(1, a[1..]))
  }

  /** The array reads as the other one followed by nulls only. */
  ghost predicate PadOf<T>(long: seq<Token<T>>, short: seq<Token<T>>) {
    short <= long && forall i :: |short| <= i < |long| ==> long[i].Null?
  }

  lemma {:induction false} WalkOfLeaves<T>(f: seq<Tree<T>>)
    requires forall i :: 0 <= i < |f| ==> f[i].Leaf?
    ensures PadOf(Walk(f), [])
    decreases |f|
  {
    if f != [] {
      assert f[1..] + Children(f[0]) == f[1..];
      WalkStep(f, f[1..]);
      WalkOfLeaves(f[1..]);
    }
  }

  lemma {:induction false} BareKids<T>(f: seq<Tree<T>>)
    requires forall i :: 0 <= i < |f| ==> f[i].Node? && f[i].left.Leaf? && f[i].right.Leaf?
    ensures forall i :: 0 <= i < |ForestKids(f)| ==> ForestKids(f)[i].Leaf?
  {
    if f != [] {
      BareKids(f[1..]);
    }
  }

  lemma GrowIsShift<T>(vals: seq<T>, toks: seq<Token<T>>)
    requires vals != [] && toks != []
    ensures var f := Grow(vals, toks);
      Head(f[0].left) == toks[0] && Head(f[0].right) == Second(toks) &&
      Shift(f) == Grow(vals[1..] + Kids(toks[0], Second(toks)), AfterTwo(toks))
  {
    var f := Grow(vals, toks);
    var g := Grow(vals[1..] + Kids(toks[0], Second(toks)), AfterTwo(toks));
    var n := |vals| - 1;
    assert f[1..] == g[..n];
    assert g[n..] == NonLeaves(f[0].left, f[0].right);
  }

  lemma {:induction false} WalkGrow<T>(vals: seq<T>, toks: seq<Token<T>>)
    requires Fed(|vals|, toks)
    ensures PadOf(Walk(ForestKids(Grow(vals, toks))), toks)
    decreases |toks|
  {
    var f := Grow(vals, toks);
    if toks == [] {
      BareKids(f);
      WalkOfLeaves(ForestKids(f));
    } else {
      GrowIsShift(vals, toks);
      WalkGrow(vals[1..] + Kids(toks[0], Second(toks)), AfterTwo(toks));
      ShiftWalk(f);
      PadTwo(Walk(ForestKids(Shift(f))), AfterTwo(toks), toks);
    }
  }

  lemma PadTwo<T>(long: seq<Token<T>>, short: seq<Token<T>>, toks: seq<Token<T>>)
    requires toks != [] && short == AfterTwo(toks)
    ensures PadOf([toks[0], Second(toks)] + long, toks) <==> PadOf(long, short)
  {
    var more := [toks[0], Second(toks)] + long;
    assert more[2..] == long;
    if PadOf(more, toks) {
      forall i | |short| <= i < |long|
        ensures long[i].Null?
      {
        assert more[i + 2] == long[i];
      }
      forall i | 0 <= i < |short|
        ensures i < |long| && short[i] == long[i]
      {
        assert more[i + 2] == toks[i + 2];
      }
    }
  }

  lemma PadHead<T>(x: Token<T>, y: Token<T>, long: seq<Token<T>>, toks: seq<Token<T>>)
    requires toks != [] && PadOf([x, y] + long, toks)
    ensures x == toks[0] && y == Second(toks)
  {
    assert ([x, y] + long)[0] == x && ([x, y] + long)[1] == y;
  }

  lemma ShiftSize<T>(f: seq<Tree<T>>)
    requires f != [] && f[0].Node?
    ensures |Shift(f)| == |f| - 1 + |Kids(Head(f[0].left), Head(f[0].right))|
  {
  }

  /** The trimmed print of a forest's children never leaves the reader without a node. */
  lemma {:induction false} FedByWalk<T>(f: seq<Tree<T>>, toks: seq<Token<T>>)
    requires forall k :: 0 <= k < |f| ==> f[k].Node?
    requires PadOf(Walk(ForestKids(f)), toks)
    ensures Fed(|f|, toks)
    decreases QueueWeight(f)
  {
    if toks != [] && f != [] {
      ShiftWeight(f);
      ShiftRoots(f);
      ShiftWalk(f);
      PadHead(Head(f[0].left), Head(f[0].right), Walk(ForestKids(Shift(f))), toks);
      PadTwo(Walk(ForestKids(Shift(f))), AfterTwo(toks), toks);
      FedByWalk(Shift(f), AfterTwo(toks));
      ShiftSize(f);
    }
  }

  lemma TrimUnique<T>(long: seq<Token<T>>, short: seq<Token<T>>)
    requires PadOf(long, short)
    requires short == [] || short[|short| - 1].Num?
    ensures Trim(long) == short
  {
    var b := Trim(long);
    assert |b| == |short|;
  }

  lemma PadOne<T>(x: Token<T>, long: seq<Token<T>>, short: seq<Token<T>>)
    ensures PadOf([x] + long, [x] + short) <==> PadOf(long, short)
  {
    assert ([x] + long)[1..] == long && ([x] + short)[1..] == short;
    if PadOf([x] + long, [x] + short) {
      forall i | |short| <= i < |long|
        ensures long[i].Null?
      {
        assert ([x] + long)[i + 1] == long[i];
      }
    }
  }

  /** Printing a decoded array gives it back exactly on the canonical arrays. */
  lemma PrintAfterDecode<T>(a: seq<Token<T>>)
    ensures Tokens(Decode(a)) == a <==> Canonical(a)
  {
    var t := Decode(a);
    if t.Node? {
      var w := Walk(ForestKids([t]));
      WalkOfNode(t);
      assert a == [a[0]] + a[1..];
      assert [t] == Grow([a[0].v], a[1..]);
      PadOne(a[0], w, a[1..]);
      if Canonical(a) {
        WalkGrow([a[0].v], a[1..]);
        TrimUnique(Walk([t]), a);
      }
      if Tokens(t) == a {
        FedByWalk([t], a[1..]);
      }
    } else {
      WalkStep([t], []);
      TrimUnique(Walk([t]), []);
    }
  }

  /** The array [1, null, null, 5] is accepted as an argument but its last entry is lost. */
  lemma OrphanEntryIsLost<T>()
    ensures Decode([Num(1), Null, Null, Num(5)]) == Node(1, Leaf, Leaf)
    ensures Tokens(Decode([Num(1), Null, Null, Num(5)])) != [Num(1), Null, Null, Num(5)]
  {
    var a: seq<Token<int>> := [Num(1), Null, Null, Num(5)];
    assert a[1..] == [Null, Null, Num(5)];
    assert AfterTwo(a[1..]) == [Num(5)];
    assert [1][1..] + Kids(a[1], a[2]) == [];
    assert Grow([1], a[1..]) == [Node(1, Leaf, Leaf)];
    assert !Canonical(a);
    PrintAfterDecode(a);
  }
}
