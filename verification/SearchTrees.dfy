/** The search trees of the generator: how they are built, what validation decides, and how one is broken. */
module SearchTrees {
  import opened Extended
  import opened LevelOrder
  import Sh = Shuffling

  // ------------------------------------------------------------ search trees

  function InOrder(t: Tree<int>): seq<int> {
    match t
    case Leaf => []
    case Node(v, l, r) => InOrder(l) + [v] + InOrder(r)
  }

  ghost predicate Increasing(s: seq<int>) {
    forall i, j :: 0 <= i < j < |s| ==> s[i] < s[j]
  }

  /** As the problem states it: strictly smaller values on the left, strictly greater ones on the right. */
  ghost predicate IsBst(t: Tree<int>) {
    t.Node? ==>
      IsBst(t.left) && IsBst(t.right) &&
      (forall x :: x in InOrder(t.left) ==> x < t.val) && (forall x :: x in InOrder(t.right) ==> t.val < x)
  }

  lemma IncreasingParts(a: seq<int>, v: int, b: seq<int>)
    ensures Increasing(a + [v] + b) <==>
      Increasing(a) && Increasing(b) && (forall x :: x in a ==> x < v) && (forall x :: x in b ==> v < x)
  {
    var s := a + [v] + b;
    assert s[..|a|] == a && s[|a|] == v && s[|a| + 1..] == b;
    if Increasing(s) {
      forall x | x in a ensures x < v { var i :| 0 <= i < |a| && a[i] == x; assert s[i] < s[|a|]; }
      forall x | x in b ensures v < x { var i :| 0 <= i < |b| && b[i] == x; assert s[|a|] < s[|a| + 1 + i]; }
    } else if Increasing(a) && Increasing(b) && (forall x :: x in a ==> x < v) && (forall x :: x in b ==> v < x) {
      forall i, j | 0 <= i < j < |s| ensures s[i] < s[j] {
        assert i < |a| ==> s[i] in a;
        assert j > |a| ==> s[j] in b;
      }
    }
  }

  /** A tree is a search tree exactly when its in-order traversal increases. */
  lemma {:induction false} BstIffIncreasing(t: Tree<int>)
    ensures IsBst(t) <==> Increasing(InOrder(t))
  {
    if t.Node? {
      BstIffIncreasing(t.left);
      BstIffIncreasing(t.right);
      IncreasingParts(InOrder(t.left), t.val, InOrder(t.right));
    }
  }

  // ------------------------------------------------------------ a balanced tree from sorted values

  function Build(values: seq<int>, lo: int, hi: int): Tree<int>
    requires 0 <= lo <= hi + 1 <= |values|
    decreases hi - lo + 1
  {
    if lo > hi then Leaf
    else
      var mid := (lo + hi) / 2;
      Node(values[mid], Build(values, lo, mid - 1), Build(values, mid + 1, hi))
  }

  function Size(t: Tree<int>): nat {
    match t
    case Leaf => 0
    case Node(_, l, r) => 1 + Size(l) + Size(r)
  }

  /** At every node the two subtrees differ in size by at most one. */
  predicate Balanced(t: Tree<int>) {
    t.Node? ==> -1 <= Size(t.left) - Size(t.right) <= 1 && Balanced(t.left) && Balanced(t.right)
  }

  /** A balanced tree that holds the values of a range in order. */
  ghost predicate Spans(t: Tree<int>, values: seq<int>, lo: int, hi: int)
    requires 0 <= lo <= hi + 1 <= |values|
  {
    InOrder(t) == values[lo..hi + 1] && Size(t) == hi - lo + 1 && Balanced(t)
  }

  lemma SpansNode(values: seq<int>, lo: int, mid: int, hi: int, l: Tree<int>, r: Tree<int>)
    requires 0 <= lo <= mid <= hi < |values| && -1 <= (mid - lo) - (hi - mid) <= 1
    requires Spans(l, values, lo, mid - 1) && Spans(r, values, mid + 1, hi)
    ensures Spans(Node(values[mid], l, r), values, lo, hi)
  {
    assert values[lo..hi + 1] == values[lo..mid] + [values[mid]] + values[mid + 1..hi + 1];
  }

  lemma {:induction false} BuildSpec(values: seq<int>, lo: int, hi: int)
    requires 0 <= lo <= hi + 1 <= |values|
    ensures Spans(Build(values, lo, hi), values, lo, hi)
    decreases hi - lo + 1
  {
    if lo <= hi {
      var mid := (lo + hi) / 2;
      BuildSpec(values, lo, mid - 1);
      BuildSpec(values, mid + 1, hi);
      SpansNode(values, lo, mid, hi, Build(values, lo, mid - 1), Build(values, mid + 1, hi));
    }
  }

  function BstFromSorted(values: seq<int>): seq<Token<int>> {
    Tokens(Build(values, 0, |values| - 1))
  }

  /** The array the generator emits decodes to a balanced tree with the given values in order; it is a search tree
      exactly when the values increase strictly. */
  lemma BstFromSortedSpec(values: seq<int>)
    ensures var t := Decode(BstFromSorted(values));
      InOrder(t) == values && Balanced(t) && (IsBst(t) <==> Increasing(values))
  {
    BuildSpec(values, 0, |values| - 1);
    DecodeTokens(Build(values, 0, |values| - 1));
    BstIffIncreasing(Decode(BstFromSorted(values)));
    assert values[0..|values|] == values;
  }

  // ------------------------------------------------------------ a tree by insertion

  /** Descends to the left for smaller values, to the right for all others. */
  function Insert(t: Tree<int>, v: int): Tree<int> {
    match t
    case Leaf => Node(v, Leaf, Leaf)
    case Node(x, l, r) => if v < x then Node(x, Insert(l, v), r) else Node(x, l, Insert(r, v))
  }

  function InsertAll(values: seq<int>): Tree<int> {
    if values == [] then Leaf else Insert(InsertAll(values[..|values| - 1]), values[|values| - 1])
  }

  lemma {:induction false} InsertValues(t: Tree<int>, v: int)
    ensures multiset(InOrder(Insert(t, v))) == multiset(InOrder(t)) + multiset{v}
  {
    if t.Node? {
      if v < t.val { InsertValues(t.left, v); } else { InsertValues(t.right, v); }
    }
  }

  lemma InsertedIn(t: Tree<int>, v: int, x: int)
    ensures x in InOrder(Insert(t, v)) <==> x in InOrder(t) || x == v
  {
    InsertValues(t, v);
    assert x in InOrder(Insert(t, v)) <==> x in multiset(InOrder(Insert(t, v)));
    assert x in InOrder(t) <==> x in multiset(InOrder(t));
  }

  lemma {:induction false} InsertKeepsBst(t: Tree<int>, v: int)
    requires IsBst(t) && v !in InOrder(t)
    ensures IsBst(Insert(t, v))
  {
    if t.Node? {
      assert t.val in InOrder(t);
      if v < t.val {
        InsertKeepsBst(t.left, v);
        forall x | x in InOrder(Insert(t.left, v)) ensures x < t.val { InsertedIn(t.left, v, x); }
      } else {
        InsertKeepsBst(t.right, v);
        forall x | x in InOrder(Insert(t.right, v)) ensures t.val < x { InsertedIn(t.right, v, x); }
      }
    }
  }

  lemma {:induction false} InsertAllSpec(values: seq<int>)
    ensures multiset(InOrder(InsertAll(values))) == multiset(values)
    ensures Sh.Distinct(values) ==> IsBst(InsertAll(values))
  {
    if values != [] {
      var front, v := values[..|values| - 1], values[|values| - 1];
      assert values == front + [v];
      InsertAllSpec(front);
      InsertValues(InsertAll(front), v);
      if Sh.Distinct(values) {
        assert v in InOrder(InsertAll(front)) <==> v in multiset(InOrder(InsertAll(front)));
        assert v !in front;
        InsertKeepsBst(InsertAll(front), v);
      }
    }
  }

  ghost function RandomBst(values: seq<int>, draws: seq<int>): seq<Token<int>>
    requires |draws| == |values| && Sh.Legal(draws)
  {
    Tokens(InsertAll(Sh.Shuffled(values, draws)))
  }

  lemma OnceEach(s: seq<int>)
    requires Increasing(s)
    ensures forall x :: multiset(s)[x] <= 1
  {
    if s != [] {
      var front, last := s[..|s| - 1], s[|s| - 1];
      assert s == front + [last] && last !in front;
      OnceEach(front);
    }
  }

  lemma {:induction false} DistinctIffOnce(s: seq<int>)
    ensures Sh.Distinct(s) <==> forall x :: multiset(s)[x] <= 1
  {
    if s != [] {
      var front, last := s[..|s| - 1], s[|s| - 1];
      assert s == front + [last];
      DistinctIffOnce(front);
      assert forall i :: 0 <= i < |front| ==> s[i] == front[i];
      assert Sh.Distinct(s) ==> Sh.Distinct(front);
      if last in front {
        var i :| 0 <= i < |front| && front[i] == last;
        assert s[i] == s[|s| - 1];
        assert multiset(s)[last] >= 2;
      } else if Sh.Distinct(front) {
        assert Sh.Distinct(s);
        assert forall x :: multiset(s)[x] == multiset(front)[x] + if x == last then 1 else 0;
      } else {
        var x :| multiset(front)[x] > 1;
        assert multiset(s)[x] > 1;
      }
    }
  }

  /** Whatever the draws, the emitted array decodes to a tree of exactly the given values, and to a search tree exactly
      when they are distinct. */
  lemma RandomBstSpec(values: seq<int>, draws: seq<int>)
    requires |draws| == |values| && Sh.Legal(draws)
    ensures var t := Decode(RandomBst(values, draws));
      multiset(InOrder(t)) == multiset(values) && (IsBst(t) <==> Sh.Distinct(values))
  {
    var order := Sh.Shuffled(values, draws);
    var t := InsertAll(order);
    DecodeTokens(t);
    Sh.ShufflePermutes(values, draws);
    InsertAllSpec(order);
    DistinctIffOnce(values);
    DistinctIffOnce(order);
    if IsBst(t) {
      BstIffIncreasing(t);
      OnceEach(InOrder(t));
    }
  }

  // ------------------------------------------------------------ validation

  /** The recursive reference. */
  predicate Ok(t: Tree<int>, lo: Ext, hi: Ext) {
    t.Node? ==> Less(lo, Fin(t.val)) && Less(Fin(t.val), hi) && Ok(t.left, lo, Fin(t.val)) && Ok(t.right, Fin(t.val), hi)
  }

  ghost predicate Within(s: seq<int>, lo: Ext, hi: Ext) {
    forall x :: x in s ==> Less(lo, Fin(x)) && Less(Fin(x), hi)
  }

  lemma WithinParts(a: seq<int>, v: int, b: seq<int>, lo: Ext, hi: Ext)
    requires (forall x :: x in a ==> x < v) && (forall x :: x in b ==> v < x)
    ensures Within(a + [v] + b, lo, hi) <==>
      Less(lo, Fin(v)) && Less(Fin(v), hi) && Within(a, lo, Fin(v)) && Within(b, Fin(v), hi)
  {
    assert forall x :: x in a + [v] + b <==> x in a || x == v || x in b;
  }

  lemma {:induction false} OkIffBst(t: Tree<int>, lo: Ext, hi: Ext)
    ensures Ok(t, lo, hi) <==> IsBst(t) && Within(InOrder(t), lo, hi)
  {
    if t.Node? {
      OkIffBst(t.left, lo, Fin(t.val));
      OkIffBst(t.right, Fin(t.val), hi);
      if IsBst(t) { WithinParts(InOrder(t.left), t.val, InOrder(t.right), lo, hi); }
    }
  }

  /** What is still to be visited: the pending nodes, the top of the stack first, each followed by its right subtree. */
  function Pending(stack: seq<Tree<int>>): seq<int> {
    if stack == [] then []
    else
      var top := stack[|stack| - 1];
      (if top.Node? then [top.val] + InOrder(top.right) else []) + Pending(stack[..|stack| - 1])
  }

  function Work(stack: seq<Tree<int>>): nat {
    if stack == [] then 0
    else
      var top := stack[|stack| - 1];
      (if top.Node? then 1 + Size(top.right) else 0) + Work(stack[..|stack| - 1])
  }

  ghost predicate AllNodes(stack: seq<Tree<int>>) {
    forall k :: 0 <= k < |stack| ==> stack[k].Node?
  }

  lemma PushOne(node: Tree<int>, stack: seq<Tree<int>>)
    requires node.Node?
    ensures InOrder(node) + Pending(stack) == InOrder(node.left) + Pending(stack + [node])
    ensures Size(node) + Work(stack) == Size(node.left) + Work(stack + [node])
  {
    assert (stack + [node])[..|stack|] == stack;
    assert InOrder(node) + Pending(stack) == InOrder(node.left) + ([node.val] + InOrder(node.right) + Pending(stack));
  }

  lemma TakeTop(stack: seq<Tree<int>>, top: Tree<int>, rest: seq<Tree<int>>)
    requires stack != [] && top == stack[|stack| - 1] && rest == stack[..|stack| - 1] && AllNodes(stack)
    ensures top.Node? && AllNodes(rest)
    ensures Pending(stack) == [top.val] + (InOrder(top.right) + Pending(rest))
    ensures Work(stack) == 1 + Size(top.right) + Work(rest)
  {
    assert stack[|stack| - 1].Node?;
  }

  /** The values visited so far increase and `prev` is the last of them; the values in `ahead` are still to come. */
  ghost predicate Visiting(root: Tree<int>, visited: seq<int>, ahead: seq<int>, prev: Ext) {
    InOrder(root) == visited + ahead && Increasing(visited) &&
    prev == if visited == [] then MinusInf else Fin(visited[|visited| - 1])
  }

  lemma VisitNext(root: Tree<int>, visited: seq<int>, v: int, more: seq<int>, ahead: seq<int>, prev: Ext)
    requires Visiting(root, visited, ahead, prev) && ahead == [v] + more
    ensures Less(prev, Fin(v)) ==> Visiting(root, visited + [v], more, Fin(v))
    ensures !Less(prev, Fin(v)) ==> !Increasing(InOrder(root))
  {
    var all := InOrder(root);
    assert all == (visited + [v]) + more;
    if visited != [] {
      assert all[|visited| - 1] == visited[|visited| - 1] && all[|visited|] == v;
    }
  }
}
