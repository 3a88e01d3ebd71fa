/** Search trees of linked nodes: insertion in place, and the two references of the validation problem. */
module SearchTreeNodes {
  import opened Extended
  import opened LevelOrder
  import opened TreeNodes
  import opened SearchTrees
  import Sh = Shuffling

  type Link = TreeNode?<int>
  type Cells = set<TreeNode<int>>

  // ------------------------------------------------------------ a tree with a hole

  /** A tree held within some nodes is held the same way within more of them. */
  lemma {:induction false} Wider(n: Link, t: Tree<int>, a: Cells, b: Cells)
    requires Holds(n, t, a) && a <= b
    ensures Holds(n, t, b) && Nodes(n, t, b) == Nodes(n, t, a) && (Apart(n, t, a) ==> Apart(n, t, b))
  {
    if t.Node? {
      Wider(n.left, t.left, a, b);
      Wider(n.right, t.right, a, b);
    }
  }

  /** A tree is held within its own nodes. */
  lemma {:induction false} Tight(n: Link, t: Tree<int>, a: Cells)
    requires Holds(n, t, a)
    ensures var own := Nodes(n, t, a);
      Holds(n, t, own) && Nodes(n, t, own) == own && (Apart(n, t, a) ==> Apart(n, t, own))
  {
    if t.Node? {
      Tight(n.left, t.left, a);
      Tight(n.right, t.right, a);
      Wider(n.left, t.left, Nodes(n.left, t.left, a), Nodes(n, t, a));
      Wider(n.right, t.right, Nodes(n.right, t.right, a), Nodes(n, t, a));
    }
  }

  /** Descending from `n` towards the place of v leads to `cur`, where the subtree u of t is expected; everything else of
      t is held within `out`. Nothing is said about the nodes at and below `cur`. */
  ghost predicate Hole(n: Link, t: Tree<int>, v: int, cur: TreeNode<int>, u: Tree<int>, out: Cells)
    reads out
    decreases t
  {
    match t
    case Leaf => false
    case Node(x, l, r) =>
      if n == cur then t == u
      else if n == null || n !in out || n.val != x then false
      else if v < x then Hole(n.left, l, v, cur, u, out) && Holds(n.right, r, out)
      else Hole(n.right, r, v, cur, u, out) && Holds(n.left, l, out)
  }

  /** The nodes outside the hole. */
  ghost function Around(n: Link, t: Tree<int>, v: int, cur: TreeNode<int>, u: Tree<int>, out: Cells): (nodes: Cells)
    requires Hole(n, t, v, cur, u, out)
    reads out
    ensures nodes <= out
    decreases t
  {
    match t
    case Node(x, l, r) =>
      if n == cur then {}
      else if v < x then {n} + Around(n.left, l, v, cur, u, out) + Nodes(n.right, r, out)
      else {n} + Around(n.right, r, v, cur, u, out) + Nodes(n.left, l, out)
  }

  /** Outside the hole, different positions are different nodes. */
  ghost predicate ApartAround(n: Link, t: Tree<int>, v: int, cur: TreeNode<int>, u: Tree<int>, out: Cells)
    requires Hole(n, t, v, cur, u, out)
    reads out
    decreases t
  {
    match t
    case Node(x, l, r) =>
      if n == cur then true
      else if v < x then
        n !in Around(n.left, l, v, cur, u, out) && n !in Nodes(n.right, r, out) &&
        Around(n.left, l, v, cur, u, out) !! Nodes(n.right, r, out) &&
        ApartAround(n.left, l, v, cur, u, out) && Apart(n.right, r, out)
      else
        n !in Around(n.right, r, v, cur, u, out) && n !in Nodes(n.left, l, out) &&
        Around(n.right, r, v, cur, u, out) !! Nodes(n.left, l, out) &&
        ApartAround(n.right, r, v, cur, u, out) && Apart(n.left, l, out)
  }

  /** Filling the hole with the subtree after insertion gives the tree after insertion. */
  lemma {:induction false} Fill(n: Link, t: Tree<int>, v: int, cur: TreeNode<int>, u: Tree<int>, out: Cells, inn: Cells)
    requires Hole(n, t, v, cur, u, out) && ApartAround(n, t, v, cur, u, out) && out !! inn
    requires Holds(cur, Insert(u, v), inn) && Apart(cur, Insert(u, v), inn)
    ensures Holds(n, Insert(t, v), out + inn) && Apart(n, Insert(t, v), out + inn)
    ensures Nodes(n, Insert(t, v), out + inn) == Around(n, t, v, cur, u, out) + Nodes(cur, Insert(u, v), inn)
    decreases t
  {
    match t
    case Node(x, l, r) =>
      if n == cur {
        Wider(cur, Insert(u, v), inn, out + inn);
      } else if v < x {
        Fill(n.left, l, v, cur, u, out, inn);
        Wider(n.right, r, out, out + inn);
      } else {
        Fill(n.right, r, v, cur, u, out, inn);
        Wider(n.left, l, out, out + inn);
      }
  }

  lemma DeeperHere(cur: TreeNode<int>, u: Tree<int>, v: int, out: Cells, next: TreeNode<int>, other: Cells)
    requires u.Node? && cur.val == u.val && cur in out && next != cur && cur !in other && other <= out
    requires if v < u.val then next == cur.left && u.left.Node? && Owned(cur.right, u.right, other)
             else next == cur.right && u.right.Node? && Owned(cur.left, u.left, other)
    ensures var w := if v < u.val then u.left else u.right;
      Hole(cur, u, v, next, w, out) && ApartAround(cur, u, v, next, w, out) && Around(cur, u, v, next, w, out) == {cur} + other
  {
    if v < u.val { Wider(cur.right, u.right, other, out); } else { Wider(cur.left, u.left, other, out); }
  }

  /** The node at the hole and its other subtree move outside when the descent goes on to `next`. */
  lemma {:induction false} Deeper(n: Link, t: Tree<int>, v: int, cur: TreeNode<int>, u: Tree<int>, out: Cells,
                                  next: TreeNode<int>, other: Cells)
    requires Hole(n, t, v, cur, u, out)
    requires u.Node? && cur.val == u.val && cur !in out && next !in out && next != cur && other !! out + {cur}
    requires if v < u.val then next == cur.left && u.left.Node? && Owned(cur.right, u.right, other)
             else next == cur.right && u.right.Node? && Owned(cur.left, u.left, other)
    ensures var w, out' := if v < u.val then u.left else u.right, out + {cur} + other;
      Hole(n, t, v, next, w, out') && Around(n, t, v, next, w, out') == Around(n, t, v, cur, u, out) + {cur} + other
    decreases t
  {
    var out' := out + {cur} + other;
    match t
    case Node(x, l, r) =>
      if n == cur {
        DeeperHere(cur, u, v, out', next, other);
      } else if v < x {
        Deeper(n.left, l, v, cur, u, out, next, other);
        Wider(n.right, r, out, out');
      } else {
        Deeper(n.right, r, v, cur, u, out, next, other);
        Wider(n.left, l, out, out');
      }
  }

  lemma {:induction false} DeeperApart(n: Link, t: Tree<int>, v: int, cur: TreeNode<int>, u: Tree<int>, out: Cells,
                                       next: TreeNode<int>, other: Cells)
    requires Hole(n, t, v, cur, u, out) && ApartAround(n, t, v, cur, u, out)
    requires u.Node? && cur.val == u.val && cur !in out && next !in out && next != cur && other !! out + {cur}
    requires if v < u.val then next == cur.left && u.left.Node? && Owned(cur.right, u.right, other)
             else next == cur.right && u.right.Node? && Owned(cur.left, u.left, other)
    ensures var w, out' := if v < u.val then u.left else u.right, out + {cur} + other;
      Hole(n, t, v, next, w, out') && ApartAround(n, t, v, next, w, out')
    decreases t
  {
    Deeper(n, t, v, cur, u, out, next, other);
    var out' := out + {cur} + other;
    match t
    case Node(x, l, r) =>
      if n == cur {
        DeeperHere(cur, u, v, out', next, other);
      } else if v < x {
        Deeper(n.left, l, v, cur, u, out, next, other);
        DeeperApart(n.left, l, v, cur, u, out, next, other);
        Wider(n.right, r, out, out');
      } else {
        Deeper(n.right, r, v, cur, u, out, next, other);
        DeeperApart(n.right, r, v, cur, u, out, next, other);
        Wider(n.left, l, out, out');
      }
  }

  /** The tree lies in exactly these nodes, one for each position. */
  ghost predicate Owned(n: Link, t: Tree<int>, own: Cells)
    reads own
  {
    Holds(n, t, own) && Apart(n, t, own) && Nodes(n, t, own) == own
  }

  lemma NullIffLeaf(n: Link, t: Tree<int>, a: Cells)
    requires Holds(n, t, a)
    ensures n == null <==> t.Leaf?
  {
  }

  lemma OwnedChildren(n: TreeNode<int>, t: Tree<int>, own: Cells)
    requires Owned(n, t, own) && t.Node?
    ensures var left, right := Nodes(n.left, t.left, own), Nodes(n.right, t.right, own);
      Owned(n.left, t.left, left) && Owned(n.right, t.right, right) &&
      own == {n} + left + right && n !in left && n !in right && left !! right
  {
    Tight(n.left, t.left, own);
    Tight(n.right, t.right, own);
  }

  // ------------------------------------------------------------ insertion in place

  lemma Joined(n: TreeNode<int>, t: Tree<int>, left: Cells, right: Cells, own: Cells)
    requires t.Node? && n.val == t.val && Owned(n.left, t.left, left) && Owned(n.right, t.right, right)
    requires n !in left && n !in right && left !! right && own == {n} + left + right
    ensures Owned(n, t, own)
  {
    Wider(n.left, t.left, left, own);
    Wider(n.right, t.right, right, own);
  }

  lemma Single(node: TreeNode<int>, v: int)
    requires node.val == v && node.left == null && node.right == null
    ensures Owned(node, Insert(Leaf, v), {node})
  {
  }

  method HangLeft(cur: TreeNode<int>, node: TreeNode<int>, v: int, ghost u: Tree<int>, ghost own: Cells)
    requires Owned(cur, u, own) && u.Node? && v < u.val && u.left.Leaf? && node !in own
    requires node.val == v && node.left == null && node.right == null
    modifies cur
    ensures Owned(cur, Insert(u, v), own + {node})
  {
    OwnedChildren(cur, u, own);
    ghost var right := Nodes(cur.right, u.right, own);
    cur.left := node;
    Single(node, v);
    Joined(cur, Insert(u, v), {node}, right, own + {node});
  }

  method HangRight(cur: TreeNode<int>, node: TreeNode<int>, v: int, ghost u: Tree<int>, ghost own: Cells)
    requires Owned(cur, u, own) && u.Node? && v >= u.val && u.right.Leaf? && node !in own
    requires node.val == v && node.left == null && node.right == null
    modifies cur
    ensures Owned(cur, Insert(u, v), own + {node})
  {
    OwnedChildren(cur, u, own);
    ghost var left := Nodes(cur.left, u.left, own);
    cur.right := node;
    Single(node, v);
    Joined(cur, Insert(u, v), left, {node}, own + {node});
  }

  /** The new node becomes a child of the node at which the descent ends. */
  method Hang(cur: TreeNode<int>, v: int, ghost u: Tree<int>, ghost own: Cells) returns (node: TreeNode<int>)
    requires Owned(cur, u, own) && u.Node? && if v < u.val then u.left.Leaf? else u.right.Leaf?
    modifies cur
    ensures fresh(node) && Owned(cur, Insert(u, v), own + {node})
  {
    node := new TreeNode(v);
    if v < cur.val { HangLeft(cur, node, v, u, own); } else { HangRight(cur, node, v, u, own); }
  }

  /** The tree around the hole at `cur` lies in exactly the nodes of `out`, one for each position. */
  ghost predicate Outside(root: TreeNode<int>, t: Tree<int>, v: int, cur: TreeNode<int>, u: Tree<int>, out: Cells)
    reads out
  {
    match u
    case Leaf => false
    case Node(_, _, _) =>
      Hole(root, t, v, cur, u, out) && ApartAround(root, t, v, cur, u, out) && Around(root, t, v, cur, u, out) == out
  }

  /** The descent has reached `cur` with the subtree u, which lies in `inn`; the rest of the tree lies in `out`. */
  ghost predicate Descent(root: TreeNode<int>, t: Tree<int>, v: int, cur: TreeNode<int>, u: Tree<int>, out: Cells, inn: Cells)
    reads out, inn
  {
    Owned(cur, u, inn) && out !! inn && Outside(root, t, v, cur, u, out)
  }

  /** One step down: returns the nodes below `next`. */
  lemma DescendTo(root: TreeNode<int>, t: Tree<int>, v: int, cur: TreeNode<int>, u: Tree<int>, out: Cells, inn: Cells,
                  next: TreeNode<int>, w: Tree<int>, own: Cells)
    returns (below: Cells)
    requires Descent(root, t, v, cur, u, out, inn) && out + inn == own
    requires if v < u.val then next == cur.left && w == u.left else next == cur.right && w == u.right
    ensures below <= own && Descent(root, t, v, next, w, own - below, below)
  {
    OwnedChildren(cur, u, inn);
    var left, right := Nodes(cur.left, u.left, inn), Nodes(cur.right, u.right, inn);
    below := if v < u.val then left else right;
    var other := if v < u.val then right else left;
    Deeper(root, t, v, cur, u, out, next, other);
    DeeperApart(root, t, v, cur, u, out, next, other);
    assert own - below == out + {cur} + other;
  }

  lemma DescentNode(root: TreeNode<int>, t: Tree<int>, v: int, cur: TreeNode<int>, u: Tree<int>, out: Cells, inn: Cells)
    requires Descent(root, t, v, cur, u, out, inn)
    ensures u.Node? && cur in inn && cur.val == u.val
    ensures (cur.left == null <==> u.left.Leaf?) && (cur.right == null <==> u.right.Leaf?)
  {
    NullIffLeaf(cur.left, u.left, inn);
    NullIffLeaf(cur.right, u.right, inn);
  }

  lemma AtRoot(root: TreeNode<int>, t: Tree<int>, v: int, own: Cells)
    requires Owned(root, t, own) && t.Node?
    ensures Descent(root, t, v, root, t, {}, own)
  {
  }

  lemma Arrived(root: TreeNode<int>, t: Tree<int>, v: int, cur: TreeNode<int>, u: Tree<int>, out: Cells, inn: Cells, own: Cells)
    requires Outside(root, t, v, cur, u, out) && Owned(cur, Insert(u, v), inn) && out !! inn && own == out + inn
    ensures Owned(root, Insert(t, v), own)
  {
    Fill(root, t, v, cur, u, out, inn);
  }

  /** The generator's descent from the root, to the left for smaller values, until a link is free. */
  method FindPlace(root: TreeNode<int>, v: int, ghost t: Tree<int>, ghost own: Cells)
    returns (cur: TreeNode<int>, ghost u: Tree<int>, ghost out: Cells, ghost inn: Cells)
    requires Owned(root, t, own) && t.Node?
    ensures Descent(root, t, v, cur, u, out, inn) && out + inn == own
    ensures if v < u.val then u.left.Leaf? else u.right.Leaf?
  {
    cur, u, out, inn := root, t, {}, own;
    AtRoot(root, t, v, own);
    while true
      invariant Descent(root, t, v, cur, u, out, inn) && out + inn == own
      decreases u
    {
      DescentNode(root, t, v, cur, u, out, inn);
      var next := if v < cur.val then cur.left else cur.right;
      if next == null { return; }
      ghost var w := if v < u.val then u.left else u.right;
      inn := DescendTo(root, t, v, cur, u, out, inn, next, w, own);
      cur, u, out := next, w, own - inn;
    }
  }

  method InsertNode(root: TreeNode<int>, v: int, ghost t: Tree<int>, ghost own: Cells) returns (node: TreeNode<int>)
    requires Owned(root, t, own) && t.Node?
    modifies own
    ensures fresh(node) && Owned(root, Insert(t, v), own + {node})
  {
    var cur;
    ghost var u, out, inn;
    cur, u, out, inn := FindPlace(root, v, t, own);
    node := Hang(cur, v, u, inn);
    Arrived(root, t, v, cur, u, out, inn + {node}, own + {node});
  }

  method InsertNext(root: Link, v: int, ghost t: Tree<int>, ghost own: Cells) returns (root': Link, ghost own': Cells)
    requires Owned(root, t, own)
    modifies own
    ensures fresh(own' - own) && Owned(root', Insert(t, v), own')
  {
    NullIffLeaf(root, t, own);
    root', own' := root, own;
    if root == null {
      root' := new TreeNode(v);
      Single(root', v);
      own' := {root'};
    } else {
      var node := InsertNode(root, v, t, own);
      own' := own + {node};
    }
  }

  method InsertValues(values: seq<int>) returns (root: Link, ghost own: Cells)
    ensures fresh(own) && Owned(root, InsertAll(values), own)
  {
    root, own := null, {};
    for i := 0 to |values|
      invariant fresh(own) && Owned(root, InsertAll(values[..i]), own)
    {
      assert values[..i + 1][..i] == values[..i];
      root, own := InsertNext(root, values[i], InsertAll(values[..i]), own);
    }
    assert values[..|values|] == values;
  }

  /** The values are shuffled and inserted one by one; the tree is printed in level order. */
  method RandomBst(values: array<int>, draws: seq<int>) returns (out: seq<Token<int>>)
    requires |draws| == values.Length && Sh.Legal(draws)
    ensures out == SearchTrees.RandomBst(values[..], draws)
  {
    var order := new int[values.Length](i requires 0 <= i < values.Length reads values => values[i]);
    assert order[..] == values[..];
    Sh.Shuffle(order, draws);
    var root, own := InsertValues(order[..]);
    out := ToLevelOrder(root, InsertAll(order[..]), own);
  }

  // ------------------------------------------------------------ validation

  /** What the walk stands for: the subtree at the current node, those of the stacked nodes, the values still to come and
      the work they make. */
  datatype Tour = Tour(tree: Tree<int>, trees: seq<Tree<int>>, ahead: seq<int>, work: nat)

  ghost predicate Stacked(node: Link, stack: seq<TreeNode<int>>, tour: Tour, repr: Cells)
    reads repr
  {
    match tour
    case Tour(t, trees, ahead, work) =>
      Holds(node, t, repr) && AllHold(stack, trees, repr) && AllNodes(trees) &&
      InOrder(t) + Pending(trees) == ahead && Size(t) + Work(trees) == work
  }

  lemma StackOne(node: TreeNode<int>, stack: seq<TreeNode<int>>, tour: Tour, repr: Cells) returns (next: Tour)
    requires Stacked(node, stack, tour, repr)
    ensures tour.tree.Node? && node in repr && next.tree == tour.tree.left && next.ahead == tour.ahead && next.work == tour.work
    ensures Stacked(node.left, stack + [node], next, repr)
  {
    PushOne(tour.tree, tour.trees);
    next := tour.(tree := tour.tree.left, trees := tour.trees + [tour.tree]);
  }

  /** The inner loop: push the left spine. */
  method PushLeft(node0: Link, stack0: seq<TreeNode<int>>, ghost tour0: Tour, ghost repr: Cells)
    returns (stack: seq<TreeNode<int>>, ghost tour: Tour)
    requires Stacked(node0, stack0, tour0, repr)
    ensures node0 != null || stack0 != [] ==> stack != []
    ensures Stacked(null, stack, tour, repr) && tour.ahead == tour0.ahead && tour.work == tour0.work
  {
    stack, tour := stack0, tour0;
    var node := node0;
    while node != null
      invariant Stacked(node, stack, tour, repr) && tour.ahead == tour0.ahead && tour.work == tour0.work
      invariant node0 != null || stack0 != [] ==> node != null || stack != []
      decreases tour.tree
    {
      tour := StackOne(node, stack, tour, repr);
      stack := stack + [node];
      node := node.left;
    }
  }

  /** Taking the top node off the stack: its value comes next, then its right subtree. */
  lemma PopOne(stack: seq<TreeNode<int>>, tour: Tour, repr: Cells, top: TreeNode<int>, rest: seq<TreeNode<int>>)
    returns (next: Tour)
    requires Stacked(null, stack, tour, repr) && stack == rest + [top]
    ensures top in repr && tour.ahead == [top.val] + next.ahead && next.work < tour.work
    ensures Stacked(top.right, rest, next, repr)
  {
    var n := |rest|;
    assert Holds(stack[n], tour.trees[n], repr);
    TakeTop(tour.trees, tour.trees[n], tour.trees[..n]);
    next := Tour(tour.trees[n].right, tour.trees[..n], tour.ahead[1..], tour.work - 1);
  }

  lemma WalkStarts(root: Link, t: Tree<int>, repr: Cells)
    requires Holds(root, t, repr)
    ensures Stacked(root, [], Tour(t, [], InOrder(t), Size(t)), repr) && Visiting(t, [], InOrder(t), MinusInf)
  {
  }

  lemma WalkEnds(t: Tree<int>, tour: Tour, repr: Cells, visited: seq<int>, prev: Ext)
    requires Stacked(null, [], tour, repr) && Visiting(t, visited, tour.ahead, prev)
    ensures IsBst(t)
  {
    assert visited + [] == visited;
    BstIffIncreasing(t);
  }

  lemma WalkOn(t: Tree<int>, visited: seq<int>, v: int, more: seq<int>, ahead: seq<int>, prev: Ext)
    requires Visiting(t, visited, ahead, prev) && ahead == [v] + more
    ensures if prev.Fin? && v <= prev.v then !IsBst(t) else Visiting(t, visited + [v], more, Fin(v))
  {
    VisitNext(t, visited, v, more, ahead, prev);
    BstIffIncreasing(t);
  }

  /** The iterative reference: an in-order walk that stops at the first value that does not exceed the one before. */
  method IsValidBst(root: Link, ghost t: Tree<int>, ghost repr: Cells) returns (valid: bool)
    requires Holds(root, t, repr)
    ensures valid == IsBst(t)
  {
    var stack: seq<TreeNode<int>> := [];
    var prev := MinusInf;
    var node := root;
    ghost var tour, visited: seq<int> := Tour(t, [], InOrder(t), Size(t)), [];
    WalkStarts(root, t, repr);
    while node != null || |stack| > 0
      invariant Stacked(node, stack, tour, repr) && Visiting(t, visited, tour.ahead, prev)
      decreases tour.work
    {
      stack, tour := PushLeft(node, stack, tour, repr);
      var top, rest := stack[|stack| - 1], stack[..|stack| - 1];
      ghost var ahead := tour.ahead;
      tour := PopOne(stack, tour, repr, top, rest);
      WalkOn(t, visited, top.val, tour.ahead, ahead, prev);
      if prev.Fin? && top.val <= prev.v { return false; }
      visited := visited + [top.val];
      prev := Fin(top.val);
      node, stack := top.right, rest;
    }
    WalkEnds(t, tour, repr, visited, prev);
    valid := true;
  }

  /** The recursive reference on nodes. */
  function OkFrom(n: Link, lo: Ext, hi: Ext, ghost t: Tree<int>, ghost repr: Cells): (ok: bool)
    requires Holds(n, t, repr)
    reads repr
    ensures ok == Ok(t, lo, hi)
    decreases t
  {
    if n == null then true
    else if !(Less(lo, Fin(n.val)) && Less(Fin(n.val), hi)) then false
    else OkFrom(n.left, lo, Fin(n.val), t.left, repr) && OkFrom(n.right, Fin(n.val), hi, t.right, repr)
  }

  method ValidationsAgree(root: Link, ghost t: Tree<int>, ghost repr: Cells) returns (a: bool, b: bool)
    requires Holds(root, t, repr)
    ensures a == b == IsBst(t)
  {
    a := IsValidBst(root, t, repr);
    b := OkFrom(root, MinusInf, PlusInf, t, repr);
    OkIffBst(t, MinusInf, PlusInf);
  }
}
