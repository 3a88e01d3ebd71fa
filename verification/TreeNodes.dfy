/** The queue loops of the generated harness over linked tree nodes. */
module TreeNodes {
  import opened LevelOrder

  class TreeNode<T> {
    var val: T
    var left: TreeNode?<T>
    var right: TreeNode?<T>

    constructor (v: T)
      ensures val == v && left == null && right == null
    {
      val, left, right := v, null, null;
    }
  }

  /** The nodes reachable from `n` all lie in `repr` and spell out the tree `t`. */
  ghost predicate Holds<T>(n: TreeNode?<T>, t: Tree<T>, repr: set<TreeNode<T>>)
    reads repr
    decreases t
  {
    match t
    case Leaf => n == null
    case Node(v, l, r) => n != null && n in repr && n.val == v && Holds(n.left, l, repr) && Holds(n.right, r, repr)
  }

  /** The nodes at the positions of the tree. */
  ghost function Nodes<T>(n: TreeNode?<T>, t: Tree<T>, repr: set<TreeNode<T>>): (nodes: set<TreeNode<T>>)
    requires Holds(n, t, repr)
    reads repr
    ensures nodes <= repr
    decreases t
  {
    match t
    case Leaf => {}
    case Node(_, l, r) => {n} + Nodes(n.left, l, repr) + Nodes(n.right, r, repr)
  }

  /** Different positions of the tree are different nodes: no subtree shares a node with its sibling or its parent. */
  ghost predicate Apart<T>(n: TreeNode?<T>, t: Tree<T>, repr: set<TreeNode<T>>)
    requires Holds(n, t, repr)
    reads repr
    decreases t
  {
    match t
    case Leaf => true
    case Node(_, l, r) =>
      n !in Nodes(n.left, l, repr) && n !in Nodes(n.right, r, repr) && Nodes(n.left, l, repr) !! Nodes(n.right, r, repr) &&
      Apart(n.left, l, repr) && Apart(n.right, r, repr)
  }

  // ------------------------------------------------------------ reader

  /** Child links of the nodes already processed, as queue indices; -1 stands for null. */
  ghost predicate Links(size: nat, c: seq<int>) {
    |c| <= size && forall j :: 0 <= j < |c| ==> c[j] == -1 || j < c[j] < size
  }

  /** The tree at queue index k, when the nodes not yet processed stand for the trees `f`. */
  ghost function Plug<T>(vals: seq<T>, ls: seq<int>, rs: seq<int>, f: seq<Tree<T>>, k: nat): Tree<T>
    requires Links(|vals|, ls) && Links(|vals|, rs) && |ls| == |rs| && |f| == |vals| - |ls|
    requires k < |vals|
    decreases |vals| - k
  {
    if k >= |ls| then f[k - |ls|]
    else Node(vals[k],
              if ls[k] < 0 then Leaf else Plug(vals, ls, rs, f, ls[k]),
              if rs[k] < 0 then Leaf else Plug(vals, ls, rs, f, rs[k]))
  }

  ghost function LeftLink<T>(size: nat, l: Token<T>): int {
    if l.Num? then size else -1
  }

  ghost function RightLink<T>(size: nat, l: Token<T>, r: Token<T>): int {
    if r.Num? then size + |Kids(l, Null)| else -1
  }

  lemma {:induction false} PlugUnfold<T>(vals: seq<T>, ls: seq<int>, rs: seq<int>, f: seq<Tree<T>>,
                                         l: Token<T>, r: Token<T>, g: seq<Tree<T>>, k: nat)
    requires Links(|vals|, ls) && Links(|vals|, rs) && |ls| == |rs| < |vals| && k < |vals|
    requires |f| == |vals| - |ls| && Expands(vals[|ls|], l, r, f, g)
    ensures var vals', ls', rs' := vals + Kids(l, r), ls + [LeftLink(|vals|, l)], rs + [RightLink(|vals|, l, r)];
      Links(|vals'|, ls') && Links(|vals'|, rs') &&
      Plug(vals, ls, rs, f, k) == Plug(vals', ls', rs', g, k)
    decreases |vals| - k
  {
    if k < |ls| {
      if ls[k] >= 0 { PlugUnfold(vals, ls, rs, f, l, r, g, ls[k]); }
      if rs[k] >= 0 { PlugUnfold(vals, ls, rs, f, l, r, g, rs[k]); }
    }
  }

  /** Processing one more node does not change any tree already in the queue. */
  lemma PlugStep<T>(vals: seq<T>, ls: seq<int>, rs: seq<int>, toks: seq<Token<T>>)
    requires Links(|vals|, ls) && Links(|vals|, rs) && |ls| == |rs| < |vals| && toks != []
    ensures var l, r := toks[0], Second(toks);
      var vals', ls', rs' := vals + Kids(l, r), ls + [LeftLink(|vals|, l)], rs + [RightLink(|vals|, l, r)];
      Links(|vals'|, ls') && Links(|vals'|, rs') &&
      Plug(vals, ls, rs, Grow(vals[|ls|..], toks), 0) ==
      Plug(vals', ls', rs', Grow(vals'[|ls'|..], AfterTwo(toks)), 0)
  {
    var now, next := vals[|ls|..], (vals + Kids(toks[0], Second(toks)))[|ls| + 1..];
    assert next == now[1..] + Kids(toks[0], Second(toks));
    GrowExpands(now, toks, next);
    PlugUnfold(vals, ls, rs, Grow(now, toks), toks[0], Second(toks), Grow(next, AfterTwo(toks)), 0);
  }

  /** The queue holds distinct nodes of `repr`; processed nodes have the recorded links, the others none. */
  ghost predicate Linked<T>(queue: seq<TreeNode<T>>, vals: seq<T>, ls: seq<int>, rs: seq<int>, repr: set<TreeNode<T>>)
    reads repr
  {
    |vals| == |queue| && |ls| == |rs| && Links(|queue|, ls) && Links(|queue|, rs) &&
    (forall k :: 0 <= k < |queue| ==> queue[k] in repr && queue[k].val == vals[k]) &&
    (forall i, j :: 0 <= i < j < |queue| ==> queue[i] != queue[j]) &&
    (forall k :: 0 <= k < |ls| ==>
      queue[k].left == (if ls[k] < 0 then null else queue[ls[k]]) &&
      queue[k].right == (if rs[k] < 0 then null else queue[rs[k]])) &&
    (forall k :: |ls| <= k < |queue| ==> queue[k].left == null && queue[k].right == null)
  }

  lemma {:induction false} QueueHolds<T>(queue: seq<TreeNode<T>>, vals: seq<T>, ls: seq<int>, rs: seq<int>,
                                      repr: set<TreeNode<T>>, k: nat)
    requires Linked(queue, vals, ls, rs, repr) && k < |queue|
    ensures Holds(queue[k], Plug(vals, ls, rs, Bare(vals[|ls|..]), k), repr)
    decreases |queue| - k
  {
    if k < |ls| {
      if ls[k] >= 0 { QueueHolds(queue, vals, ls, rs, repr, ls[k]); }
      if rs[k] >= 0 { QueueHolds(queue, vals, ls, rs, repr, rs[k]); }
    }
  }

  // ------------------------------------------------------------ no node at two positions

  ghost predicate Upward(ps: seq<int>) {
    forall i :: 0 <= i < |ps| ==> -1 <= ps[i] < i
  }

  /** Every processed node is the parent of the nodes its links name; a parent is queued before its children. */
  ghost predicate Parented(ls: seq<int>, rs: seq<int>, ps: seq<int>) {
    |ls| == |rs| && Links(|ps|, ls) && Links(|ps|, rs) && Upward(ps) &&
    (forall k :: 0 <= k < |ls| ==> (ls[k] >= 0 ==> ps[ls[k]] == k) && (rs[k] >= 0 ==> ps[rs[k]] == k)) &&
    (forall k :: 0 <= k < |ls| ==> ls[k] >= 0 ==> ls[k] != rs[k])
  }

  lemma ParentedStep<T>(ls: seq<int>, rs: seq<int>, ps: seq<int>, l: Token<T>, r: Token<T>)
    requires Parented(ls, rs, ps) && |ls| < |ps|
    ensures Parented(ls + [LeftLink(|ps|, l)], rs + [RightLink(|ps|, l, r)], ps + seq(|Kids(l, r)|, _ => |ls|))
  {
  }

  /** Going up from index j leads to index k. */
  ghost predicate Climbs(ps: seq<int>, j: int, k: int)
    requires Upward(ps)
    decreases j
  {
    j == k || (k < j < |ps| && 0 <= j && Climbs(ps, ps[j], k))
  }

  lemma {:induction false} ClimbsOn(ps: seq<int>, j: int, b: int, a: int)
    requires Upward(ps)
    requires a < b && Climbs(ps, j, a) && Climbs(ps, j, b)
    ensures Climbs(ps, b, a)
    decreases j
  {
    if j != b { ClimbsOn(ps, ps[j], b, a); }
  }

  /** Below two children of one node lie different indices. */
  lemma Siblings(ps: seq<int>, j: int, a: int, b: int)
    requires Upward(ps)
    requires 0 <= a < |ps| && 0 <= b < |ps| && a != b && ps[a] == ps[b]
    ensures !(Climbs(ps, j, a) && Climbs(ps, j, b))
  {
    if Climbs(ps, j, a) && Climbs(ps, j, b) {
      if a < b { ClimbsOn(ps, j, b, a); } else { ClimbsOn(ps, j, a, b); }
    }
  }

  lemma {:induction false} ClimbsVia(ps: seq<int>, j: int, b: int)
    requires Upward(ps)
    requires 0 <= b < |ps| && Climbs(ps, j, b)
    ensures Climbs(ps, j, ps[b]) && j >= b
    decreases j
  {
    if j != b { ClimbsVia(ps, ps[j], b); }
  }

  /** The queued nodes from which going up leads to index k. */
  ghost function Below<T>(queue: seq<TreeNode<T>>, ps: seq<int>, k: int): set<TreeNode<T>>
    requires Upward(ps)
  {
    set j | 0 <= j < |queue| && Climbs(ps, j, k) :: queue[j]
  }

  ghost predicate Distinct<T>(queue: seq<TreeNode<T>>) {
    forall i, j :: 0 <= i < j < |queue| ==> queue[i] != queue[j]
  }

  lemma BelowChild<T>(queue: seq<TreeNode<T>>, ps: seq<int>, a: int, k: int)
    requires Upward(ps) && Distinct(queue) && 0 <= a < |ps| == |queue| && ps[a] == k >= 0
    ensures Below(queue, ps, a) <= Below(queue, ps, k) && queue[k] !in Below(queue, ps, a)
  {
    forall j | 0 <= j < |queue| && Climbs(ps, j, a)
      ensures Climbs(ps, j, k) && queue[j] != queue[k]
    {
      ClimbsVia(ps, j, a);
    }
  }

  lemma BelowSiblings<T>(queue: seq<TreeNode<T>>, ps: seq<int>, a: int, b: int)
    requires Upward(ps) && Distinct(queue) && 0 <= a < |ps| == |queue| && 0 <= b < |ps| && a != b && ps[a] == ps[b]
    ensures Below(queue, ps, a) !! Below(queue, ps, b)
  {
    forall i, j | 0 <= i < |queue| && Climbs(ps, i, a) && 0 <= j < |queue| && Climbs(ps, j, b)
      ensures queue[i] != queue[j]
    {
      Siblings(ps, i, a, b);
    }
  }

  /** When every queued node has its links, its nodes lie below it, no two positions on the same one. */
  lemma {:induction false} QueueApart<T>(queue: seq<TreeNode<T>>, vals: seq<T>, ls: seq<int>, rs: seq<int>, ps: seq<int>,
                                         repr: set<TreeNode<T>>, k: nat)
    requires Linked(queue, vals, ls, rs, repr) && Parented(ls, rs, ps) && |ps| == |queue| && k < |queue|
    ensures var t := Plug(vals, ls, rs, Bare(vals[|ls|..]), k);
      Holds(queue[k], t, repr) && Nodes(queue[k], t, repr) <= Below(queue, ps, k) && Apart(queue[k], t, repr)
    decreases |queue| - k
  {
    QueueHolds(queue, vals, ls, rs, repr, k);
    assert queue[k] in Below(queue, ps, k) by {
      assert Climbs(ps, k, k);
    }
    if k < |ls| {
      if ls[k] >= 0 {
        QueueApart(queue, vals, ls, rs, ps, repr, ls[k]);
        BelowChild(queue, ps, ls[k], k);
      }
      if rs[k] >= 0 {
        QueueApart(queue, vals, ls, rs, ps, repr, rs[k]);
        BelowChild(queue, ps, rs[k], k);
      }
      if ls[k] >= 0 && rs[k] >= 0 { BelowSiblings(queue, ps, ls[k], rs[k]); }
    }
  }

  // ------------------------------------------------------------ the loop

  ghost function Unread<T>(toks: seq<Token<T>>, i: nat): seq<Token<T>> {
    if i < |toks| then toks[i..] else []
  }

  lemma UnreadStep<T>(toks: seq<Token<T>>, i: nat)
    requires i < |toks|
    ensures Unread(toks, i)[0] == toks[i]
    ensures Second(Unread(toks, i)) == if i + 1 < |toks| then toks[i + 1] else Null
    ensures AfterTwo(Unread(toks, i)) == Unread(toks, i + 2)
  {
  }

  /** What has been read so far and what is still unread together stand for the tree `goal`. */
  ghost predicate SoFar<T>(vals: seq<T>, ls: seq<int>, rs: seq<int>, ps: seq<int>, toks: seq<Token<T>>, i: nat, goal: Tree<T>) {
    |vals| == |ps| > 0 && Parented(ls, rs, ps) && Plug(vals, ls, rs, Grow(vals[|ls|..], Unread(toks, i)), 0) == goal
  }

  lemma SoFarStart<T>(toks: seq<Token<T>>)
    requires toks != [] && toks[0].Num?
    ensures SoFar([toks[0].v], [], [], [-1], toks, 1, Decode(toks))
  {
    assert [toks[0].v][0..] == [toks[0].v];
    assert Unread(toks, 1) == toks[1..];
  }

  lemma SoFarStep<T>(vals: seq<T>, ls: seq<int>, rs: seq<int>, ps: seq<int>, toks: seq<Token<T>>, i: nat, goal: Tree<T>,
                     l: Token<T>, r: Token<T>)
    requires SoFar(vals, ls, rs, ps, toks, i, goal) && |ls| < |vals| && i < |toks|
    requires l == toks[i] && r == if i + 1 < |toks| then toks[i + 1] else Null
    ensures SoFar(vals + Kids(l, r), ls + [LeftLink(|vals|, l)], rs + [RightLink(|vals|, l, r)],
                  ps + seq(|Kids(l, r)|, _ => |ls|), toks, i + 2, goal)
  {
    UnreadStep(toks, i);
    PlugStep(vals, ls, rs, Unread(toks, i));
    ParentedStep(ls, rs, ps, l, r);
  }

  lemma SoFarDone<T>(vals: seq<T>, ls: seq<int>, rs: seq<int>, ps: seq<int>, toks: seq<Token<T>>, i: nat, goal: Tree<T>)
    requires SoFar(vals, ls, rs, ps, toks, i, goal) && (|ls| == |vals| || i >= |toks|)
    ensures Plug(vals, ls, rs, Bare(vals[|ls|..]), 0) == goal
  {
    assert Grow(vals[|ls|..], Unread(toks, i)) == Bare(vals[|ls|..]);
  }

  /** Gives the node at the head of the queue its left child. */
  method AttachLeft<T>(queue: seq<TreeNode<T>>, head: nat, v: T,
                       ghost vals: seq<T>, ghost ls: seq<int>, ghost rs: seq<int>, ghost repr: set<TreeNode<T>>)
    returns (child: TreeNode<T>)
    requires Linked(queue, vals, ls, rs, repr) && head == |ls| < |queue|
    modifies queue[head]
    ensures fresh(child)
    ensures Linked(queue + [child], vals + [v], ls + [|queue|], rs + [-1], repr + {child})
  {
    child := new TreeNode(v);
    queue[head].left := child;
  }

  /** Gives the node most recently processed its right child. */
  method AttachRight<T>(queue: seq<TreeNode<T>>, head: nat, v: T,
                        ghost vals: seq<T>, ghost ls: seq<int>, ghost rs: seq<int>, ghost repr: set<TreeNode<T>>)
    returns (child: TreeNode<T>)
    requires Linked(queue, vals, ls, rs, repr) && head + 1 == |ls| && rs[head] == -1
    modifies queue[head]
    ensures fresh(child)
    ensures Linked(queue + [child], vals + [v], ls, rs[head := |queue|], repr + {child})
  {
    child := new TreeNode(v);
    queue[head].right := child;
  }

  /** One round of the reader's loop: the node at the head of the queue receives its children. */
  method Expand<T>(queue: seq<TreeNode<T>>, head: nat, toks: seq<Token<T>>, i: nat,
                ghost vals: seq<T>, ghost ls: seq<int>, ghost rs: seq<int>, ghost repr: set<TreeNode<T>>)
    returns (queue': seq<TreeNode<T>>, ghost repr': set<TreeNode<T>>)
    requires Linked(queue, vals, ls, rs, repr) && head == |ls| < |queue| && i < |toks|
    modifies queue[head]
    ensures var l, r := toks[i], if i + 1 < |toks| then toks[i + 1] else Null;
      Linked(queue', vals + Kids(l, r), ls + [LeftLink(|queue|, l)], rs + [RightLink(|queue|, l, r)], repr')
    ensures queue <= queue' && repr <= repr' && fresh(repr' - repr)
  {
    ghost var vals', ls', rs' := vals, ls + [-1], rs + [-1];
    ghost var l, r := toks[i], if i + 1 < |toks| then toks[i + 1] else Null;
    queue', repr' := queue, repr;
    if toks[i].Num? {
      var child := AttachLeft(queue', head, toks[i].v, vals, ls, rs, repr);
      vals', ls', repr' := vals + [toks[i].v], ls + [|queue|], repr + {child};
      queue' := queue + [child];
    }
    assert Linked(queue', vals', ls', rs', repr');
    if i + 1 < |toks| && toks[i + 1].Num? {
      var child := AttachRight(queue', head, toks[i + 1].v, vals', ls', rs', repr');
      vals', rs', repr' := vals' + [toks[i + 1].v], rs'[head := |queue'|], repr' + {child};
      queue' := queue' + [child];
    }
    assert vals' == vals + Kids(l, r);
    assert ls' == ls + [LeftLink(|queue|, l)];
    assert rs' == rs + [RightLink(|queue|, l, r)];
  }

  /** The record of the loop: values in queue order, links of the processed nodes, and parents. */
  datatype Book<T> = Book(vals: seq<T>, ls: seq<int>, rs: seq<int>, ps: seq<int>)

  ghost predicate OnTrack<T>(queue: seq<TreeNode<T>>, book: Book<T>, repr: set<TreeNode<T>>, toks: seq<Token<T>>, i: nat,
                             goal: Tree<T>)
    reads repr
  {
    match book
    case Book(vals, ls, rs, ps) => Linked(queue, vals, ls, rs, repr) && SoFar(vals, ls, rs, ps, toks, i, goal)
  }

  method Round<T>(queue: seq<TreeNode<T>>, head: nat, toks: seq<Token<T>>, i: nat,
               ghost book: Book<T>, ghost repr: set<TreeNode<T>>, ghost goal: Tree<T>)
    returns (queue': seq<TreeNode<T>>, ghost book': Book<T>, ghost repr': set<TreeNode<T>>)
    requires OnTrack(queue, book, repr, toks, i, goal) && head == |book.ls| < |queue| && i < |toks|
    modifies repr
    ensures OnTrack(queue', book', repr', toks, i + 2, goal) && |book'.ls| == head + 1
    ensures queue <= queue' && repr <= repr' && fresh(repr' - repr)
  {
    ghost var l, r := toks[i], if i + 1 < |toks| then toks[i + 1] else Null;
    SoFarStep(book.vals, book.ls, book.rs, book.ps, toks, i, goal, l, r);
    queue', repr' := Expand(queue, head, toks, i, book.vals, book.ls, book.rs, repr);
    book' := Book(book.vals + Kids(l, r), book.ls + [LeftLink(|queue|, l)], book.rs + [RightLink(|queue|, l, r)],
                  book.ps + seq(|Kids(l, r)|, _ => |book.ls|));
  }

  lemma Finished<T>(queue: seq<TreeNode<T>>, book: Book<T>, repr: set<TreeNode<T>>, toks: seq<Token<T>>, i: nat, goal: Tree<T>)
    requires OnTrack(queue, book, repr, toks, i, goal) && (|book.ls| == |queue| || i >= |toks|)
    ensures queue != [] && Holds(queue[0], goal, repr) && Apart(queue[0], goal, repr)
  {
    SoFarDone(book.vals, book.ls, book.rs, book.ps, toks, i, goal);
    QueueApart(queue, book.vals, book.ls, book.rs, book.ps, repr, 0);
  }

  lemma Started<T>(root: TreeNode<T>, toks: seq<Token<T>>)
    requires toks != [] && toks[0].Num? && root.val == toks[0].v && root.left == null && root.right == null
    ensures OnTrack([root], Book([toks[0].v], [], [], [-1]), {root}, toks, 1, Decode(toks))
  {
    SoFarStart(toks);
  }

  /** The loop of the reader, below the root. */
  method AttachAll<T>(root: TreeNode<T>, toks: seq<Token<T>>) returns (ghost repr: set<TreeNode<T>>)
    requires toks != [] && toks[0].Num? && root.val == toks[0].v && root.left == null && root.right == null
    modifies root
    ensures fresh(repr - {root})
    ensures Holds(root, Decode(toks), repr) && Apart(root, Decode(toks), repr)
  {
    var queue: seq<TreeNode<T>> := [root];
    var head, i := 0, 1;
    ghost var book := Book([toks[0].v], [], [], [-1]);
    repr := {root};
    Started(root, toks);
    while head < |queue| && i < |toks|
      invariant head == |book.ls| && |queue| > 0 && queue[0] == root && fresh(repr - {root})
      invariant OnTrack(queue, book, repr, toks, i, Decode(toks))
      decreases |toks| - i
    {
      queue, book, repr := Round(queue, head, toks, i, book, repr, Decode(toks));
      head, i := head + 1, i + 2;
    }
    Finished(queue, book, repr, toks, i, Decode(toks));
  }

  /** Builds the linked tree that a level-order token list denotes. */
  method ReadTree<T>(toks: seq<Token<T>>) returns (root: TreeNode?<T>, ghost repr: set<TreeNode<T>>)
    ensures fresh(repr)
    ensures Holds(root, Decode(toks), repr) && Apart(root, Decode(toks), repr)
  {
    if |toks| == 0 || toks[0].Null? {
      return null, {};
    }
    root := new TreeNode(toks[0].v);
    repr := AttachAll(root, toks);
  }

  // ------------------------------------------------------------ printer

  /** The loop that drops trailing nulls. */
  method PopNulls<T>(a: seq<Token<T>>) returns (out: seq<Token<T>>)
    ensures out == Trim(a)
  {
    out := a;
    while |out| > 0 && out[|out| - 1].Null?
      invariant Trim(out) == Trim(a)
    {
      out := out[..|out| - 1];
    }
  }

  lemma WalkAdvance<T>(out: seq<Token<T>>, trees: seq<Tree<T>>, i: nat, trees': seq<Tree<T>>)
    requires i < |trees| && trees' == trees + Children(trees[i])
    ensures out + Walk(trees[i..]) == out + [Head(trees[i])] + Walk(trees'[i + 1..])
    ensures QueueWeight(trees'[i + 1..]) < QueueWeight(trees[i..])
  {
    assert trees'[i + 1..] == trees[i..][1..] + Children(trees[i]);
    WalkStep(trees[i..], trees'[i + 1..]);
  }

  /** The queued nodes stand for the listed trees. */
  ghost predicate AllHold<T>(queue: seq<TreeNode?<T>>, trees: seq<Tree<T>>, repr: set<TreeNode<T>>)
    reads repr
  {
    |queue| == |trees| && forall k :: 0 <= k < |queue| ==> Holds(queue[k], trees[k], repr)
  }

  lemma AllHoldAppend<T>(queue: seq<TreeNode?<T>>, trees: seq<Tree<T>>, repr: set<TreeNode<T>>, i: nat)
    requires AllHold(queue, trees, repr) && i < |queue| && queue[i] != null
    ensures trees[i].Node? && queue[i].val == trees[i].val && queue[i] in repr
    ensures AllHold(queue + [queue[i].left, queue[i].right], trees + Children(trees[i]), repr)
  {
    assert Holds(queue[i], trees[i], repr);
  }

  /** Level-order print of a linked tree. */
  method ToLevelOrder<T>(root: TreeNode?<T>, ghost t: Tree<T>, ghost repr: set<TreeNode<T>>) returns (out: seq<Token<T>>)
    requires Holds(root, t, repr)
    ensures out == Tokens(t)
  {
    out := [];
    var queue: seq<TreeNode?<T>> := [root];
    ghost var trees := [t];
    var i := 0;
    while i < |queue|
      invariant i <= |queue| && AllHold(queue, trees, repr)
      invariant out + Walk(trees[i..]) == Walk([t])
      decreases QueueWeight(trees[i..])
    {
      var node := queue[i];
      ghost var trees' := trees + Children(trees[i]);
      WalkAdvance(out, trees, i, trees');
      if node == null {
        assert Holds(node, trees[i], repr);
        out := out + [Null];
      } else {
        AllHoldAppend(queue, trees, repr, i);
        out := out + [Num(node.val)];
        queue := queue + [node.left, node.right];
      }
      trees := trees';
      i := i + 1;
    }
    assert trees[i..] == [];
    assert out == Walk([t]);
    out := PopNulls(out);
  }

  lemma CapExit<T>(out: seq<T>, rest: seq<T>, full: seq<T>, cap: nat)
    requires out + rest == full && |out| <= cap + 1 && (|out| == cap + 1 || rest == [])
    ensures out == if |full| <= cap then full else full[..cap + 1]
  {
  }

  /** The harness printer stops once more than `cap` tokens have been written. */
  method FmtTree<T>(root: TreeNode?<T>, cap: nat, ghost t: Tree<T>, ghost repr: set<TreeNode<T>>) returns (out: seq<Token<T>>)
    requires Holds(root, t, repr)
    ensures out == Trim(if |Walk([t])| <= cap then Walk([t]) else Walk([t])[..cap + 1])
  {
    out := [];
    var queue: seq<TreeNode?<T>> := [root];
    ghost var trees := [t];
    var head := 0;
    while head < |queue| && |out| <= cap
      invariant head <= |queue| && AllHold(queue, trees, repr)
      invariant |out| <= cap + 1
      invariant out + Walk(trees[head..]) == Walk([t])
      decreases QueueWeight(trees[head..])
    {
      var node := queue[head];
      ghost var trees' := trees + Children(trees[head]);
      WalkAdvance(out, trees, head, trees');
      head := head + 1;
      if node == null {
        assert Holds(node, trees[head - 1], repr);
        trees := trees';
        out := out + [Null];
        continue;
      }
      AllHoldAppend(queue, trees, repr, head - 1);
      trees := trees';
      out := out + [Num(node.val)];
      queue := queue + [node.left, node.right];
    }
    CapExit(out, Walk(trees[head..]), Walk([t]), cap);
    out := PopNulls(out);
  }

  lemma {:induction false} WalkLength<T>(q: seq<Tree<T>>)
    ensures |Walk(q)| == QueueWeight(q)
    decreases QueueWeight(q)
  {
    if q != [] {
      WalkStep(q, q[1..] + Children(q[0]));
      WalkLength(q[1..] + Children(q[0]));
    }
  }

  function NodeCount<T>(t: Tree<T>): nat {
    match t
    case Leaf => 0
    case Node(_, l, r) => 1 + NodeCount(l) + NodeCount(r)
  }

  lemma {:induction false} WeightIsOdd<T>(t: Tree<T>)
    ensures Weight(t) == 2 * NodeCount(t) + 1
  {
    if t.Node? {
      WeightIsOdd(t.left);
      WeightIsOdd(t.right);
    }
  }

  /** When no two positions share a node, there are as many nodes as positions. */
  lemma {:induction false} ApartCounts<T>(n: TreeNode?<T>, t: Tree<T>, repr: set<TreeNode<T>>)
    requires Holds(n, t, repr) && Apart(n, t, repr)
    ensures |Nodes(n, t, repr)| == NodeCount(t)
  {
    match t
    case Leaf =>
    case Node(_, l, r) =>
      ApartCounts(n.left, l, repr);
      ApartCounts(n.right, r, repr);
  }

  const TREE_TOKEN_CAP: nat := 400000

  lemma CapSuffices<T>(t: Tree<T>)
    requires NodeCount(t) <= 200_000
    ensures |Walk([t])| <= 400_000 || Walk([t])[..400_001] == Walk([t])
  {
    WalkLength([t]);
    WeightIsOdd(t);
    assert QueueWeight([t]) == Weight(t) + QueueWeight([t][1..]);
    assert Walk([t])[..|Walk([t])|] == Walk([t]);
  }

  /** The print is complete, and reads back as the same tree, up to 200000 nodes. */
  method PrintAndReadBack<T>(root: TreeNode?<T>, ghost t: Tree<T>, ghost repr: set<TreeNode<T>>)
    returns (out: seq<Token<T>>, copy: TreeNode?<T>, ghost copyRepr: set<TreeNode<T>>)
    requires Holds(root, t, repr)
    ensures out == Trim(if |Walk([t])| <= 400_000 then Walk([t]) else Walk([t])[..400_001])
    ensures NodeCount(t) <= 200_000 ==>
      out == Tokens(t) && Holds(copy, t, copyRepr) && Apart(copy, t, copyRepr)
    ensures fresh(copyRepr)
  {
    out := FmtTree(root, TREE_TOKEN_CAP, t, repr);
    if NodeCount(t) <= 200_000 { CapSuffices(t); }
    DecodeTokens(t);
    copy, copyRepr := ReadTree(out);
  }
}
