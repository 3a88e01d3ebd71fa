/** The readers and printers that the generated harness runs around a candidate's function. */
module Harness {
  import opened Text
  import opened Decimal
  import opened LevelOrder
  import opened Codec
  import TreeNodes

  /** An argument as the candidate's function receives it. */
  datatype Arg =
    | ANumber(num: Decimal.Number)
    | ABool(b: bool)
    | AString(s: string)
    | ANumbers(ns: seq<Decimal.Number>)
    | ARows(rows: seq<seq<Decimal.Number>>)
    | AStrings(ss: seq<string>)
    | AList(ns: seq<Decimal.Number>)
    | ATree(t: Tree<Decimal.Number>)

  // ------------------------------------------------------------ specification of the readers

  function LineAt(lines: seq<string>, pos: nat): string {
    StripCR(if pos < |lines| then lines[pos] else "")
  }

  function NextLine(lines: seq<string>, pos: nat): nat {
    if pos < |lines| then pos + 1 else pos
  }

  function IntAt(lines: seq<string>, pos: nat): Decimal.Number {
    ParseInt(Text.Trim(LineAt(lines, pos)))
  }

  /** Where slice ends: a negative end counts from the back. */
  function SliceEnd(len: nat, end: int): (e: nat)
    ensures e <= len
  {
    if end >= 0 then (if end <= len then end else len)
    else if len + end >= 0 then len + end else 0
  }

  /** slice(0, n) */
  function Prefix<T>(s: seq<T>, n: Decimal.Number): seq<T> {
    if n.Int? then s[..SliceEnd(|s|, n.n)] else []
  }

  function Numbers(ws: seq<string>): (r: seq<Decimal.Number>)
    ensures |r| == |ws| && forall i :: 0 <= i < |r| ==> r[i] == ParseNumber(ws[i])
  {
    seq(|ws|, i requires 0 <= i < |ws| => ParseNumber(ws[i]))
  }

  /** The values line of an integer list whose length line gave n. */
  function ListFrom(n: Decimal.Number, line: string): seq<Decimal.Number> {
    Numbers(Prefix(Words(line), n))
  }

  function IntListAt(lines: seq<string>, pos: nat): seq<Decimal.Number> {
    ListFrom(IntAt(lines, pos), LineAt(lines, NextLine(lines, pos)))
  }

  function NextTwo(lines: seq<string>, pos: nat): nat {
    NextLine(lines, NextLine(lines, pos))
  }

  /** One matrix row: the leading count says how many of the following numbers belong to it. */
  function RowOf(line: string): seq<Decimal.Number> {
    RowFrom(Numbers(Words(line)))
  }

  /** slice(1, 1 + k) where k is the leading number */
  function RowFrom(t: seq<Decimal.Number>): seq<Decimal.Number> {
    if t == [] || !t[0].Int? then [] else DropFirst(Prefix(t, Int(1 + t[0].n)))
  }

  function DropFirst<T>(s: seq<T>): seq<T> {
    if s == [] then [] else s[1..]
  }

  /** A list line: of the numbers on it the announced ones are taken, all of them when more are announced; a negative
      announcement counts from the back, and none at all takes nothing. */
  lemma ListExactly(n: Decimal.Number, line: string)
    ensures var all, r := Numbers(Words(line)), ListFrom(n, line);
      if !n.Int? then r == []
      else if n.n > |all| then r == all
      else if n.n >= 0 then r == all[..n.n]
      else if n.n > -|all| then r == all[..|all| + n.n]
      else r == []
  {
    assert Words(line)[..|Words(line)|] == Words(line);
  }

  /** A row line that starts with k: the next k numbers, or all there are; a k below -1 leaves out as many numbers at
      the back, less one. */
  lemma RowExactly(line: string)
    ensures var all, r := Numbers(Words(line)), RowOf(line);
      if all == [] || !all[0].Int? || all[0].n == -1 then r == []
      else var k := all[0].n;
        if k >= |all| then r == all[1..]
        else if k >= 0 then r == all[1..k + 1]
        else if k >= -|all| then r == all[1..|all| + k + 1]
        else r == []
  {
  }

  /** The position after reading `count` lines. */
  function Skip(lines: seq<string>, pos: nat, count: nat): nat {
    if pos + count <= |lines| then pos + count else if pos <= |lines| then |lines| else pos
  }

  /** What the row loops collect: f of each of `count` consecutive lines. */
  function LinesAt<T>(lines: seq<string>, pos: nat, count: nat, f: string -> T): (r: seq<T>)
    ensures |r| == count && forall i :: 0 <= i < count ==> r[i] == f(LineAt(lines, pos + i))
  {
    seq(count, i requires 0 <= i < count => f(LineAt(lines, pos + i)))
  }

  function Same(line: string): string {
    line
  }

  function Count(n: Decimal.Number): nat {
    if n.Int? && n.n > 0 then n.n else 0
  }

  function TokenOf(w: string): Token<Decimal.Number> {
    if w == "null" then Null else Num(ParseNumber(w))
  }

  function TokensOf(ws: seq<string>): (r: seq<Token<Decimal.Number>>)
    ensures |r| == |ws| && forall i :: 0 <= i < |r| ==> r[i] == TokenOf(ws[i])
  {
    seq(|ws|, i requires 0 <= i < |ws| => TokenOf(ws[i]))
  }

  function TreeFrom(n: Decimal.Number, line: string): seq<Token<Decimal.Number>> {
    TokensOf(Prefix(Words(line), n))
  }

  function TreeTokensAt(lines: seq<string>, pos: nat): seq<Token<Decimal.Number>> {
    TreeFrom(IntAt(lines, pos), LineAt(lines, NextLine(lines, pos)))
  }

  function RowsAt(lines: seq<string>, pos: nat): seq<seq<Decimal.Number>> {
    LinesAt(lines, NextLine(lines, pos), Count(IntAt(lines, pos)), RowOf)
  }

  function StringsAt(lines: seq<string>, pos: nat): seq<string> {
    LinesAt(lines, NextLine(lines, pos), Count(IntAt(lines, pos)), Same)
  }

  function AfterCounted(lines: seq<string>, pos: nat): nat {
    Skip(lines, NextLine(lines, pos), Count(IntAt(lines, pos)))
  }

  /** Reads one argument of the given type starting at line `pos`; returns it with the next position. */
  function ReadAt(ty: ValueType, lines: seq<string>, pos: nat): (Arg, nat) {
    match ty
    case IntT | LongT => (ANumber(IntAt(lines, pos)), NextLine(lines, pos))
    case DoubleT => (ANumber(ParseNumber(Text.Trim(LineAt(lines, pos)))), NextLine(lines, pos))
    case BoolT => (ABool(Text.Trim(LineAt(lines, pos)) == "true"), NextLine(lines, pos))
    case StringT => (AString(LineAt(lines, pos)), NextLine(lines, pos))
    case IntArrayT => (ANumbers(IntListAt(lines, pos)), NextTwo(lines, pos))
    case ListT => (AList(IntListAt(lines, pos)), NextTwo(lines, pos))
    case IntMatrixT => (ARows(RowsAt(lines, pos)), AfterCounted(lines, pos))
    case StringArrayT => (AStrings(StringsAt(lines, pos)), AfterCounted(lines, pos))
    case TreeT => (ATree(Decode(TreeTokensAt(lines, pos))), NextTwo(lines, pos))
  }

  type Reader = (ValueType, seq<string>, nat) -> (Arg, nat)

  /** The harness reads its arguments in signature order. */
  function ReadAll(read: Reader, types: seq<ValueType>, lines: seq<string>, pos: nat): (seq<Arg>, nat)
  {
    if types == [] then ([], pos)
    else
      var (a, p) := read(types[0], lines, pos);
      var (rest, q) := ReadAll(read, types[1..], lines, p);
      ([a] + rest, q)
  }

  // ------------------------------------------------------------ the readers themselves

  class ListNode {
    var val: Decimal.Number
    var next: ListNode?

    constructor (v: Decimal.Number)
      ensures val == v && next == null
    {
      val, next := v, null;
    }
  }

  /** The list starting at `n` spells out `ns`. */
  ghost predicate Spells(n: ListNode?, ns: seq<Decimal.Number>, repr: set<ListNode>)
    reads repr
    decreases |ns|
  {
    if ns == [] then n == null
    else n != null && n in repr && n.val == ns[0] && Spells(n.next, ns[1..], repr)
  }

  /** Cells c[0], c[1], ... are linked in order. */
  ghost predicate Chain(c: seq<ListNode>, ns: seq<Decimal.Number>, repr: set<ListNode>)
    reads repr
  {
    |c| == |ns| + 1 && (forall k :: 0 <= k < |c| ==> c[k] in repr) &&
    (forall j, k :: 0 <= j < k < |c| ==> c[j] != c[k]) &&
    (forall k :: 0 <= k < |ns| ==> c[k].next == c[k + 1] && c[k + 1].val == ns[k]) &&
    c[|ns|].next == null
  }

  lemma {:induction false} ChainSpells(c: seq<ListNode>, ns: seq<Decimal.Number>, repr: set<ListNode>, k: nat)
    requires Chain(c, ns, repr) && k <= |ns|
    ensures Spells(c[k].next, ns[k..], repr)
    decreases |ns| - k
  {
    if k < |ns| {
      ChainSpells(c, ns, repr, k + 1);
      assert ns[k..][1..] == ns[k + 1..];
    }
  }

  /** Links a new cell behind the last one. */
  method Append(ghost cells: seq<ListNode>, cur: ListNode, v: Decimal.Number, ghost ns: seq<Decimal.Number>,
                ghost repr: set<ListNode>)
    returns (node: ListNode)
    requires Chain(cells, ns, repr) && cur == cells[|ns|]
    modifies cur
    ensures fresh(node) && Chain(cells + [node], ns + [v], repr + {node})
  {
    node := new ListNode(v);
    cur.next := node;
  }

  /** Builds the linked list behind a dummy cell. */
  method BuildList(vs: seq<Decimal.Number>) returns (head: ListNode?, ghost repr: set<ListNode>)
    ensures fresh(repr) && Spells(head, vs, repr)
  {
    var dummy := new ListNode(NaN);
    var cur := dummy;
    ghost var cells := [dummy];
    repr := {dummy};
    for k := 0 to |vs|
      invariant |cells| == k + 1 && cells[0] == dummy && cur == cells[k] && cur in repr
      invariant fresh(repr) && Chain(cells, vs[..k], repr)
    {
      var node := Append(cells, cur, vs[k], vs[..k], repr);
      assert vs[..k] + [vs[k]] == vs[..k + 1];
      cur := node;
      cells := cells + [node];
      repr := repr + {node};
    }
    assert vs[..|vs|] == vs;
    ChainSpells(cells, vs, repr, 0);
    head := dummy.next;
  }

  // ------------------------------------------------------------ arguments as the candidate's function receives them

  /** A value, or a reference to the first node of a list or to the root of a tree. */
  datatype Loaded =
    | Plain(value: Arg)
    | ListRef(head: ListNode?)
    | TreeRef(root: TreeNodes.TreeNode?<Decimal.Number>)

  /** The nodes behind one argument. */
  datatype Heap = Heap(lists: set<ListNode>, trees: set<TreeNodes.TreeNode<Decimal.Number>>)

  /** What is passed stands for the argument a. */
  ghost predicate Stands(x: Loaded, a: Arg, heap: Heap)
    reads heap.lists, heap.trees
  {
    match x
    case Plain(v) => a == v && !a.AList? && !a.ATree?
    case ListRef(head) => a.AList? && Spells(head, a.ns, heap.lists)
    case TreeRef(root) => a.ATree? && TreeNodes.Holds(root, a.t, heap.trees) && TreeNodes.Apart(root, a.t, heap.trees)
  }

  ghost predicate AllStand(xs: seq<Loaded>, out: seq<Arg>, heaps: seq<Heap>)
    reads set i, x | 0 <= i < |heaps| && x in heaps[i].lists :: x
    reads set i, x | 0 <= i < |heaps| && x in heaps[i].trees :: x
  {
    |xs| == |out| == |heaps| && forall i :: 0 <= i < |xs| ==> Stands(xs[i], out[i], heaps[i])
  }

  /** Reading the rest of the types from `pos` completes what was read since `start`. */
  ghost predicate ReadsOn(types: seq<ValueType>, lines: seq<string>, start: nat, out: seq<Arg>, pos: nat, rest: seq<ValueType>) {
    var (more, end) := ReadAll(ReadAt, rest, lines, pos);
    ReadAll(ReadAt, types, lines, start) == (out + more, end)
  }

  lemma ReadsFromStart(types: seq<ValueType>, lines: seq<string>, start: nat, out: seq<Arg>, pos: nat, rest: seq<ValueType>)
    requires out == [] && pos == start && rest == types
    ensures ReadsOn(types, lines, start, out, pos, rest)
  {
    var more := ReadAll(ReadAt, rest, lines, pos).0;
    assert [] + more == more;
  }

  lemma ReadsNext(types: seq<ValueType>, lines: seq<string>, start: nat, out: seq<Arg>, pos: nat, rest: seq<ValueType>,
                    ty: ValueType, rest': seq<ValueType>)
    requires ReadsOn(types, lines, start, out, pos, rest) && rest == [ty] + rest'
    ensures var (a, p) := ReadAt(ty, lines, pos);
      ReadsOn(types, lines, start, out + [a], p, rest')
  {
    var (a, p) := ReadAt(ty, lines, pos);
    var more := ReadAll(ReadAt, rest', lines, p).0;
    assert rest[1..] == rest';
    assert out + ([a] + more) == out + [a] + more;
  }

  lemma ReadsToEnd(types: seq<ValueType>, lines: seq<string>, start: nat, out: seq<Arg>, pos: nat, rest: seq<ValueType>)
    requires ReadsOn(types, lines, start, out, pos, rest) && rest == []
    ensures (out, pos) == ReadAll(ReadAt, types, lines, start)
  {
    var none: seq<Arg> := [];
    assert out + none == out;
  }

  class Stdin {
    const lines: seq<string>
    var pos: nat

    constructor (text: string)
      ensures lines == Split(text, IsNewline) && pos == 0
    {
      lines, pos := Split(text, IsNewline), 0;
    }

    method Line() returns (s: string)
      modifies this
      ensures s == LineAt(lines, old(pos)) && pos == NextLine(lines, old(pos))
    {
      if pos < |lines| {
        s := lines[pos];
        pos := pos + 1;
      } else {
        s := "";
      }
      s := StripCR(s);
    }

    method Int() returns (n: Decimal.Number)
      modifies this
      ensures n == IntAt(lines, old(pos)) && pos == NextLine(lines, old(pos))
    {
      var s := Line();
      n := ParseInt(Text.Trim(s));
    }

    method IntList() returns (ns: seq<Decimal.Number>)
      modifies this
      ensures ns == IntListAt(lines, old(pos)) && pos == NextTwo(lines, old(pos))
    {
      var n := Int();
      var s := Line();
      ns := ListFrom(n, s);
    }

    /** The loop shared by the matrix and the string list reader. */
    method ReadLines<T>(n: Decimal.Number, f: string -> T) returns (out: seq<T>)
      modifies this
      ensures out == LinesAt(lines, old(pos), Count(n), f) && pos == Skip(lines, old(pos), Count(n))
    {
      out := [];
      var i := 0;
      while n.Int? && i < n.n
        invariant 0 <= i <= Count(n) && |out| == i && pos == Skip(lines, old(pos), i)
        invariant forall j :: 0 <= j < i ==> out[j] == f(LineAt(lines, old(pos) + j))
        decreases Count(n) - i
      {
        var s := Line();
        out := out + [f(s)];
        i := i + 1;
      }
    }

    method IntMatrix() returns (rows: seq<seq<Decimal.Number>>)
      modifies this
      ensures rows == RowsAt(lines, old(pos)) && pos == AfterCounted(lines, old(pos))
    {
      var r := Int();
      rows := ReadLines(r, RowOf);
    }

    method StrList() returns (out: seq<string>)
      modifies this
      ensures out == StringsAt(lines, old(pos)) && pos == AfterCounted(lines, old(pos))
    {
      var n := Int();
      out := ReadLines(n, Same);
    }

    method LinkedList() returns (head: ListNode?, ghost ns: seq<Decimal.Number>, ghost repr: set<ListNode>)
      modifies this
      ensures ns == IntListAt(lines, old(pos)) && pos == NextTwo(lines, old(pos))
      ensures fresh(repr) && Spells(head, ns, repr)
    {
      var vs := IntList();
      ns := vs;
      head, repr := BuildList(vs);
    }

    method ReadTree() returns (root: TreeNodes.TreeNode?<Decimal.Number>, ghost t: Tree<Decimal.Number>,
                               ghost repr: set<TreeNodes.TreeNode<Decimal.Number>>)
      modifies this
      ensures t == Decode(TreeTokensAt(lines, old(pos))) && pos == NextTwo(lines, old(pos))
      ensures fresh(repr) && TreeNodes.Holds(root, t, repr) && TreeNodes.Apart(root, t, repr)
    {
      var n := Int();
      var s := Line();
      var toks := TreeFrom(n, s);
      root, repr := TreeNodes.ReadTree(toks);
      t := Decode(toks);
    }

    method Float() returns (n: Decimal.Number)
      modifies this
      ensures n == ParseNumber(Text.Trim(LineAt(lines, old(pos)))) && pos == NextLine(lines, old(pos))
    {
      var s := Line();
      n := ParseNumber(Text.Trim(s));
    }

    method Bool() returns (b: bool)
      modifies this
      ensures b == (Text.Trim(LineAt(lines, old(pos))) == "true") && pos == NextLine(lines, old(pos))
    {
      var s := Line();
      b := Text.Trim(s) == "true";
    }

    /** The reader of a plain type: numbers, strings, and arrays of them. */
    method ReadPlain(ty: ValueType) returns (a: Arg)
      requires !ty.ListT? && !ty.TreeT?
      modifies this
      ensures (a, pos) == ReadAt(ty, lines, old(pos)) && !a.AList? && !a.ATree?
    {
      match ty
      case IntT | LongT => var n := Int(); a := ANumber(n);
      case DoubleT => var n := Float(); a := ANumber(n);
      case BoolT => var b := Bool(); a := ABool(b);
      case StringT => var s := Line(); a := AString(s);
      case IntArrayT => var ns := IntList(); a := ANumbers(ns);
      case IntMatrixT => var rows := IntMatrix(); a := ARows(rows);
      case StringArrayT => var ss := StrList(); a := AStrings(ss);
    }

    /** The reader chosen by the type of a parameter. */
    method ReadArg(ty: ValueType) returns (x: Loaded, ghost a: Arg, ghost heap: Heap)
      modifies this
      ensures (a, pos) == ReadAt(ty, lines, old(pos))
      ensures Stands(x, a, heap) && fresh(heap.lists) && fresh(heap.trees)
    {
      if ty.ListT? {
        x, a, heap := ReadListRef();
      } else if ty.TreeT? {
        x, a, heap := ReadTreeRef();
      } else {
        var v := ReadPlain(ty);
        x, a, heap := Plain(v), v, Heap({}, {});
      }
    }

    method ReadListRef() returns (x: Loaded, ghost a: Arg, ghost heap: Heap)
      modifies this
      ensures (a, pos) == ReadAt(ListT, lines, old(pos))
      ensures Stands(x, a, heap) && fresh(heap.lists) && fresh(heap.trees)
    {
      var head, ns, repr := LinkedList();
      x, a, heap := ListRef(head), AList(ns), Heap(repr, {});
    }

    method ReadTreeRef() returns (x: Loaded, ghost a: Arg, ghost heap: Heap)
      modifies this
      ensures (a, pos) == ReadAt(TreeT, lines, old(pos))
      ensures Stands(x, a, heap) && fresh(heap.lists) && fresh(heap.trees)
    {
      var root, t, repr := ReadTree();
      x, a, heap := TreeRef(root), ATree(t), Heap({}, repr);
    }

    /** The generated main program reads its parameters one after the other. */
    method ReadArgs(types: seq<ValueType>) returns (xs: seq<Loaded>, ghost out: seq<Arg>, ghost heaps: seq<Heap>)
      modifies this
      ensures (out, pos) == ReadAll(ReadAt, types, lines, old(pos))
      ensures AllStand(xs, out, heaps) && |out| == |types|
      ensures forall i :: 0 <= i < |heaps| ==> fresh(heaps[i].lists) && fresh(heaps[i].trees)
    {
      xs, out, heaps := [], [], [];
      ghost var start := pos;
      ReadsFromStart(types, lines, start, [], start, types);
      for i := 0 to |types|
        invariant ReadsOn(types, lines, start, out, pos, types[i..])
        invariant AllStand(xs, out, heaps) && |out| == i
        invariant forall k :: 0 <= k < |heaps| ==> fresh(heaps[k].lists) && fresh(heaps[k].trees)
      {
        ReadsNext(types, lines, start, out, pos, types[i..], types[i], types[i + 1..]);
        var x;
        ghost var a, heap;
        x, a, heap := ReadArg(types[i]);
        xs, out, heaps := xs + [x], out + [a], heaps + [heap];
      }
      ReadsToEnd(types, lines, start, out, pos, types[|types|..]);
    }
  }
}
