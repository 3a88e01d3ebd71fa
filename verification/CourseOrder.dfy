/** Course prerequisites: counting open prerequisites, and colouring by depth-first search, both decide whether
    the courses can be put in order. */
module CourseOrder {

  /** (a, b): course b must be taken before course a. */
  type Pair = (int, int)

  ghost predicate Courses(es: seq<Pair>, n: int) {
    n >= 0 && forall k :: 0 <= k < |es| ==> 0 <= es[k].0 < n && 0 <= es[k].1 < n
  }

  /** A rank for every course, lower for its prerequisites. */
  ghost predicate Ranked(es: seq<Pair>, n: int, rank: seq<nat>) {
    Courses(es, n) && |rank| == n && forall k :: 0 <= k < |es| ==> rank[es[k].1] < rank[es[k].0]
  }

  ghost predicate CanFinish(es: seq<Pair>, n: int) {
    exists rank :: Ranked(es, n, rank)
  }

  /** Every prerequisite of a listed course stands before it. */
  ghost predicate Precedes(es: seq<Pair>, order: seq<int>) {
    forall p, k :: 0 <= p < |order| && 0 <= k < |es| && es[k].0 == order[p] ==> es[k].1 in order[..p]
  }

  lemma PrecedesAdd(es: seq<Pair>, order: seq<int>, x: int)
    requires Precedes(es, order) && forall k :: 0 <= k < |es| && es[k].0 == x ==> es[k].1 in order
    ensures Precedes(es, order + [x])
  {
    var next := order + [x];
    forall p, k | 0 <= p < |next| && 0 <= k < |es| && es[k].0 == next[p]
      ensures es[k].1 in next[..p]
    {
      assert next[..p] == order[..p];
      if p == |order| { assert order[..p] == order; }
    }
  }

  /** Where x stands first. */
  function Position(order: seq<int>, x: int): (p: nat)
    ensures p <= |order| && (p < |order| ==> order[p] == x) && forall i :: 0 <= i < p ==> order[i] != x
  {
    if order == [] || order[0] == x then 0 else 1 + Position(order[1..], x)
  }

  lemma {:induction false} PositionBefore(order: seq<int>, x: int, p: nat)
    requires p <= |order| && x in order[..p]
    ensures Position(order, x) < p
  {
    if order[0] != x {
      assert order[..p][1..] == order[1..][..p - 1];
      PositionBefore(order[1..], x, p - 1);
    }
  }

  lemma Places(order: seq<int>, n: nat) returns (rank: seq<nat>)
    ensures |rank| == n && forall x :: 0 <= x < n ==> rank[x] == Position(order, x)
  {
    rank := seq(n, x requires 0 <= x < n => Position(order, x));
  }

  /** A complete list with prerequisites first is a way to take all courses. */
  lemma ListedCanFinish(es: seq<Pair>, n: int, order: seq<int>)
    requires Courses(es, n) && Precedes(es, order) && forall x :: 0 <= x < n ==> x in order
    ensures CanFinish(es, n)
  {
    var rank := Places(order, n);
    forall k | 0 <= k < |es|
      ensures rank[es[k].1] < rank[es[k].0]
    {
      var p := Position(order, es[k].0);
      assert order[..|order|] == order;
      PositionBefore(order, es[k].0, |order|);
      assert es[k].1 in order[..p];
      PositionBefore(order, es[k].1, p);
    }
    assert Ranked(es, n, rank);
  }

  /** Some course of a non-empty set has the least rank. */
  lemma {:induction false} LowestRank(rank: seq<nat>, stuck: set<int>, x: int) returns (m: int)
    requires x in stuck && forall y :: y in stuck ==> 0 <= y < |rank|
    ensures m in stuck && forall y :: y in stuck ==> rank[m] <= rank[y]
    decreases rank[x]
  {
    m := x;
    if y :| y in stuck && rank[y] < rank[x] {
      m := LowestRank(rank, stuck, y);
    }
  }

  /** A course that waits for one of the set. */
  ghost predicate Waits(es: seq<Pair>, stuck: set<int>, y: int) {
    exists k :: 0 <= k < |es| && es[k].0 == y && es[k].1 in stuck
  }

  lemma StuckNotRanked(es: seq<Pair>, n: int, stuck: set<int>, x: int, rank: seq<nat>)
    requires x in stuck && |rank| == n && forall y :: y in stuck ==> 0 <= y < n && Waits(es, stuck, y)
    ensures !Ranked(es, n, rank)
  {
    var m := LowestRank(rank, stuck, x);
    var k :| 0 <= k < |es| && es[k].0 == m && es[k].1 in stuck;
    assert rank[m] <= rank[es[k].1];
  }

  /** Courses that each wait for another of them can never all be taken. */
  lemma StuckCannotFinish(es: seq<Pair>, n: int, stuck: set<int>, x: int)
    requires n >= 0 && x in stuck && forall y :: y in stuck ==> 0 <= y < n && Waits(es, stuck, y)
    ensures !CanFinish(es, n)
  {
    forall rank: seq<nat> | |rank| == n
      ensures !Ranked(es, n, rank)
    {
      StuckNotRanked(es, n, stuck, x, rank);
    }
  }

  // ------------------------------------------------------------ lists and counts

  /** What taking course b opens, and what course a needs, in the order of the pairs. */
  function Opens(es: seq<Pair>, b: int): seq<int> {
    if es == [] then []
    else Opens(es[..|es| - 1], b) + if es[|es| - 1].1 == b then [es[|es| - 1].0] else []
  }

  function Needs(es: seq<Pair>, a: int): seq<int> {
    if es == [] then []
    else Needs(es[..|es| - 1], a) + if es[|es| - 1].0 == a then [es[|es| - 1].1] else []
  }

  lemma {:induction false} NeedsAre(es: seq<Pair>, a: int, b: int)
    ensures b in Needs(es, a) <==> exists k :: 0 <= k < |es| && es[k] == (a, b)
  {
    if es != [] {
      var front, last := es[..|es| - 1], es[|es| - 1];
      NeedsAre(front, a, b);
      if k :| 0 <= k < |es| && es[k] == (a, b) {
        assert k < |front| ==> front[k] == (a, b);
      }
      if k :| 0 <= k < |front| && front[k] == (a, b) { assert es[k] == (a, b); }
      assert es[|es| - 1] == last;
    }
  }

  function Mult(s: seq<int>, x: int): nat {
    if s == [] then 0 else (if s[0] == x then 1 else 0) + Mult(s[1..], x)
  }

  lemma {:induction false} MultConcat(s: seq<int>, t: seq<int>, x: int)
    ensures Mult(s + t, x) == Mult(s, x) + Mult(t, x)
  {
    if s == [] {
      assert s + t == t;
    } else {
      assert (s + t)[1..] == s[1..] + t;
      MultConcat(s[1..], t, x);
    }
  }

  predicate Done(done: seq<bool>, b: int) {
    0 <= b < |done| && done[b]
  }

  /** How many prerequisites of x are not done. */
  function Waiting(es: seq<Pair>, done: seq<bool>, x: int): nat {
    if es == [] then 0
    else
      Waiting(es[..|es| - 1], done, x) +
      if es[|es| - 1].0 == x && !Done(done, es[|es| - 1].1) then 1 else 0
  }

  lemma {:induction false} WaitingZero(es: seq<Pair>, done: seq<bool>, x: int)
    ensures Waiting(es, done, x) == 0 <==> forall k :: 0 <= k < |es| && es[k].0 == x ==> Done(done, es[k].1)
  {
    if es != [] {
      var front, last := es[..|es| - 1], es[|es| - 1];
      WaitingZero(front, done, x);
      assert forall k :: 0 <= k < |front| ==> front[k] == es[k];
      assert es[|es| - 1] == last;
    }
  }

  /** Taking course u settles one prerequisite for every course it opens. */
  lemma {:induction false} WaitingDone(es: seq<Pair>, done: seq<bool>, u: int, x: int)
    requires 0 <= u < |done| && !done[u]
    ensures Waiting(es, done, x) == Waiting(es, done[u := true], x) + Mult(Opens(es, u), x)
  {
    if es != [] {
      var front, last := es[..|es| - 1], es[|es| - 1];
      WaitingDone(front, done, u, x);
      var added: seq<int> := if last.1 == u then [last.0] else [];
      MultConcat(Opens(front, u), added, x);
      MultOne(last.0, x);
      assert Done(done[u := true], last.1) == (Done(done, last.1) || last.1 == u);
    }
  }

  lemma MultOne(y: int, x: int)
    ensures Mult([y], x) == if y == x then 1 else 0
  {
    assert [y][1..] == [];
  }

  // ------------------------------------------------------------ counting open prerequisites

  ghost predicate Listed(order: seq<int>, n: int) {
    (forall p :: 0 <= p < |order| ==> 0 <= order[p] < n) && forall p, q :: 0 <= p < q < |order| ==> order[p] != order[q]
  }

  /** The queue holds exactly the courses without open prerequisites; its first q have been taken. */
  ghost predicate Queue(es: seq<Pair>, n: int, queue: seq<int>, q: int, done: seq<bool>) {
    Courses(es, n) && 0 <= q <= |queue| && |done| == n && Listed(queue, n) && Precedes(es, queue) &&
    forall x :: 0 <= x < n ==> (done[x] <==> x in queue[..q])
  }

  /** The counters, while the courses in `rest` have still to be told that a course was taken. */
  ghost predicate Counters(es: seq<Pair>, n: int, queue: seq<int>, done: seq<bool>, indegree: seq<int>, rest: seq<int>) {
    |indegree| == n &&
    forall x :: 0 <= x < n ==> indegree[x] == Waiting(es, done, x) + Mult(rest, x) && (x in queue <==> indegree[x] == 0)
  }

  lemma {:induction false} OpensInRange(es: seq<Pair>, n: int, b: int, k: nat)
    requires Courses(es, n) && k < |Opens(es, b)|
    ensures 0 <= Opens(es, b)[k] < n
  {
    var front, last := es[..|es| - 1], es[|es| - 1];
    assert forall j :: 0 <= j < |front| ==> front[j] == es[j];
    if k < |Opens(front, b)| { OpensInRange(front, n, b, k); }
  }

  lemma TakeCourse(es: seq<Pair>, n: int, queue: seq<int>, q: int, done: seq<bool>, indegree: seq<int>, u: int)
    requires Queue(es, n, queue, q, done) && Counters(es, n, queue, done, indegree, []) && q < |queue| && u == queue[q]
    ensures 0 <= u < n && Queue(es, n, queue, q + 1, done[u := true])
    ensures Counters(es, n, queue, done[u := true], indegree, Opens(es, u))
  {
    assert queue[..q + 1] == queue[..q] + [u];
    assert u !in queue[..q];
    forall x | 0 <= x < n
      ensures indegree[x] == Waiting(es, done[u := true], x) + Mult(Opens(es, u), x)
    {
      WaitingDone(es, done, u, x);
    }
  }

  lemma OpenCourse(es: seq<Pair>, n: int, queue: seq<int>, q: int, done: seq<bool>, indegree: seq<int>, rest: seq<int>, x: int)
    requires Queue(es, n, queue, q, done) && Counters(es, n, queue, done, indegree, rest) && rest != [] && x == rest[0]
    requires 0 <= x < n
    ensures indegree[x] > 0 && x !in queue
    ensures var next := if indegree[x] == 1 then queue + [x] else queue;
      Queue(es, n, next, q, done) && Counters(es, n, next, done, indegree[x := indegree[x] - 1], rest[1..])
  {
    if indegree[x] == 1 {
      WaitingZero(es, done, x);
      forall k | 0 <= k < |es| && es[k].0 == x
        ensures es[k].1 in queue
      {
        assert es[k].1 in queue[..q];
      }
      PrecedesAdd(es, queue, x);
      assert (queue + [x])[..q] == queue[..q];
    }
  }

  /** The inner loop: tell the courses that u opens. */
  method OpenAll(es: seq<Pair>, n: int, queue0: seq<int>, q: int, ghost done: seq<bool>, indegree: array<int>, out: seq<int>)
    returns (queue: seq<int>)
    requires Queue(es, n, queue0, q, done) && Counters(es, n, queue0, done, indegree[..], out)
    requires forall k :: 0 <= k < |out| ==> 0 <= out[k] < n
    modifies indegree
    ensures Queue(es, n, queue, q, done) && Counters(es, n, queue, done, indegree[..], [])
  {
    queue := queue0;
    assert out[0..] == out;
    for k := 0 to |out|
      invariant Queue(es, n, queue, q, done) && Counters(es, n, queue, done, indegree[..], out[k..])
    {
      var next := out[k];
      OpenCourse(es, n, queue, q, done, indegree[..], out[k..], next);
      assert out[k..][1..] == out[k + 1..];
      indegree[next] := indegree[next] - 1;
      if indegree[next] == 0 { queue := queue + [next]; }
    }
  }

  /** A list of different courses is complete exactly when it has n of them. */
  lemma AllListed(order: seq<int>, n: nat)
    requires Listed(order, n)
    ensures |order| <= n
    ensures |order| == n <==> forall x :: 0 <= x < n ==> x in order
  {
    var all := Range(n);
    var seen := Elements(order);
    forall x | x in seen
      ensures x in all
    {
      var p :| 0 <= p < |order| && order[p] == x;
    }
    SubsetSmaller(seen, all);
    if |order| == n { SubsetSame(seen, all); }
    if forall x :: 0 <= x < n ==> x in order {
      forall x | x in all ensures x in seen { assert x in order; }
      SubsetSmaller(all, seen);
    }
  }

  lemma {:induction false} Range(n: nat) returns (all: set<int>)
    ensures |all| == n && forall x :: x in all <==> 0 <= x < n
  {
    if n == 0 {
      all := {};
    } else {
      var less := Range(n - 1);
      all := less + {n - 1};
    }
  }

  lemma {:induction false} Elements(order: seq<int>) returns (seen: set<int>)
    requires forall p, q :: 0 <= p < q < |order| ==> order[p] != order[q]
    ensures |seen| == |order| && forall x :: x in seen <==> x in order
  {
    if order == [] {
      seen := {};
    } else {
      var front, last := order[..|order| - 1], order[|order| - 1];
      var less := Elements(front);
      assert last !in front;
      seen := less + {last};
    }
  }

  lemma SubsetSmaller(a: set<int>, b: set<int>)
    requires a <= b
    ensures |a| <= |b|
  {
    assert b == a + (b - a);
  }

  lemma SubsetSame(a: set<int>, b: set<int>)
    requires a <= b && |a| == |b|
    ensures a == b
  {
    assert b == a + (b - a);
    assert |b - a| == 0;
  }

  lemma KahnDone(es: seq<Pair>, n: int, queue: seq<int>, done: seq<bool>, indegree: seq<int>)
    requires Queue(es, n, queue, |queue|, done) && Counters(es, n, queue, done, indegree, [])
    ensures |queue| == n <==> CanFinish(es, n)
  {
    AllListed(queue, n);
    assert queue[..|queue|] == queue;
    if |queue| == n {
      ListedCanFinish(es, n, queue);
    } else {
      var all := Range(n);
      var stuck := set x | x in all && x !in queue;
      var x :| 0 <= x < n && x !in queue;
      forall y | y in stuck
        ensures Waits(es, stuck, y)
      {
        WaitingZero(es, done, y);
        var k :| 0 <= k < |es| && es[k].0 == y && !Done(done, es[k].1);
        assert es[k].1 in stuck;
      }
      StuckCannotFinish(es, n, stuck, x);
    }
  }

  lemma OnePairMore(es: seq<Pair>, i: nat)
    requires i < |es|
    ensures es[..i + 1][..i] == es[..i] && es[..i + 1][i] == es[i]
  {
  }

  /** The lists of opened courses and the numbers of prerequisites. */
  method CountPrerequisites(es: seq<Pair>, n: int) returns (adj: array<seq<int>>, indegree: array<int>)
    requires Courses(es, n)
    ensures fresh(adj) && fresh(indegree) && adj.Length == indegree.Length == n
    ensures forall x :: 0 <= x < n ==> adj[x] == Opens(es, x) && indegree[x] == Waiting(es, [], x)
  {
    adj := new seq<int>[n](_ => []);
    indegree := new int[n](_ => 0);
    for i := 0 to |es|
      invariant forall x :: 0 <= x < n ==> adj[x] == Opens(es[..i], x) && indegree[x] == Waiting(es[..i], [], x)
    {
      OnePairMore(es, i);
      var (a, b) := es[i];
      adj[b] := adj[b] + [a];
      indegree[a] := indegree[a] + 1;
    }
    assert es[..|es|] == es;
  }

  lemma {:induction false} NoneDone(es: seq<Pair>, done: seq<bool>, x: int)
    requires forall y :: 0 <= y < |done| ==> !done[y]
    ensures Waiting(es, done, x) == Waiting(es, [], x)
  {
    if es != [] { NoneDone(es[..|es| - 1], done, x); }
  }

  /** The courses without prerequisites, in order. */
  method Unconditional(es: seq<Pair>, n: int, indegree: array<int>) returns (queue: seq<int>)
    requires Courses(es, n) && indegree.Length == n && forall x :: 0 <= x < n ==> indegree[x] == Waiting(es, [], x)
    ensures Listed(queue, n) && Precedes(es, queue) && forall x :: 0 <= x < n ==> (x in queue <==> indegree[x] == 0)
  {
    queue := [];
    for i := 0 to n
      invariant Listed(queue, i) && Precedes(es, queue)
      invariant forall x :: 0 <= x < i ==> (x in queue <==> indegree[x] == 0)
    {
      if indegree[i] == 0 {
        WaitingZero(es, [], i);
        PrecedesAdd(es, queue, i);
        queue := queue + [i];
      }
    }
  }

  /** The stored reference. */
  method CanFinishByCounting(n: int, es: seq<Pair>) returns (ok: bool)
    requires Courses(es, n)
    ensures ok <==> CanFinish(es, n)
  {
    var adj, indegree := CountPrerequisites(es, n);
    var queue := Unconditional(es, n, indegree);
    ghost var done := seq(n, _ => false);
    forall x | 0 <= x < n ensures Waiting(es, done, x) == Waiting(es, [], x) { NoneDone(es, done, x); }
    var taken := 0;
    while taken < |queue|
      invariant Queue(es, n, queue, taken, done) && Counters(es, n, queue, done, indegree[..], [])
      invariant forall x :: 0 <= x < n ==> adj[x] == Opens(es, x)
      decreases n - taken
    {
      var u := queue[taken];
      AllListed(queue, n);
      TakeCourse(es, n, queue, taken, done, indegree[..], u);
      taken := taken + 1;
      done := done[u := true];
      forall k | 0 <= k < |Opens(es, u)| ensures 0 <= Opens(es, u)[k] < n { OpensInRange(es, n, u, k); }
      queue := OpenAll(es, n, queue, taken, done, indegree, adj[u]);
    }
    KahnDone(es, n, queue, done, indegree[..]);
    ok := taken == n;
  }

  // ------------------------------------------------------------ depth-first colouring

  ghost predicate Edge(es: seq<Pair>, a: int, b: int) {
    exists k :: 0 <= k < |es| && es[k] == (a, b)
  }

  /** Each course of the path needs the next one. */
  ghost predicate Chain(es: seq<Pair>, path: seq<int>) {
    forall i :: 0 <= i < |path| - 1 ==> Edge(es, path[i], path[i + 1])
  }

  /** 1 marks the courses of the current path, 2 those that are finished, whose needs were finished before. */
  ghost predicate Coloured(es: seq<Pair>, n: int, state: seq<int>, path: seq<int>, finished: seq<int>) {
    Courses(es, n) && |state| == n && Chain(es, path) && Precedes(es, finished) &&
    (forall x :: x in path ==> 0 <= x < n) && (forall x :: x in finished ==> 0 <= x < n) &&
    forall x :: 0 <= x < n ==> 0 <= state[x] <= 2 && (state[x] == 1 <==> x in path) && (state[x] == 2 <==> x in finished)
  }

  /** A course of the path that the last one needs closes a cycle. */
  lemma CycleFound(es: seq<Pair>, n: int, path: seq<int>, v: int)
    requires Courses(es, n) && Chain(es, path) && v in path && Edge(es, path[|path| - 1], v)
    requires forall x :: x in path ==> 0 <= x < n
    ensures !CanFinish(es, n)
  {
    var i :| 0 <= i < |path| && path[i] == v;
    var stuck := set j | i <= j < |path| :: path[j];
    forall y | y in stuck
      ensures 0 <= y < n && Waits(es, stuck, y)
    {
      var j :| i <= j < |path| && path[j] == y;
      var next := if j == |path| - 1 then v else path[j + 1];
      assert next in stuck by {
        if j == |path| - 1 { assert path[i] == next; } else { assert path[j + 1] == next; }
      }
      assert Edge(es, y, next);
    }
    assert path[i] in stuck;
    StuckCannotFinish(es, n, stuck, v);
  }

  function Whites(state: seq<int>): nat {
    if state == [] then 0 else Whites(state[..|state| - 1]) + if state[|state| - 1] == 0 then 1 else 0
  }

  lemma {:induction false} FewerWhites(s: seq<int>, t: seq<int>)
    requires |s| == |t| && forall x :: 0 <= x < |s| ==> t[x] == 0 ==> s[x] == 0
    ensures Whites(t) <= Whites(s)
    ensures (exists x :: 0 <= x < |s| && s[x] == 0 && t[x] != 0) ==> Whites(t) < Whites(s)
  {
    if s != [] {
      var n := |s| - 1;
      FewerWhites(s[..n], t[..n]);
      if x :| 0 <= x < |s| && s[x] == 0 && t[x] != 0 {
        assert x < n ==> s[..n][x] == 0 && t[..n][x] != 0;
      }
    }
  }

  lemma NeedIsEdge(es: seq<Pair>, n: int, u: int, k: nat)
    requires Courses(es, n) && k < |Needs(es, u)|
    ensures Edge(es, u, Needs(es, u)[k]) && 0 <= Needs(es, u)[k] < n
  {
    NeedsAre(es, u, Needs(es, u)[k]);
  }

  lemma EnterCourse(es: seq<Pair>, n: int, state: seq<int>, path: seq<int>, finished: seq<int>, u: int)
    requires Coloured(es, n, state, path, finished) && 0 <= u < n && state[u] == 0
    requires path != [] ==> Edge(es, path[|path| - 1], u)
    ensures Coloured(es, n, state[u := 1], path + [u], finished) && Whites(state[u := 1]) < Whites(state)
  {
    FewerWhites(state, state[u := 1]);
  }

  lemma LeaveCourse(es: seq<Pair>, n: int, state: seq<int>, path: seq<int>, finished: seq<int>, u: int)
    requires Coloured(es, n, state, path + [u], finished) && u !in path
    requires forall k :: 0 <= k < |Needs(es, u)| ==> Needs(es, u)[k] in finished
    ensures 0 <= u < n && Coloured(es, n, state[u := 2], path, finished + [u])
    ensures Whites(state[u := 2]) <= Whites(state)
  {
    var longer := path + [u];
    assert longer[|path|] == u && u in longer;
    assert forall x :: x in longer <==> x in path || x == u;
    assert forall i :: 0 <= i < |path| ==> longer[i] == path[i];
    forall k | 0 <= k < |es| && es[k].0 == u
      ensures es[k].1 in finished
    {
      NeedsAre(es, u, es[k].1);
    }
    PrecedesAdd(es, finished, u);
    FewerWhites(state, state[u := 2]);
  }

  ghost predicate Lists(adj: array<seq<int>>, es: seq<Pair>, n: int)
    reads adj
  {
    adj.Length == n && forall x :: 0 <= x < n ==> adj[x] == Needs(es, x)
  }

  /** One course v that the last course of the path needs. */
  method VisitNeed(es: seq<Pair>, n: int, adj: array<seq<int>>, state: array<int>, v: int,
                   ghost path: seq<int>, ghost finished0: seq<int>)
    returns (cycle: bool, ghost finished: seq<int>)
    requires Lists(adj, es, n)
    requires Coloured(es, n, state[..], path, finished0) && 0 <= v < n
    requires path != [] && Edge(es, path[|path| - 1], v)
    modifies state
    ensures cycle ==> !CanFinish(es, n)
    ensures !cycle ==> Coloured(es, n, state[..], path, finished) && finished0 <= finished && v in finished
    ensures Whites(state[..]) <= old(Whites(state[..]))
    decreases Whites(state[..]), 1
  {
    cycle, finished := false, finished0;
    if state[v] == 1 {
      CycleFound(es, n, path, v);
      cycle := true;
    } else if state[v] == 0 {
      cycle, finished := HasCycle(es, n, adj, state, v, path, finished);
    }
  }

  /** The recursive search from u, with the path of courses it was reached by. */
  method HasCycle(es: seq<Pair>, n: int, adj: array<seq<int>>, state: array<int>, u: int,
                  ghost path: seq<int>, ghost finished0: seq<int>)
    returns (cycle: bool, ghost finished: seq<int>)
    requires Lists(adj, es, n)
    requires Coloured(es, n, state[..], path, finished0) && 0 <= u < n && state[u] == 0
    requires path != [] ==> Edge(es, path[|path| - 1], u)
    modifies state
    ensures cycle ==> !CanFinish(es, n)
    ensures !cycle ==> Coloured(es, n, state[..], path, finished) && finished0 <= finished && u in finished
    ensures Whites(state[..]) <= old(Whites(state[..]))
    decreases Whites(state[..]), 0
  {
    finished := finished0;
    EnterCourse(es, n, state[..], path, finished, u);
    ghost var longer := path + [u];
    state[u] := 1;
    cycle, finished := VisitNeeds(es, n, adj, state, adj[u], u, longer, finished);
    if cycle { return; }
    LeaveCourse(es, n, state[..], path, finished, u);
    state[u] := 2;
    finished := finished + [u];
  }

  /** The loop over what u needs. */
  method VisitNeeds(es: seq<Pair>, n: int, adj: array<seq<int>>, state: array<int>, needs: seq<int>, u: int,
                    ghost path: seq<int>, ghost finished0: seq<int>)
    returns (cycle: bool, ghost finished: seq<int>)
    requires Lists(adj, es, n) && 0 <= u < n && needs == Needs(es, u)
    requires Coloured(es, n, state[..], path, finished0) && path != [] && path[|path| - 1] == u
    modifies state
    ensures cycle ==> !CanFinish(es, n)
    ensures !cycle ==> Coloured(es, n, state[..], path, finished) && finished0 <= finished
    ensures !cycle ==> forall k :: 0 <= k < |needs| ==> needs[k] in finished
    ensures Whites(state[..]) <= old(Whites(state[..]))
    decreases Whites(state[..]), 2
  {
    cycle, finished := false, finished0;
    for k := 0 to |needs|
      invariant Coloured(es, n, state[..], path, finished) && finished0 <= finished
      invariant forall j :: 0 <= j < k ==> needs[j] in finished
      invariant Whites(state[..]) <= old(Whites(state[..]))
    {
      NeedIsEdge(es, n, u, k);
      cycle, finished := VisitNeed(es, n, adj, state, needs[k], path, finished);
      if cycle { return; }
    }
  }

  method ListNeeds(es: seq<Pair>, n: int) returns (adj: array<seq<int>>)
    requires Courses(es, n)
    ensures fresh(adj) && Lists(adj, es, n)
  {
    adj := new seq<int>[n](_ => []);
    for i := 0 to |es|
      invariant forall x :: 0 <= x < n ==> adj[x] == Needs(es[..i], x)
    {
      OnePairMore(es, i);
      var (a, b) := es[i];
      adj[a] := adj[a] + [b];
    }
    assert es[..|es|] == es;
  }

  /** The second reference. */
  method CanFinishByColours(n: int, es: seq<Pair>) returns (ok: bool)
    requires Courses(es, n)
    ensures ok <==> CanFinish(es, n)
  {
    var adj := ListNeeds(es, n);
    var state := new int[n](_ => 0);
    ghost var finished: seq<int> := [];
    for c := 0 to n
      invariant Coloured(es, n, state[..], [], finished) && forall x :: 0 <= x < c ==> x in finished
      invariant Lists(adj, es, n)
    {
      if state[c] == 0 {
        var cycle;
        cycle, finished := HasCycle(es, n, adj, state, c, [], finished);
        if cycle { return false; }
      }
    }
    ListedCanFinish(es, n, finished);
    ok := true;
  }

  method ReferencesAgree(n: int, es: seq<Pair>) returns (a: bool, b: bool)
    requires Courses(es, n)
    ensures a == b == CanFinish(es, n)
  {
    a := CanFinishByCounting(n, es);
    b := CanFinishByColours(n, es);
  }
}
