/** Network delay: the selection-scan Dijkstra and the early-exit Bellman-Ford references. */
module ShortestPaths {

  datatype Edge = Edge(src: int, dst: int, w: int)

  datatype Dist = Inf | Fin(d: int)

  predicate Lt(a: Dist, b: Dist) {
    a.Fin? && (b.Fin? ==> a.d < b.d)
  }

  predicate Le(a: Dist, b: Dist) {
    !Lt(b, a)
  }

  function Plus(a: Dist, w: int): Dist {
    if a.Inf? then Inf else Fin(a.d + w)
  }

  /** The problem's constraints: nodes 1..n, a source among them, non-negative weights. */
  ghost predicate Network(es: seq<Edge>, n: int, k: int) {
    1 <= k <= n &&
    forall i :: 0 <= i < |es| ==> 1 <= es[i].src <= n && 1 <= es[i].dst <= n && es[i].w >= 0
  }

  // ------------------------------------------------------------ walks

  /** The node reached after the first i edges of the walk p, a list of edge indices. */
  ghost function Stop(es: seq<Edge>, k: int, p: seq<nat>, i: nat): int
    requires i <= |p| && forall j :: 0 <= j < |p| ==> p[j] < |es|
  {
    if i == 0 then k else es[p[i - 1]].dst
  }

  ghost predicate IsWalk(es: seq<Edge>, k: int, p: seq<nat>, v: int) {
    (forall j :: 0 <= j < |p| ==> p[j] < |es|) &&
    (forall j :: 0 <= j < |p| ==> es[p[j]].src == Stop(es, k, p, j)) &&
    Stop(es, k, p, |p|) == v
  }

  ghost function Cost(es: seq<Edge>, p: seq<nat>): int
    requires forall j :: 0 <= j < |p| ==> p[j] < |es|
  {
    if p == [] then 0 else Cost(es, p[..|p| - 1]) + es[p[|p| - 1]].w
  }

  /** d is the least cost of a walk from k to v; Inf when there is none. */
  ghost predicate Shortest(es: seq<Edge>, k: int, v: int, d: Dist) {
    match d
    case Inf => forall p :: !IsWalk(es, k, p, v)
    case Fin(c) =>
      (exists p :: IsWalk(es, k, p, v) && Cost(es, p) == c) &&
      (forall p :: IsWalk(es, k, p, v) ==> c <= Cost(es, p))
  }

  /** The answer of the problem: -1 when some node is unreachable, else the largest shortest distance. */
  ghost predicate IsDelay(es: seq<Edge>, n: int, k: int, r: int) {
    if exists v :: 1 <= v <= n && Shortest(es, k, v, Inf) then r == -1
    else
      (exists v :: 1 <= v <= n && Shortest(es, k, v, Fin(r))) &&
      forall v, d :: 1 <= v <= n && Shortest(es, k, v, Fin(d)) ==> d <= r
  }

  lemma ShortestUnique(es: seq<Edge>, k: int, v: int, a: Dist, b: Dist)
    requires Shortest(es, k, v, a) && Shortest(es, k, v, b)
    ensures a == b
  {
    if a.Fin? && b.Fin? {
      var p :| IsWalk(es, k, p, v) && Cost(es, p) == a.d;
      var q :| IsWalk(es, k, q, v) && Cost(es, q) == b.d;
    }
  }

  lemma WalkSnoc(es: seq<Edge>, k: int, p: seq<nat>, v: int, e: nat)
    requires IsWalk(es, k, p, v) && e < |es| && es[e].src == v
    ensures IsWalk(es, k, p + [e], es[e].dst) && Cost(es, p + [e]) == Cost(es, p) + es[e].w
  {
    var q := p + [e];
    assert q[..|q| - 1] == p;
    forall j | 0 <= j < |q|
      ensures es[q[j]].src == Stop(es, k, q, j)
    {
      if j < |p| { assert Stop(es, k, q, j) == Stop(es, k, p, j); }
    }
  }

  lemma WalkInit(es: seq<Edge>, k: int, p: seq<nat>, v: int)
    requires IsWalk(es, k, p, v) && p != []
    ensures var q, e := p[..|p| - 1], es[p[|p| - 1]];
      IsWalk(es, k, q, e.src) && e.dst == v && Cost(es, p) == Cost(es, q) + e.w
  {
    var q := p[..|p| - 1];
    forall j | 0 <= j < |q|
      ensures es[q[j]].src == Stop(es, k, q, j)
    {
      assert Stop(es, k, q, j) == Stop(es, k, p, j);
    }
  }

  // ------------------------------------------------------------ certificates

  /** Every finite entry is the cost of some walk. */
  ghost predicate Sound(es: seq<Edge>, n: int, k: int, dist: seq<Dist>) {
    |dist| == n + 1 && 1 <= k <= n && dist[k] == Fin(0) &&
    forall v :: 1 <= v <= n && dist[v].Fin? ==> exists p :: IsWalk(es, k, p, v) && Cost(es, p) == dist[v].d
  }

  ghost predicate Relaxed(e: Edge, dist: seq<Dist>)
    requires 0 <= e.src < |dist| && 0 <= e.dst < |dist|
  {
    Le(dist[e.dst], Plus(dist[e.src], e.w))
  }

  lemma {:induction false} RelaxedBounds(es: seq<Edge>, n: int, k: int, dist: seq<Dist>, p: seq<nat>, v: int)
    requires Network(es, n, k) && Sound(es, n, k, dist) && IsWalk(es, k, p, v)
    requires forall i :: 0 <= i < |es| ==> Relaxed(es[i], dist)
    ensures 1 <= v <= n && Le(dist[v], Fin(Cost(es, p)))
    decreases |p|
  {
    if p != [] {
      WalkInit(es, k, p, v);
      RelaxedBounds(es, n, k, dist, p[..|p| - 1], es[p[|p| - 1]].src);
      assert Relaxed(es[p[|p| - 1]], dist);
    }
  }

  /** A sound table in which every edge is relaxed holds the true distances. */
  lemma Certificate(es: seq<Edge>, n: int, k: int, dist: seq<Dist>)
    requires Network(es, n, k) && Sound(es, n, k, dist)
    requires forall i :: 0 <= i < |es| ==> Relaxed(es[i], dist)
    ensures forall v :: 1 <= v <= n ==> Shortest(es, k, v, dist[v])
  {
    forall v | 1 <= v <= n
      ensures Shortest(es, k, v, dist[v])
    {
      forall p | IsWalk(es, k, p, v)
        ensures Le(dist[v], Fin(Cost(es, p)))
      {
        RelaxedBounds(es, n, k, dist, p, v);
      }
    }
  }

  /** Lowering one entry along an edge keeps the table sound. */
  lemma SoundStep(es: seq<Edge>, n: int, k: int, dist: seq<Dist>, e: nat)
    requires Network(es, n, k) && Sound(es, n, k, dist) && e < |es|
    requires dist[es[e].src].Fin? && es[e].dst != k
    ensures Sound(es, n, k, dist[es[e].dst := Plus(dist[es[e].src], es[e].w)])
  {
    var p :| IsWalk(es, k, p, es[e].src) && Cost(es, p) == dist[es[e].src].d;
    WalkSnoc(es, k, p, es[e].src, e);
    var next := dist[es[e].dst := Plus(dist[es[e].src], es[e].w)];
    forall v | 1 <= v <= n && next[v].Fin?
      ensures exists q :: IsWalk(es, k, q, v) && Cost(es, q) == next[v].d
    {
      if v == es[e].dst { assert IsWalk(es, k, p + [e], v); }
    }
  }

  /** All entries are at least 0, so the source is never lowered. */
  ghost predicate NonNegative(dist: seq<Dist>) {
    forall v :: 0 <= v < |dist| && dist[v].Fin? ==> dist[v].d >= 0
  }

  // ------------------------------------------------------------ the answer

  lemma DelayFrom(es: seq<Edge>, n: int, k: int, dist: seq<Dist>, at: int)
    requires 1 <= at <= n && |dist| == n + 1
    requires forall v :: 1 <= v <= n ==> Shortest(es, k, v, dist[v])
    requires forall v :: 1 <= v <= n ==> Le(dist[v], dist[at])
    ensures IsDelay(es, n, k, if dist[at].Inf? then -1 else dist[at].d)
  {
    if dist[at].Inf? {
      assert Shortest(es, k, at, Inf);
    } else {
      forall v | 1 <= v <= n
        ensures !Shortest(es, k, v, Inf)
      {
        assert Le(dist[v], dist[at]);
        if Shortest(es, k, v, Inf) { ShortestUnique(es, k, v, dist[v], Inf); }
      }
      forall v, d | 1 <= v <= n && Shortest(es, k, v, Fin(d))
        ensures d <= dist[at].d
      {
        ShortestUnique(es, k, v, dist[v], Fin(d));
      }
      assert Shortest(es, k, at, Fin(dist[at].d));
    }
  }

  lemma DelayUnique(es: seq<Edge>, n: int, k: int, a: int, b: int)
    requires IsDelay(es, n, k, a) && IsDelay(es, n, k, b)
    ensures a == b
  {
    if forall v :: 1 <= v <= n ==> !Shortest(es, k, v, Inf) {
      var u :| 1 <= u <= n && Shortest(es, k, u, Fin(a));
      var v :| 1 <= v <= n && Shortest(es, k, v, Fin(b));
    }
  }

  // ------------------------------------------------------------ Dijkstra

  /** The adjacency list of u: target and weight of its outgoing edges in input order. */
  ghost function Out(es: seq<Edge>, u: int): seq<(int, int)> {
    if es == [] then []
    else
      var e := es[|es| - 1];
      Out(es[..|es| - 1], u) + if e.src == u then [(e.dst, e.w)] else []
  }

  lemma {:induction false} OutSound(es: seq<Edge>, u: int, j: nat)
    requires j < |Out(es, u)|
    ensures exists e: nat :: e < |es| && es[e] == Edge(u, Out(es, u)[j].0, Out(es, u)[j].1)
  {
    var m := |es| - 1;
    if j < |Out(es[..m], u)| {
      OutSound(es[..m], u, j);
      var e: nat :| e < m && es[..m][e] == Edge(u, Out(es[..m], u)[j].0, Out(es[..m], u)[j].1);
      assert es[e] == es[..m][e];
    } else {
      assert es[m] == Edge(u, Out(es, u)[j].0, Out(es, u)[j].1);
    }
  }

  lemma {:induction false} OutComplete(es: seq<Edge>, e: nat)
    requires e < |es|
    ensures (es[e].dst, es[e].w) in Out(es, es[e].src)
  {
    var m := |es| - 1;
    if e < m {
      OutComplete(es[..m], e);
    }
  }

  method BuildAdjacency(es: seq<Edge>, n: int, ghost k: int) returns (adj: array<seq<(int, int)>>)
    requires Network(es, n, k)
    ensures fresh(adj) && adj.Length == n + 1
    ensures forall u :: 0 <= u <= n ==> adj[u] == Out(es, u)
  {
    adj := new seq<(int, int)>[n + 1](_ => []);
    for i := 0 to |es|
      invariant forall u :: 0 <= u <= n ==> adj[u] == Out(es[..i], u)
    {
      assert es[..i + 1][..i] == es[..i];
      adj[es[i].src] := adj[es[i].src] + [(es[i].dst, es[i].w)];
    }
    assert es[..|es|] == es;
  }

  /** Settled nodes are finite, no farther than the others, and have relaxed edges; `busy` is the settled
      node whose first j outgoing edges have been relaxed so far (0 when there is none). */
  ghost predicate Fence(es: seq<Edge>, n: int, k: int, dist: seq<Dist>, done: seq<bool>, busy: int, j: nat)
    requires Network(es, n, k)
  {
    |dist| == |done| == n + 1 && NonNegative(dist) &&
    (forall u :: 1 <= u <= n && done[u] ==> dist[u].Fin?) &&
    (forall u, v :: 1 <= u <= n && 1 <= v <= n && done[u] && !done[v] ==> Le(dist[u], dist[v])) &&
    (forall e :: 0 <= e < |es| && done[es[e].src] && es[e].src != busy ==> Relaxed(es[e], dist)) &&
    (1 <= busy <= n ==> Busy(es, n, dist, done, busy, j))
  }

  ghost predicate Busy(es: seq<Edge>, n: int, dist: seq<Dist>, done: seq<bool>, u: int, j: nat)
    requires 1 <= u <= n && |dist| == |done| == n + 1
  {
    done[u] && (forall v :: 1 <= v <= n && done[v] ==> Le(dist[v], dist[u])) &&
    j <= |Out(es, u)| && forall i :: 0 <= i < j ==> Relaxes(dist, u, Out(es, u)[i])
  }

  ghost predicate Relaxes(dist: seq<Dist>, u: int, edge: (int, int)) {
    0 <= u < |dist| && 0 <= edge.0 < |dist| && Le(dist[edge.0], Plus(dist[u], edge.1))
  }

  ghost predicate Frontier(es: seq<Edge>, n: int, k: int, dist: seq<Dist>, done: seq<bool>, busy: int, j: nat)
    requires Network(es, n, k)
  {
    Sound(es, n, k, dist) && Fence(es, n, k, dist, done, busy, j)
  }

  function Lowered(dist: seq<Dist>, u: int, v: int, w: int): seq<Dist>
    requires 0 <= u < |dist| && 0 <= v < |dist|
  {
    if Lt(Plus(dist[u], w), dist[v]) then dist[v := Plus(dist[u], w)] else dist
  }

  lemma FenceStep(es: seq<Edge>, n: int, k: int, dist: seq<Dist>, done: seq<bool>, u: int, j: nat, v: int, w: int)
    requires Network(es, n, k) && 1 <= u <= n && Fence(es, n, k, dist, done, u, j)
    requires j < |Out(es, u)| && Out(es, u)[j] == (v, w) && 1 <= v <= n && w >= 0
    ensures Fence(es, n, k, Lowered(dist, u, v, w), done, u, j + 1)
    ensures Lt(Plus(dist[u], w), dist[v]) ==> !done[v]
  {
    var next := Lowered(dist, u, v, w);
    assert Lt(Plus(dist[u], w), dist[v]) ==> !done[v];
    assert next[u] == dist[u];
    forall i | 0 <= i < j + 1
      ensures Relaxes(next, u, Out(es, u)[i])
    {
      if i < j { assert Relaxes(dist, u, Out(es, u)[i]); }
    }
    forall e | 0 <= e < |es| && done[es[e].src] && es[e].src != u
      ensures Relaxed(es[e], next)
    {
      assert Relaxed(es[e], dist);
    }
  }

  lemma RelaxStep(es: seq<Edge>, n: int, k: int, dist: seq<Dist>, done: seq<bool>, u: int, j: nat)
    requires Network(es, n, k) && 1 <= u <= n && Frontier(es, n, k, dist, done, u, j) && j < |Out(es, u)|
    ensures var (v, w) := Out(es, u)[j];
      1 <= v <= n && Frontier(es, n, k, Lowered(dist, u, v, w), done, u, j + 1)
  {
    OutSound(es, u, j);
    var (v, w) := Out(es, u)[j];
    var e: nat :| e < |es| && es[e] == Edge(u, v, w);
    FenceStep(es, n, k, dist, done, u, j, v, w);
    if Lt(Plus(dist[u], w), dist[v]) {
      assert v != k;
      SoundStep(es, n, k, dist, e);
    }
  }

  method RelaxFrom(dist: array<Dist>, out: seq<(int, int)>, u: int,
                   ghost es: seq<Edge>, ghost n: int, ghost k: int, ghost done: seq<bool>)
    requires Network(es, n, k) && 1 <= u <= n && out == Out(es, u)
    requires Frontier(es, n, k, dist[..], done, u, 0)
    modifies dist
    ensures Frontier(es, n, k, dist[..], done, u, |out|)
  {
    for j := 0 to |out|
      invariant Frontier(es, n, k, dist[..], done, u, j)
    {
      RelaxStep(es, n, k, dist[..], done, u, j);
      var (v, w) := out[j];
      if Lt(Plus(dist[u], w), dist[v]) {
        dist[v] := Plus(dist[u], w);
      }
    }
  }

  /** The scan that picks the nearest unsettled node; -1 when every node is settled. */
  method SelectNearest(dist: array<Dist>, done: array<bool>, n: int) returns (u: int)
    requires 1 <= n && dist.Length == done.Length == n + 1
    ensures u == -1 ==> forall v :: 1 <= v <= n ==> done[v]
    ensures u != -1 ==> 1 <= u <= n && !done[u] && forall v :: 1 <= v <= n && !done[v] ==> Le(dist[u], dist[v])
  {
    u := -1;
    var i := 1;
    while i <= n
      invariant 1 <= i <= n + 1
      invariant u == -1 ==> forall v :: 1 <= v < i ==> done[v]
      invariant u != -1 ==> 1 <= u < i && !done[u] && forall v :: 1 <= v < i && !done[v] ==> Le(dist[u], dist[v])
    {
      if !done[i] && (u == -1 || Lt(dist[i], dist[u])) {
        u := i;
      }
      i := i + 1;
    }
  }

  lemma SettleNode(es: seq<Edge>, n: int, k: int, dist: seq<Dist>, done: seq<bool>, u: int)
    requires Network(es, n, k) && Frontier(es, n, k, dist, done, 0, 0) && 1 <= u <= n && !done[u] && dist[u].Fin?
    requires forall v :: 1 <= v <= n && !done[v] ==> Le(dist[u], dist[v])
    ensures Frontier(es, n, k, dist, done[u := true], u, 0)
  {
  }

  lemma NodeRelaxed(es: seq<Edge>, n: int, k: int, dist: seq<Dist>, done: seq<bool>, u: int)
    requires Network(es, n, k) && 1 <= u <= n && Frontier(es, n, k, dist, done, u, |Out(es, u)|)
    ensures Frontier(es, n, k, dist, done, 0, 0)
  {
    forall e | 0 <= e < |es| && done[es[e].src]
      ensures Relaxed(es[e], dist)
    {
      if es[e].src == u {
        OutComplete(es, e);
        var i :| 0 <= i < |Out(es, u)| && Out(es, u)[i] == (es[e].dst, es[e].w);
        assert Relaxes(dist, u, Out(es, u)[i]);
      }
    }
  }

  /** How many of the nodes 1..m are settled. */
  ghost function SettledCount(done: seq<bool>, m: nat): nat
    requires m < |done|
  {
    if m == 0 then 0 else SettledCount(done, m - 1) + if done[m] then 1 else 0
  }

  lemma {:induction false} SettledAll(done: seq<bool>, m: nat)
    requires m < |done|
    ensures SettledCount(done, m) <= m
    ensures SettledCount(done, m) == m <==> forall u :: 1 <= u <= m ==> done[u]
    ensures SettledCount(done, m) == 0 <==> forall u :: 1 <= u <= m ==> !done[u]
  {
    if m > 0 {
      SettledAll(done, m - 1);
    }
  }

  lemma {:induction false} SettledOneMore(done: seq<bool>, m: nat, u: nat)
    requires m < |done| && 1 <= u < |done| && !done[u]
    ensures SettledCount(done[u := true], m) == SettledCount(done, m) + if u <= m then 1 else 0
  {
    if m > 0 {
      SettledOneMore(done, m - 1, u);
    }
  }

  /** When no unsettled node is reachable, every edge is relaxed. */
  lemma FrontierComplete(es: seq<Edge>, n: int, k: int, dist: seq<Dist>, done: seq<bool>)
    requires Network(es, n, k) && Frontier(es, n, k, dist, done, 0, 0)
    requires forall v :: 1 <= v <= n && !done[v] ==> dist[v].Inf?
    ensures forall v :: 1 <= v <= n ==> Shortest(es, k, v, dist[v])
  {
    forall e | 0 <= e < |es|
      ensures Relaxed(es[e], dist)
    {
    }
    Certificate(es, n, k, dist);
  }

  method SettleAll(es: seq<Edge>, n: int, k: int, adj: array<seq<(int, int)>>, dist: array<Dist>, done: array<bool>)
    requires Network(es, n, k) && adj.Length == dist.Length == done.Length == n + 1
    requires forall u :: 0 <= u <= n ==> adj[u] == Out(es, u)
    requires Frontier(es, n, k, dist[..], done[..], 0, 0) && SettledCount(done[..], n) == 0
    modifies dist, done
    ensures Sound(es, n, k, dist[..])
    ensures forall v :: 1 <= v <= n ==> Shortest(es, k, v, dist[v])
  {
    for iter := 0 to n
      invariant Frontier(es, n, k, dist[..], done[..], 0, 0) && SettledCount(done[..], n) == iter
    {
      SettledAll(done[..], n);
      var u := SelectNearest(dist, done, n);
      assert u != -1;
      if dist[u].Inf? {
        FrontierComplete(es, n, k, dist[..], done[..]);
        return;
      }
      Settle(es, n, k, adj[u], dist, done, u);
    }
    SettledAll(done[..], n);
    FrontierComplete(es, n, k, dist[..], done[..]);
  }

  /** Marks u as settled and relaxes its outgoing edges. */
  method Settle(ghost es: seq<Edge>, ghost n: int, ghost k: int, out: seq<(int, int)>,
                dist: array<Dist>, done: array<bool>, u: int)
    requires Network(es, n, k) && 1 <= u <= n && out == Out(es, u) && dist.Length == done.Length == n + 1
    requires Frontier(es, n, k, dist[..], done[..], 0, 0) && !done[u] && dist[u].Fin?
    requires forall v :: 1 <= v <= n && !done[v] ==> Le(dist[u], dist[v])
    modifies dist, done
    ensures Frontier(es, n, k, dist[..], done[..], 0, 0)
    ensures SettledCount(done[..], n) == old(SettledCount(done[..], n)) + 1
  {
    SettleNode(es, n, k, dist[..], done[..], u);
    SettledOneMore(done[..], n, u);
    done[u] := true;
    RelaxFrom(dist, out, u, es, n, k, done[..]);
    NodeRelaxed(es, n, k, dist[..], done[..], u);
  }

  lemma Start(es: seq<Edge>, n: int, k: int, dist: seq<Dist>, done: seq<bool>)
    requires Network(es, n, k) && |dist| == |done| == n + 1
    requires forall v :: 0 <= v <= n ==> dist[v] == (if v == k then Fin(0) else Inf) && !done[v]
    ensures Frontier(es, n, k, dist, done, 0, 0) && SettledCount(done, n) == 0
  {
    assert IsWalk(es, k, [], k) && Cost(es, []) == 0;
    SettledAll(done, n);
  }

  /** The stored reference: selection-scan Dijkstra. */
  method NetworkDelayDijkstra(es: seq<Edge>, n: int, k: int) returns (r: int)
    requires Network(es, n, k)
    ensures IsDelay(es, n, k, r)
  {
    var adj := BuildAdjacency(es, n, k);
    var dist := new Dist[n + 1](_ => Inf);
    var done := new bool[n + 1](_ => false);
    dist[k] := Fin(0);
    Start(es, n, k, dist[..], done[..]);
    SettleAll(es, n, k, adj, dist, done);
    r := LargestFromZero(dist, es, n, k);
  }

  method ScanFromZero(dist: array<Dist>, n: int, ghost k: int) returns (best: Dist, ghost at: int)
    requires dist.Length == n + 1 && 1 <= k <= n && dist[k] == Fin(0)
    ensures 1 <= at <= n && best == dist[at] && forall v :: 1 <= v <= n ==> Le(dist[v], best)
  {
    best, at := Fin(0), k;
    for i := 1 to n + 1
      invariant 1 <= at <= n && best == dist[at]
      invariant forall v :: 1 <= v < i ==> Le(dist[v], best)
    {
      if Lt(best, dist[i]) {
        best, at := dist[i], i;
      }
    }
  }

  method LargestFromZero(dist: array<Dist>, ghost es: seq<Edge>, n: int, ghost k: int) returns (r: int)
    requires dist.Length == n + 1 && 1 <= k <= n && dist[k] == Fin(0)
    requires forall v :: 1 <= v <= n ==> Shortest(es, k, v, dist[v])
    ensures IsDelay(es, n, k, r)
  {
    var best;
    ghost var at;
    best, at := ScanFromZero(dist, n, k);
    DelayFrom(es, n, k, dist[..], at);
    r := if best.Inf? then -1 else best.d;
  }

  // ------------------------------------------------------------ Bellman-Ford

  /** No walk of at most i edges is cheaper than the table says. */
  ghost predicate BoundsWalks(es: seq<Edge>, n: int, k: int, dist: seq<Dist>, i: nat)
    requires |dist| == n + 1
  {
    forall p, v :: IsWalk(es, k, p, v) && |p| <= i && 1 <= v <= n ==> Le(dist[v], Fin(Cost(es, p)))
  }

  /** The same for a walk of at most i edges continued by the edge e. */
  ghost predicate BoundsEdge(es: seq<Edge>, n: int, k: int, dist: seq<Dist>, i: nat, e: Edge)
    requires |dist| == n + 1 && 1 <= e.dst <= n
  {
    forall p :: IsWalk(es, k, p, e.src) && |p| <= i ==> Le(dist[e.dst], Fin(Cost(es, p) + e.w))
  }

  ghost predicate Lower(a: seq<Dist>, b: seq<Dist>) {
    |a| == |b| && forall v :: 0 <= v < |a| ==> Le(a[v], b[v])
  }

  /** The state in the middle of a round, after the first m edges. */
  ghost predicate Round(es: seq<Edge>, n: int, k: int, before: seq<Dist>, dist: seq<Dist>, i: nat, m: nat, changed: bool)
    requires Network(es, n, k) && m <= |es|
  {
    Sound(es, n, k, dist) && NonNegative(dist) && BoundsWalks(es, n, k, dist, i) &&
    (forall e :: 0 <= e < m ==> BoundsEdge(es, n, k, dist, i, es[e])) &&
    (!changed ==> dist == before && forall e :: 0 <= e < m ==> Relaxed(es[e], dist))
  }

  lemma LowerKeepsBounds(es: seq<Edge>, n: int, k: int, a: seq<Dist>, b: seq<Dist>, i: nat, m: nat)
    requires Network(es, n, k) && m <= |es| && Lower(a, b) && |b| == n + 1
    requires BoundsWalks(es, n, k, b, i) && forall e :: 0 <= e < m ==> BoundsEdge(es, n, k, b, i, es[e])
    ensures BoundsWalks(es, n, k, a, i) && forall e :: 0 <= e < m ==> BoundsEdge(es, n, k, a, i, es[e])
  {
    forall p, v | IsWalk(es, k, p, v) && |p| <= i && 1 <= v <= n
      ensures Le(a[v], Fin(Cost(es, p)))
    {
      assert Le(b[v], Fin(Cost(es, p)));
    }
    forall e | 0 <= e < m
      ensures BoundsEdge(es, n, k, a, i, es[e])
    {
      assert BoundsEdge(es, n, k, b, i, es[e]);
    }
  }

  lemma EdgeBounded(es: seq<Edge>, n: int, k: int, dist: seq<Dist>, i: nat, e: Edge)
    requires Network(es, n, k) && |dist| == n + 1 && BoundsWalks(es, n, k, dist, i)
    requires 1 <= e.src <= n && 1 <= e.dst <= n && Relaxed(e, dist)
    ensures BoundsEdge(es, n, k, dist, i, e)
  {
  }

  lemma SoundNext(es: seq<Edge>, n: int, k: int, dist: seq<Dist>, e: Edge, m: nat)
    requires Network(es, n, k) && m < |es| && e == es[m] && Sound(es, n, k, dist) && NonNegative(dist)
    ensures var next := Lowered(dist, e.src, e.dst, e.w);
      Sound(es, n, k, next) && NonNegative(next) && Lower(next, dist) && Relaxed(e, next)
  {
    if Lt(Plus(dist[e.src], e.w), dist[e.dst]) {
      assert e.dst != k;
      SoundStep(es, n, k, dist, m);
    }
  }

  lemma RoundStep(es: seq<Edge>, n: int, k: int, before: seq<Dist>, dist: seq<Dist>, i: nat, m: nat, changed: bool)
    requires Network(es, n, k) && m < |es| && Round(es, n, k, before, dist, i, m, changed)
    ensures var e := es[m];
      Round(es, n, k, before, Lowered(dist, e.src, e.dst, e.w), i, m + 1,
            changed || Lt(Plus(dist[e.src], e.w), dist[e.dst]))
  {
    var e := es[m];
    var next := Lowered(dist, e.src, e.dst, e.w);
    SoundNext(es, n, k, dist, e, m);
    LowerKeepsBounds(es, n, k, next, dist, i, m);
    EdgeBounded(es, n, k, next, i, e);
  }

  method RelaxRound(es: seq<Edge>, n: int, k: int, dist: array<Dist>, ghost i: nat) returns (changed: bool)
    requires Network(es, n, k) && dist.Length == n + 1
    requires Sound(es, n, k, dist[..]) && NonNegative(dist[..]) && BoundsWalks(es, n, k, dist[..], i)
    modifies dist
    ensures Round(es, n, k, old(dist[..]), dist[..], i, |es|, changed)
  {
    changed := false;
    for m := 0 to |es|
      invariant Round(es, n, k, old(dist[..]), dist[..], i, m, changed)
    {
      RoundStep(es, n, k, old(dist[..]), dist[..], i, m, changed);
      var u, v, w := es[m].src, es[m].dst, es[m].w;
      if Lt(Plus(dist[u], w), dist[v]) {
        dist[v] := Plus(dist[u], w);
        changed := true;
      }
    }
  }

  /** A full round bounds walks of one more edge. */
  lemma RoundExtends(es: seq<Edge>, n: int, k: int, before: seq<Dist>, dist: seq<Dist>, i: nat, changed: bool)
    requires Network(es, n, k) && Round(es, n, k, before, dist, i, |es|, changed)
    ensures BoundsWalks(es, n, k, dist, i + 1)
  {
    forall p, v | IsWalk(es, k, p, v) && |p| <= i + 1 && 1 <= v <= n
      ensures Le(dist[v], Fin(Cost(es, p)))
    {
      if |p| == i + 1 {
        WalkInit(es, k, p, v);
        assert BoundsEdge(es, n, k, dist, i, es[p[i]]);
      }
    }
  }

  // A walk that visits more stops than there are nodes can be shortened.

  lemma {:induction false} Pigeon(s: seq<int>, n: nat) returns (i: nat, j: nat)
    requires |s| > n && forall x :: 0 <= x < |s| ==> 1 <= s[x] <= n
    ensures i < j < |s| && s[i] == s[j]
    decreases n
  {
    if x :| 0 <= x < |s| - 1 && s[x] == s[|s| - 1] {
      i, j := x, |s| - 1;
    } else {
      // Renaming n to the value of the last element leaves a shorter instance of the problem.
      var last := s[|s| - 1];
      assert n > 0;
      var t := seq(|s| - 1, x requires 0 <= x < |s| - 1 => if s[x] == n then last else s[x]);
      forall x | 0 <= x < |t|
        ensures 1 <= t[x] <= n - 1
      {
        assert s[x] != last;
      }
      i, j := Pigeon(t, n - 1);
    }
  }

  lemma {:induction false} CostAppend(es: seq<Edge>, p: seq<nat>, q: seq<nat>)
    requires forall j :: 0 <= j < |p| ==> p[j] < |es|
    requires forall j :: 0 <= j < |q| ==> q[j] < |es|
    ensures forall j :: 0 <= j < |p + q| ==> (p + q)[j] < |es|
    ensures Cost(es, p + q) == Cost(es, p) + Cost(es, q)
  {
    if q == [] {
      assert p + q == p;
    } else {
      assert (p + q)[..|p + q| - 1] == p + q[..|q| - 1];
      CostAppend(es, p, q[..|q| - 1]);
    }
  }

  lemma {:induction false} CostNonNegative(es: seq<Edge>, n: int, k: int, p: seq<nat>)
    requires Network(es, n, k) && forall j :: 0 <= j < |p| ==> p[j] < |es|
    ensures Cost(es, p) >= 0
  {
    if p != [] {
      CostNonNegative(es, n, k, p[..|p| - 1]);
    }
  }

  /** The walk without its edges i..j. */
  function Cut(p: seq<nat>, i: nat, j: nat): seq<nat>
    requires i < j <= |p|
  {
    p[..i] + p[j..]
  }

  lemma DropMiddle(es: seq<Edge>, n: int, k: int, a: seq<nat>, b: seq<nat>, c: seq<nat>)
    requires Network(es, n, k) && forall x :: 0 <= x < |a| ==> a[x] < |es|
    requires forall x :: 0 <= x < |b| ==> b[x] < |es|
    requires forall x :: 0 <= x < |c| ==> c[x] < |es|
    ensures forall x :: 0 <= x < |a + c| ==> (a + c)[x] < |es|
    ensures forall x :: 0 <= x < |a + b + c| ==> (a + b + c)[x] < |es|
    ensures Cost(es, a + c) <= Cost(es, a + b + c)
  {
    CostAppend(es, a, b);
    CostAppend(es, a + b, c);
    CostAppend(es, a, c);
    CostNonNegative(es, n, k, b);
  }

  lemma CutCost(es: seq<Edge>, n: int, k: int, p: seq<nat>, i: nat, j: nat)
    requires Network(es, n, k) && i < j <= |p| && forall x :: 0 <= x < |p| ==> p[x] < |es|
    ensures forall y :: 0 <= y < |Cut(p, i, j)| ==> Cut(p, i, j)[y] < |es|
    ensures Cost(es, Cut(p, i, j)) <= Cost(es, p)
  {
    DropMiddle(es, n, k, p[..i], p[i..j], p[j..]);
    assert p == p[..i] + p[i..j] + p[j..];
  }

  lemma CutStop(es: seq<Edge>, k: int, p: seq<nat>, i: nat, j: nat, x: nat)
    requires i < j <= |p| && x <= |Cut(p, i, j)| && forall y :: 0 <= y < |p| ==> p[y] < |es|
    requires Stop(es, k, p, i) == Stop(es, k, p, j)
    ensures forall y :: 0 <= y < |Cut(p, i, j)| ==> Cut(p, i, j)[y] < |es|
    ensures Stop(es, k, Cut(p, i, j), x) == Stop(es, k, p, if x < i then x else x + (j - i))
  {
    var q := Cut(p, i, j);
    if x > 0 {
      assert q[x - 1] == if x - 1 < i then p[x - 1] else p[x - 1 + (j - i)];
    }
  }

  lemma CutWalk(es: seq<Edge>, n: int, k: int, p: seq<nat>, v: int, i: nat, j: nat)
    requires Network(es, n, k) && IsWalk(es, k, p, v) && i < j <= |p|
    requires Stop(es, k, p, i) == Stop(es, k, p, j)
    ensures IsWalk(es, k, Cut(p, i, j), v)
  {
    var q := Cut(p, i, j);
    CutStop(es, k, p, i, j, |q|);
    forall x | 0 <= x < |q|
      ensures es[q[x]].src == Stop(es, k, q, x)
    {
      CutStop(es, k, p, i, j, x);
      var y := if x < i then x else x + (j - i);
      assert q[x] == p[y] && es[p[y]].src == Stop(es, k, p, y);
    }
  }

  lemma {:induction false} ShortWalk(es: seq<Edge>, n: int, k: int, p: seq<nat>, v: int) returns (q: seq<nat>)
    requires Network(es, n, k) && IsWalk(es, k, p, v)
    ensures IsWalk(es, k, q, v) && |q| <= n - 1 && Cost(es, q) <= Cost(es, p)
    decreases |p|
  {
    q := p;
    if |p| >= n {
      var stops := seq(|p| + 1, x requires 0 <= x <= |p| => Stop(es, k, p, x));
      var i, j := Pigeon(stops, n);
      CutWalk(es, n, k, p, v, i, j);
      CutCost(es, n, k, p, i, j);
      q := ShortWalk(es, n, k, Cut(p, i, j), v);
    }
  }

  lemma BoundsAll(es: seq<Edge>, n: int, k: int, dist: seq<Dist>)
    requires Network(es, n, k) && Sound(es, n, k, dist) && BoundsWalks(es, n, k, dist, n - 1)
    ensures forall v :: 1 <= v <= n ==> Shortest(es, k, v, dist[v])
  {
    forall v | 1 <= v <= n
      ensures Shortest(es, k, v, dist[v])
    {
      forall p | IsWalk(es, k, p, v)
        ensures Le(dist[v], Fin(Cost(es, p)))
      {
        var q := ShortWalk(es, n, k, p, v);
        assert Le(dist[v], Fin(Cost(es, q)));
      }
    }
  }

  method RelaxAll(es: seq<Edge>, n: int, k: int, dist: array<Dist>)
    requires Network(es, n, k) && dist.Length == n + 1
    requires Sound(es, n, k, dist[..]) && NonNegative(dist[..])
    modifies dist
    ensures Sound(es, n, k, dist[..])
    ensures forall v :: 1 <= v <= n ==> Shortest(es, k, v, dist[v])
  {
    assert BoundsWalks(es, n, k, dist[..], 0);
    for i := 0 to n - 1
      invariant Sound(es, n, k, dist[..]) && NonNegative(dist[..]) && BoundsWalks(es, n, k, dist[..], i)
    {
      ghost var before := dist[..];
      var changed := RelaxRound(es, n, k, dist, i);
      if !changed {
        Certificate(es, n, k, dist[..]);
        return;
      }
      RoundExtends(es, n, k, before, dist[..], i, changed);
    }
    BoundsAll(es, n, k, dist[..]);
  }

  /** The second reference: Bellman-Ford with early exit. */
  method NetworkDelayBellmanFord(es: seq<Edge>, n: int, k: int) returns (r: int)
    requires Network(es, n, k)
    ensures IsDelay(es, n, k, r)
  {
    var dist := new Dist[n + 1](_ => Inf);
    dist[k] := Fin(0);
    Start(es, n, k, dist[..], seq(n + 1, _ => false));
    RelaxAll(es, n, k, dist);
    r := Largest(dist, es, n, k);
  }

  method ScanLargest(dist: array<Dist>, n: int) returns (at: int)
    requires dist.Length == n + 1 && 1 <= n
    ensures 1 <= at <= n && forall v :: 1 <= v <= n ==> Le(dist[v], dist[at])
  {
    at := 1;
    for i := 2 to n + 1
      invariant 1 <= at <= n
      invariant forall v :: 1 <= v < i ==> Le(dist[v], dist[at])
    {
      if Lt(dist[at], dist[i]) { at := i; }
    }
  }

  method Largest(dist: array<Dist>, ghost es: seq<Edge>, n: int, ghost k: int) returns (r: int)
    requires dist.Length == n + 1 && 1 <= n
    requires forall v :: 1 <= v <= n ==> Shortest(es, k, v, dist[v])
    ensures IsDelay(es, n, k, r)
  {
    var at := ScanLargest(dist, n);
    DelayFrom(es, n, k, dist[..], at);
    r := if dist[at].Inf? then -1 else dist[at].d;
  }

  /** Run side by side on the same network, the two references give the same answer. */
  method ReferencesAgree(es: seq<Edge>, n: int, k: int) returns (a: int, b: int)
    requires Network(es, n, k)
    ensures a == b && IsDelay(es, n, k, a)
  {
    a := NetworkDelayDijkstra(es, n, k);
    b := NetworkDelayBellmanFord(es, n, k);
    DelayUnique(es, n, k, a, b);
  }
}
