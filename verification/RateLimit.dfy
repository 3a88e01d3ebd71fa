/** The in-memory rate limiter: fixed windows counted in a map from which stale entries are evicted. */
module RateLimit {
  import Decimal

  datatype Rule = Rule(name: string, limit: nat, windowSeconds: nat)

  datatype Entry = Entry(count: nat, resetAt: int)

  datatype Request = Request(rule: Rule, subject: string, now: nat)

  const MAX_ENTRIES := 10_000

  predicate NoColon(s: string) {
    forall k :: 0 <= k < |s| ==> s[k] != ':'
  }

  /** Rules are told apart by their names, which hold no colon. */
  ghost predicate Listed(book: string -> Rule, rule: Rule) {
    book(rule.name) == rule && NoColon(rule.name) && rule.windowSeconds >= 1
  }

  function WindowMs(rule: Rule): nat {
    rule.windowSeconds * 1000
  }

  function FloorDiv(x: nat, d: nat): (w: nat)
    requires d >= 1
    ensures w * d <= x < w * d + d
  {
    x / d
  }

  function Window(r: Request): nat
    requires r.rule.windowSeconds >= 1
  {
    FloorDiv(r.now, WindowMs(r.rule))
  }

  function KeyText(name: string, subject: string, window: int): string {
    "rl:" + name + ":" + subject + ":" + Decimal.IntText(window)
  }

  function Key(r: Request): string
    requires r.rule.windowSeconds >= 1
  {
    KeyText(r.rule.name, r.subject, Window(r))
  }

  // ------------------------------------------------------------ keys

  lemma WindowTextNoColon(w: nat)
    ensures NoColon(Decimal.IntText(w))
  {
    Decimal.NatTextDigits(w);
    assert forall k :: 0 <= k < |Decimal.NatText(w)| ==> Decimal.IsDigit(Decimal.NatText(w)[k]);
  }

  /** A text with a colon-free head, a colon and a rest determines both. */
  lemma HeadDetermined(a: string, x: string, b: string, y: string)
    requires NoColon(a) && NoColon(b) && a + ":" + x == b + ":" + y
    ensures a == b && x == y
  {
    var s, t := a + ":" + x, b + ":" + y;
    assert s[|a|] == ':' && t[|b|] == ':';
    assert forall k :: 0 <= k < |a| ==> s[k] == a[k];
    assert forall k :: 0 <= k < |b| ==> t[k] == b[k];
    assert |a| == |b|;
    assert s[..|a|] == a && t[..|b|] == b;
    assert s[|a| + 1..] == x && t[|b| + 1..] == y;
  }

  lemma TailDetermined(x: string, a: string, y: string, b: string)
    requires NoColon(a) && NoColon(b) && x + ":" + a == y + ":" + b
    ensures a == b && x == y
  {
    var s, t := x + ":" + a, y + ":" + b;
    assert s[|x|] == ':' && t[|y|] == ':';
    assert forall k :: |x| < k < |s| ==> s[k] == a[k - |x| - 1];
    assert forall k :: |y| < k < |t| ==> t[k] == b[k - |y| - 1];
    assert |x| == |y|;
    assert s[..|x|] == x && t[..|y|] == y;
    assert s[|x| + 1..] == a && t[|y| + 1..] == b;
  }

  /** A key names its rule, subject and window, whatever colons the subject holds. */
  lemma KeyInjective(n: string, s: string, w: nat, n': string, s': string, w': nat)
    requires NoColon(n) && NoColon(n')
    ensures (KeyText(n, s, w) == KeyText(n', s', w')) <==> (n == n' && s == s' && w == w')
  {
    if KeyText(n, s, w) == KeyText(n', s', w') {
      var d, d' := Decimal.IntText(w), Decimal.IntText(w');
      WindowTextNoColon(w);
      WindowTextNoColon(w');
      TailDetermined("rl:" + n + ":" + s, d, "rl:" + n' + ":" + s', d');
      assert ("rl:" + n + ":" + s)[3..] == n + ":" + s;
      assert ("rl:" + n' + ":" + s')[3..] == n' + ":" + s';
      HeadDetermined(n, s, n', s');
      Decimal.IntTextInjective(w, w');
    }
  }

  // ------------------------------------------------------------ the counter

  function Evicted(memory: map<string, Entry>, now: int): map<string, Entry> {
    map k | k in memory && memory[k].resetAt > now :: memory[k]
  }

  /** The entry after one more hit. */
  function HitEntry(memory: map<string, Entry>, r: Request): Entry
    requires r.rule.windowSeconds >= 1
  {
    var key := Key(r);
    if key !in memory || memory[key].resetAt <= r.now then Entry(1, r.now + WindowMs(r.rule))
    else memory[key].(count := memory[key].count + 1)
  }

  function HitMemory(memory: map<string, Entry>, r: Request): map<string, Entry>
    requires r.rule.windowSeconds >= 1
  {
    var key := Key(r);
    var next := memory[key := HitEntry(memory, r)];
    if (key !in memory || memory[key].resetAt <= r.now) && |next| > MAX_ENTRIES then Evicted(next, r.now) else next
  }

  /** What one hit does to the map: the entry of the key counts on, or is begun anew when it is over, for a whole window
      length from now. No other entry changes; those that are over are dropped exactly when a new entry brings the map
      above 10000. */
  lemma HitExactly(memory: map<string, Entry>, r: Request)
    requires r.rule.windowSeconds >= 1
    ensures var key, next := Key(r), HitMemory(memory, r);
      var anew := key !in memory || memory[key].resetAt <= r.now;
      var crowded := anew && |memory[key := HitEntry(memory, r)]| > 10_000;
      HitEntry(memory, r) == (if anew then Entry(1, r.now + 1000 * r.rule.windowSeconds)
                              else Entry(memory[key].count + 1, memory[key].resetAt)) &&
      key in next && next[key] == HitEntry(memory, r) &&
      (forall k :: k in memory && k != key && (!crowded || memory[k].resetAt > r.now) ==> k in next && next[k] == memory[k]) &&
      (forall k :: k in next && k != key ==> k in memory) && (crowded ==> forall k :: k in next ==> next[k].resetAt > r.now)
  {
  }

  /** Waiting s seconds, and at least one, is enough for ms to pass, and one second less would not be. */
  predicate ShortestWait(ms: int, s: int) {
    s >= 1 && 1000 * s >= ms && (s > 1 ==> 1000 * (s - 1) < ms)
  }

  function CeilSeconds(ms: int): int {
    (ms + 999) / 1000
  }

  datatype Answer = Admitted | RateLimited(retryAfterSeconds: int)

  class Limiter {
    var memory: map<string, Entry>

    constructor ()
      ensures memory == map[]
    {
      memory := map[];
    }

    method Evict(now: int)
      modifies this
      ensures memory == Evicted(old(memory), now)
    {
      ghost var m0 := memory;
      var keys := memory.Keys;
      while keys != {}
        invariant keys <= m0.Keys
        invariant memory == map k | k in m0 && (k in keys || m0[k].resetAt > now) :: m0[k]
      {
        var k :| k in keys;
        if memory[k].resetAt <= now { memory := memory - {k}; }
        keys := keys - {k};
      }
    }

    method MemoryHit(r: Request) returns (entry: Entry)
      requires r.rule.windowSeconds >= 1
      modifies this
      ensures entry == HitEntry(old(memory), r) && memory == HitMemory(old(memory), r)
    {
      var key := Key(r);
      if key !in memory || memory[key].resetAt <= r.now {
        entry := Entry(1, r.now + WindowMs(r.rule));
        memory := memory[key := entry];
        if |memory| > MAX_ENTRIES { Evict(r.now); }
        return;
      }
      entry := memory[key].(count := memory[key].count + 1);
      memory := memory[key := entry];
    }

    /** The memory path. */
    method EnforceRateLimit(r: Request) returns (a: Answer)
      requires r.rule.windowSeconds >= 1
      modifies this
      ensures memory == HitMemory(old(memory), r)
      ensures a.Admitted? <==> HitEntry(old(memory), r).count <= r.rule.limit
      ensures a.RateLimited? ==> ShortestWait(HitEntry(old(memory), r).resetAt - r.now, a.retryAfterSeconds)
    {
      var entry := MemoryHit(r);
      if entry.count > r.rule.limit {
        var seconds := CeilSeconds(entry.resetAt - r.now);
        return RateLimited(if seconds < 1 then 1 else seconds);
      }
      a := Admitted;
    }
  }

  // ------------------------------------------------------------ whole runs

  /** The requests follow the rules of one book and a clock that does not go back. */
  ghost predicate Run(book: string -> Rule, rs: seq<Request>) {
    (forall k :: 0 <= k < |rs| ==> Listed(book, rs[k].rule)) &&
    (forall j, k :: 0 <= j < k < |rs| ==> rs[j].now <= rs[k].now)
  }

  predicate Wellformed(rs: seq<Request>) {
    forall k :: 0 <= k < |rs| ==> rs[k].rule.windowSeconds >= 1
  }

  /** The map after a run. */
  function Memory(rs: seq<Request>): map<string, Entry>
    requires Wellformed(rs)
  {
    if rs == [] then map[] else HitMemory(Memory(rs[..|rs| - 1]), rs[|rs| - 1])
  }

  /** The plain counter: how many requests of the run had this key. */
  function Hits(rs: seq<Request>, key: string): nat
    requires Wellformed(rs)
  {
    if rs == [] then 0 else Hits(rs[..|rs| - 1], key) + if Key(rs[|rs| - 1]) == key then 1 else 0
  }

  /** When the key was first used: the time of the first request of the run that has it. */
  function FirstUse(rs: seq<Request>, key: string): int
    requires Wellformed(rs)
  {
    if rs == [] then 0
    else
      var front, r := rs[..|rs| - 1], rs[|rs| - 1];
      if Hits(front, key) == 0 && Key(r) == key then r.now else FirstUse(front, key)
  }

  /** The end of the window of a request. */
  function WindowEnd(r: Request): nat
    requires r.rule.windowSeconds >= 1
  {
    (Window(r) + 1) * WindowMs(r.rule)
  }

  lemma EndIsLater(r: Request)
    requires r.rule.windowSeconds >= 1
    ensures r.now < WindowEnd(r) <= r.now + WindowMs(r.rule)
  {
    var w, ms := Window(r), WindowMs(r.rule);
    assert (w + 1) * ms == w * ms + ms;
  }

  lemma SameKeySameEnd(book: string -> Rule, q: Request, r: Request)
    requires Listed(book, q.rule) && Listed(book, r.rule)
    ensures (Key(q) == Key(r)) <==> (q.rule == r.rule && q.subject == r.subject && Window(q) == Window(r))
  {
    KeyInjective(q.rule.name, q.subject, Window(q), r.rule.name, r.subject, Window(r));
  }

  /** The entry for a request that comes next: absent, or the true count, and live for one window length from the first
      use of the key, which outlasts the window of the key. */
  ghost predicate Agrees(memory: map<string, Entry>, hits: nat, first: int, q: Request)
    requires q.rule.windowSeconds >= 1
  {
    if hits == 0 then Key(q) !in memory
    else
      Key(q) in memory && memory[Key(q)] == Entry(hits, first + WindowMs(q.rule)) &&
      first <= q.now && first + WindowMs(q.rule) >= WindowEnd(q)
  }

  lemma HitAgrees(book: string -> Rule, memory: map<string, Entry>, hits: nat, first: int, r: Request, q: Request)
    requires Listed(book, r.rule) && Listed(book, q.rule) && r.now <= q.now && Key(q) == Key(r)
    requires Agrees(memory, hits, first, r)
    ensures Agrees(HitMemory(memory, r), hits + 1, if hits == 0 then r.now else first, q)
  {
    EndIsLater(r);
    EndIsLater(q);
    SameKeySameEnd(book, q, r);
  }

  lemma OtherAgrees(memory: map<string, Entry>, hits: nat, first: int, r: Request, q: Request)
    requires r.rule.windowSeconds >= 1 && q.rule.windowSeconds >= 1 && r.now <= q.now && Key(q) != Key(r)
    requires Agrees(memory, hits, first, q)
    ensures Agrees(HitMemory(memory, r), hits, first, q)
  {
    EndIsLater(q);
  }

  lemma RunFront(book: string -> Rule, rs: seq<Request>, q: Request)
    requires Run(book, rs + [q])
    ensures Run(book, rs) && Wellformed(rs) && Listed(book, q.rule) && forall k :: 0 <= k < |rs| ==> rs[k].now <= q.now
  {
    assert forall k :: 0 <= k < |rs| ==> (rs + [q])[k] == rs[k];
    assert (rs + [q])[|rs|] == q;
  }

  lemma RunWithout(book: string -> Rule, front: seq<Request>, r: Request, q: Request)
    requires Run(book, (front + [r]) + [q])
    ensures Run(book, front + [r]) && Run(book, front + [q]) && r.now <= q.now
  {
    RunFront(book, front + [r], q);
    RunFront(book, front, r);
    assert (front + [r])[|front|] == r;
    assert forall k :: 0 <= k < |front| ==> (front + [r])[k] == front[k];
  }

  /** After any run the map agrees with the plain counter about every request that may come next, evictions or not. */
  lemma {:induction false} MapAgreesWithCounter(book: string -> Rule, rs: seq<Request>, q: Request)
    requires Run(book, rs + [q])
    ensures Wellformed(rs) && Listed(book, q.rule) && Agrees(Memory(rs), Hits(rs, Key(q)), FirstUse(rs, Key(q)), q)
  {
    RunFront(book, rs, q);
    if rs != [] {
      var front, r := rs[..|rs| - 1], rs[|rs| - 1];
      assert front + [r] == rs;
      RunWithout(book, front, r, q);
      MapAgreesWithCounter(book, front, r);
      MapAgreesWithCounter(book, front, q);
      if Key(q) == Key(r) {
        HitAgrees(book, Memory(front), Hits(front, Key(q)), FirstUse(front, Key(q)), r, q);
      } else {
        OtherAgrees(Memory(front), Hits(front, Key(q)), FirstUse(front, Key(q)), r, q);
      }
    }
  }

  /** Whether the last request of a run is admitted. */
  predicate Admits(rs: seq<Request>, q: Request)
    requires Wellformed(rs) && q.rule.windowSeconds >= 1
  {
    HitEntry(Memory(rs), q).count <= q.rule.limit
  }

  /** A request is admitted exactly when fewer than `limit` requests of its window came before it. */
  lemma AdmitsExactlyWhen(book: string -> Rule, rs: seq<Request>, q: Request)
    requires Run(book, rs + [q])
    ensures Wellformed(rs) && Listed(book, q.rule)
    ensures Admits(rs, q) <==> Hits(rs, Key(q)) < q.rule.limit
  {
    MapAgreesWithCounter(book, rs, q);
    EndIsLater(q);
  }

  /** The admitted requests with a key. */
  function AdmittedHits(rs: seq<Request>, key: string): nat
    requires Wellformed(rs)
  {
    if rs == [] then 0
    else
      var front, r := rs[..|rs| - 1], rs[|rs| - 1];
      AdmittedHits(front, key) + if Key(r) == key && Admits(front, r) then 1 else 0
  }

  /** Of the requests of one window exactly the first `limit` are admitted. */
  lemma {:induction false} AdmittedInWindow(book: string -> Rule, rs: seq<Request>, q: Request)
    requires Run(book, rs) && Listed(book, q.rule)
    ensures Wellformed(rs)
    ensures AdmittedHits(rs, Key(q)) == if Hits(rs, Key(q)) < q.rule.limit then Hits(rs, Key(q)) else q.rule.limit
  {
    if rs != [] {
      var front, r := rs[..|rs| - 1], rs[|rs| - 1];
      assert front + [r] == rs;
      AdmittedInWindow(book, front, q);
      AdmitsExactlyWhen(book, front, r);
      SameKeySameEnd(book, r, q);
    }
  }

  /** The admitted requests of one subject under one rule with from <= now < to. */
  function AdmittedBetween(rs: seq<Request>, rule: Rule, subject: string, from: int, to: int): nat
    requires Wellformed(rs)
  {
    if rs == [] then 0
    else
      var front, r := rs[..|rs| - 1], rs[|rs| - 1];
      AdmittedBetween(front, rule, subject, from, to) +
      if r.rule == rule && r.subject == subject && from <= r.now < to && Admits(front, r) then 1 else 0
  }

  lemma WindowOfTime(now: nat, start: nat, ms: nat)
    requires ms >= 1 && start <= now < start + ms
    ensures FloorDiv(now, ms) == FloorDiv(start, ms) || FloorDiv(now, ms) == FloorDiv(start, ms) + 1
  {
    var w := FloorDiv(start, ms);
    if now < w * ms + ms {
      DivisionIs(now, ms, w);
    } else {
      assert (w + 1) * ms == w * ms + ms;
      DivisionIs(now, ms, w + 1);
    }
  }

  lemma DivisionIs(x: nat, ms: nat, w: nat)
    requires ms >= 1 && w * ms <= x < w * ms + ms
    ensures FloorDiv(x, ms) == w
  {
    var d := FloorDiv(x, ms);
    if d < w { MulAtMost(d + 1, w, ms); }
    if w < d { MulAtMost(w + 1, d, ms); }
  }

  lemma MulAtMost(a: nat, b: nat, ms: nat)
    requires a <= b
    ensures a * ms <= b * ms
  {
  }

  /** A stretch as long as a window meets two windows, and so at most 2 * limit requests are admitted in it. */
  lemma TwiceTheLimit(book: string -> Rule, rs: seq<Request>, rule: Rule, subject: string, from: nat, to: nat)
    requires Run(book, rs) && Listed(book, rule) && to == from + 1000 * rule.windowSeconds
    ensures Wellformed(rs) && AdmittedBetween(rs, rule, subject, from, to) <= 2 * rule.limit
  {
    var q, q' := Request(rule, subject, from), Request(rule, subject, to);
    InTwoWindows(book, rs, q, q');
    WindowBound(book, rs, q);
    WindowBound(book, rs, q');
    TwoBounds(AdmittedHits(rs, Key(q)), AdmittedHits(rs, Key(q')), rule.limit, AdmittedBetween(rs, rule, subject, from, to));
  }

  lemma TwoBounds(a: int, b: int, limit: int, sum: int)
    requires a <= limit && b <= limit && sum <= a + b
    ensures sum <= 2 * limit
  {
  }

  lemma WindowBound(book: string -> Rule, rs: seq<Request>, q: Request)
    requires Run(book, rs) && Listed(book, q.rule)
    ensures Wellformed(rs) && AdmittedHits(rs, Key(q)) <= q.rule.limit
  {
    AdmittedInWindow(book, rs, q);
  }

  lemma {:induction false} InTwoWindows(book: string -> Rule, rs: seq<Request>, q: Request, q': Request)
    requires Run(book, rs) && Listed(book, q.rule) && q' == q.(now := q.now + WindowMs(q.rule))
    ensures Wellformed(rs)
    ensures AdmittedBetween(rs, q.rule, q.subject, q.now, q'.now) <= AdmittedHits(rs, Key(q)) + AdmittedHits(rs, Key(q'))
  {
    if rs != [] {
      var front, r := rs[..|rs| - 1], rs[|rs| - 1];
      InTwoWindows(book, front, q, q');
      if r.rule == q.rule && r.subject == q.subject && q.now <= r.now < q'.now {
        KeyOfEither(book, r, q, q');
      }
    }
  }

  lemma KeyOfEither(book: string -> Rule, r: Request, q: Request, q': Request)
    requires Listed(book, q.rule) && q' == q.(now := q.now + WindowMs(q.rule))
    requires r.rule == q.rule && r.subject == q.subject && q.now <= r.now < q'.now
    ensures Key(r) == Key(q) || Key(r) == Key(q')
  {
    var ms := WindowMs(q.rule);
    WindowOfTime(r.now, q.now, ms);
    var w := FloorDiv(q.now, ms);
    assert (w + 1) * ms == w * ms + ms;
    DivisionIs(q'.now, ms, w + 1);
  }

  /** In any run the entry of the latest request ends one window length after the first use of its key, within its own
      window length from now. */
  lemma EntryEnds(book: string -> Rule, rs: seq<Request>, q: Request)
    requires Run(book, rs + [q]) && Wellformed(rs + [q]) && Wellformed(rs) && Listed(book, q.rule)
    ensures HitEntry(Memory(rs), q).resetAt == FirstUse(rs + [q], Key(q)) + WindowMs(q.rule)
    ensures WindowEnd(q) <= HitEntry(Memory(rs), q).resetAt <= q.now + WindowMs(q.rule)
  {
    MapAgreesWithCounter(book, rs, q);
    EndIsLater(q);
    assert (rs + [q])[..|rs|] == rs;
  }

  lemma WaitBound(ms: int, seconds: nat, s: int)
    requires ms <= 1000 * seconds && seconds >= 1 && ShortestWait(ms, s)
    ensures s <= seconds
  {
  }

  lemma LaterWindow(q: Request, later: Request)
    requires q.rule.windowSeconds >= 1 && later == q.(now := later.now) && later.now >= WindowEnd(q)
    ensures Window(later) > Window(q)
  {
    EndIsLater(later);
    if Window(later) <= Window(q) { MulAtMost(Window(later) + 1, Window(q) + 1, WindowMs(q.rule)); }
  }

  /** A refused caller that waits as long as it is told comes back in a later window. */
  lemma WaitingHelps(book: string -> Rule, rs: seq<Request>, q: Request, s: int, later: Request)
    requires Run(book, rs + [q]) && Wellformed(rs + [q]) && Wellformed(rs) && Listed(book, q.rule) && !Admits(rs, q)
    requires ShortestWait(HitEntry(Memory(rs), q).resetAt - q.now, s)
    requires later == q.(now := later.now) && later.now >= q.now + 1000 * s
    ensures Window(later) > Window(q) && Key(later) != Key(q)
  {
    EntryEnds(book, rs, q);
    LaterWindow(q, later);
    SameKeySameEnd(book, later, q);
  }

  /** What a caller is told after the requests of `rs`: it is admitted exactly when fewer than `limit` requests of its
      window came before; if not, it is told the shortest wait until one window length after the first of them, which is
      never more than the length of a window. */
  ghost predicate Told(rs: seq<Request>, q: Request, a: Answer)
    requires Wellformed(rs) && Wellformed(rs + [q]) && q.rule.windowSeconds >= 1
  {
    match a
    case Admitted => Hits(rs, Key(q)) < q.rule.limit
    case RateLimited(s) =>
      Hits(rs, Key(q)) >= q.rule.limit && 1 <= s <= q.rule.windowSeconds &&
      ShortestWait(FirstUse(rs + [q], Key(q)) + 1000 * q.rule.windowSeconds - q.now, s)
  }

  lemma AnswerIsTold(book: string -> Rule, rs: seq<Request>, q: Request, a: Answer)
    requires Run(book, rs + [q]) && Wellformed(rs + [q]) && Wellformed(rs) && Listed(book, q.rule)
    requires a.Admitted? <==> Admits(rs, q)
    requires a.RateLimited? ==> ShortestWait(HitEntry(Memory(rs), q).resetAt - q.now, a.retryAfterSeconds)
    ensures Told(rs, q, a)
  {
    AdmitsExactlyWhen(book, rs, q);
    EntryEnds(book, rs, q);
    if a.RateLimited? { WaitBound(HitEntry(Memory(rs), q).resetAt - q.now, q.rule.windowSeconds, a.retryAfterSeconds); }
  }

  ghost predicate ToldAt(rs: seq<Request>, k: nat, a: Answer)
    requires k < |rs| && Wellformed(rs)
  {
    Told(rs[..k], rs[k], a)
  }

  /** The map after the first k requests. */
  function MemoryAt(rs: seq<Request>, k: nat): map<string, Entry>
    requires k <= |rs| && Wellformed(rs)
  {
    Memory(rs[..k])
  }

  lemma ToldNext(book: string -> Rule, rs: seq<Request>, k: nat, before: seq<Request>, q: Request, a: Answer)
    requires Run(book, rs) && Wellformed(rs) && k < |rs| && before == rs[..k] && q == rs[k]
    requires a.Admitted? <==> Admits(before, q)
    requires a.RateLimited? ==> ShortestWait(HitEntry(Memory(before), q).resetAt - q.now, a.retryAfterSeconds)
    ensures ToldAt(rs, k, a) && MemoryAt(rs, k + 1) == HitMemory(Memory(before), q)
  {
    assert rs[..k + 1] == before + [q] && rs[..k + 1][..k] == before;
    assert Run(book, before + [q]);
    AnswerIsTold(book, before, q, a);
  }

  method ServeOne(ghost book: string -> Rule, limiter: Limiter, rs: seq<Request>, k: nat) returns (a: Answer)
    requires Run(book, rs) && Wellformed(rs) && k < |rs| && limiter.memory == MemoryAt(rs, k)
    modifies limiter
    ensures limiter.memory == MemoryAt(rs, k + 1) && ToldAt(rs, k, a)
  {
    a := limiter.EnforceRateLimit(rs[k]);
    ToldNext(book, rs, k, rs[..k], rs[k], a);
  }

  ghost predicate AllTold(rs: seq<Request>, answers: seq<Answer>)
    requires Wellformed(rs) && |answers| <= |rs|
  {
    forall k :: 0 <= k < |answers| ==> ToldAt(rs, k, answers[k])
  }

  lemma OneMoreTold(rs: seq<Request>, answers: seq<Answer>, a: Answer)
    requires Wellformed(rs) && |answers| < |rs| && AllTold(rs, answers) && ToldAt(rs, |answers|, a)
    ensures AllTold(rs, answers + [a])
  {
  }

  /** A fresh limiter serves a whole run of requests. */
  method ServeRun(ghost book: string -> Rule, rs: seq<Request>) returns (answers: seq<Answer>)
    requires Run(book, rs) && Wellformed(rs)
    ensures |answers| == |rs| && AllTold(rs, answers)
  {
    var limiter := new Limiter();
    answers := [];
    for i := 0 to |rs|
      invariant limiter.memory == MemoryAt(rs, i) && |answers| == i && AllTold(rs, answers)
    {
      var a := ServeOne(book, limiter, rs, i);
      OneMoreTold(rs, answers, a);
      answers := answers + [a];
    }
  }
}
