/** Buffer, network and table together: which events can get lost, however requests repeat, overlap and fail. */
module ProctoringPipeline {
  import opened Extended
  import opened ProctoringRules
  import opened ProctoringIngest
  import Q = ProctoringQueue

  /** A request the server has worked through up to `done`. */
  datatype Request = Request(batch: seq<Event>, done: nat)

  /** The buffer and its copy in storage; the request the page waits for; requests nobody waits for, such as beacons
      and those of earlier page loads; the table. The sets record the history of event ids. */
  datatype System = System(
    events: seq<Event>, stored: seq<Event>, fetch: Option<Request>, others: multiset<Request>, table: seq<Row>,
    pushed: set<string>, rejected: set<string>, accepted: set<string>, refused: set<string>, overflowed: set<string>)

  const EMPTY := System([], [], None, multiset{}, [], {}, {}, {}, {}, {})

  datatype Action =
    | Push(e: Event)
    | Fetch
    | Beacon
    | ServeFetch(env: Env)
    | ServeOther(q: Request, env: Env)
    | AnswerOk
    | AnswerRefused
    | AnswerFailed
    | Abandon(q: Request)
    | Reload

  predicate Enabled(s: System, a: Action) {
    match a
    // Every event gets a new random id.
    case Push(e) => e.id !in s.pushed
    case Fetch => s.fetch.None? && s.events != []
    case Beacon => s.events != []
    case ServeFetch(_) => s.fetch.Some? && s.fetch.value.done < |s.fetch.value.batch|
    case ServeOther(q, _) => q in s.others && q.done < |q.batch|
    case AnswerOk => s.fetch.Some? && s.fetch.value.done == |s.fetch.value.batch|
    // 400, 404 and 409 are decided before the first event is looked at.
    case AnswerRefused => s.fetch.Some? && s.fetch.value.done == 0
    case AnswerFailed => s.fetch.Some?
    case Abandon(q) => q in s.others
    case Reload => true
  }

  function IdsOf(events: seq<Event>): (ids: set<string>)
    ensures forall id :: id in ids <==> Q.Mentions(events, id)
  {
    set k | 0 <= k < |events| :: events[k].id
  }

  /** One event of a request is ingested. */
  function Serve(s: System, e: Event, env: Env): System {
    s.(table := Ingest(s.table, e, env),
       rejected := if FateOf(s.table, e, env).Rejected? then s.rejected + {e.id} else s.rejected)
  }

  /** The page learns that its batch was dealt with. */
  function Drop(s: System, batch: seq<Event>): System {
    var left := Q.Remaining(s.events, batch);
    s.(events := left, stored := Q.Stored(left), fetch := None)
  }

  function Unattended(s: System): System {
    if s.fetch.Some? then s.(fetch := None, others := s.others + multiset{s.fetch.value}) else s
  }

  function Do(s: System, a: Action): System
    requires Enabled(s, a)
  {
    match a
    case Push(e) => s.(events := s.events + [e], stored := Q.Stored(s.events + [e]), pushed := s.pushed + {e.id})
    case Fetch => s.(fetch := Some(Request(Q.FirstBatch(s.events), 0)))
    case Beacon => s.(others := s.others + multiset{Request(Q.FirstBatch(s.events), 0)})
    case ServeFetch(env) =>
      var q := s.fetch.value;
      Serve(s, q.batch[q.done], env).(fetch := Some(q.(done := q.done + 1)))
    case ServeOther(q, env) =>
      Serve(s, q.batch[q.done], env).(others := s.others - multiset{q} + multiset{q.(done := q.done + 1)})
    case AnswerOk => Drop(s, s.fetch.value.batch).(accepted := s.accepted + IdsOf(s.fetch.value.batch))
    case AnswerRefused => Drop(s, s.fetch.value.batch).(refused := s.refused + IdsOf(s.fetch.value.batch))
    // Another status, or the network failed; the server may still be at work.
    case AnswerFailed => Unattended(s)
    case Abandon(q) => s.(others := s.others - multiset{q})
    // What was not stored is lost.
    case Reload => Unattended(s).(events := s.stored, overflowed := s.overflowed + (IdsOf(s.events) - IdsOf(s.stored)))
  }

  ghost predicate IsRun(run: seq<System>, actions: seq<Action>) {
    |run| == |actions| + 1 && run[0] == EMPTY &&
    forall i :: 0 <= i < |actions| ==> Enabled(run[i], actions[i]) && run[i + 1] == Do(run[i], actions[i])
  }

  // ------------------------------------------------------------ the buffer

  /** Every event that was pushed is in the buffer, or was answered, or fell out of a full storage at a reload. */
  ghost predicate BufferInv(s: System) {
    Q.UniqueIds(s.events) && s.stored == Q.Stored(s.events) &&
    (s.fetch.Some? ==> s.fetch.value.batch <= s.events) &&
    s.pushed == IdsOf(s.events) + s.accepted + s.refused + s.overflowed
  }

  lemma MentionsConcat(a: seq<Event>, b: seq<Event>)
    ensures IdsOf(a + b) == IdsOf(a) + IdsOf(b)
  {
    forall id
      ensures Q.Mentions(a + b, id) <==> Q.Mentions(a, id) || Q.Mentions(b, id)
    {
      if k :| 0 <= k < |a| && a[k].id == id {
        assert (a + b)[k].id == id;
      }
      if k :| 0 <= k < |b| && b[k].id == id {
        assert (a + b)[|a| + k].id == id;
      }
    }
  }

  lemma IdsAppended(events: seq<Event>, e: Event)
    ensures IdsOf(events + [e]) == IdsOf(events) + {e.id}
  {
    MentionsConcat(events, [e]);
    assert [e][0].id == e.id;
  }

  lemma UniqueAppended(events: seq<Event>, e: Event)
    requires Q.UniqueIds(events) && e.id !in IdsOf(events)
    ensures Q.UniqueIds(events + [e])
  {
    forall k | 0 <= k < |events|
      ensures events[k].id != e.id
    {
      assert Q.Mentions(events, events[k].id);
    }
  }

  lemma PushKeeps(s: System, e: Event)
    requires BufferInv(s) && e.id !in s.pushed
    ensures BufferInv(Do(s, Push(e)))
  {
    IdsAppended(s.events, e);
    UniqueAppended(s.events, e);
  }

  lemma DropKeeps(s: System, batch: seq<Event>)
    requires BufferInv(s) && s.fetch.Some? && batch == s.fetch.value.batch
    ensures Q.UniqueIds(Drop(s, batch).events) && IdsOf(s.events) == IdsOf(Drop(s, batch).events) + IdsOf(batch)
    ensures Drop(s, batch).events == s.events[|batch|..]
  {
    var rest := s.events[|batch|..];
    assert s.events == batch + rest;
    Q.RemovesFront(batch, rest);
    MentionsConcat(batch, rest);
  }

  lemma StoredIds(events: seq<Event>)
    ensures IdsOf(Q.Stored(events)) <= IdsOf(events)
    ensures |events| <= 200 ==> Q.Stored(events) == events
  {
    if |events| > Q.MAX_STORED {
      var cut := |events| - Q.MAX_STORED;
      MentionsConcat(events[..cut], events[cut..]);
      assert events[..cut] + events[cut..] == events;
    }
  }

  lemma LostAreCounted(pushed: set<string>, ids: set<string>, kept: set<string>, answered: set<string>, lost: set<string>)
    requires pushed == ids + answered + lost && kept <= ids
    ensures pushed == kept + answered + (lost + (ids - kept))
  {
  }

  lemma Reloaded(s: System, t: System)
    requires Q.UniqueIds(s.stored) && Q.Stored(s.stored) == s.stored && t.events == t.stored == s.stored && t.fetch.None?
    requires t.pushed == IdsOf(s.stored) + t.accepted + t.refused + t.overflowed
    ensures BufferInv(t)
  {
  }

  lemma ReloadKeeps(s: System)
    requires BufferInv(s)
    ensures BufferInv(Do(s, Reload))
  {
    Q.StoredKeepsUnique(s.events);
    StoredIds(s.events);
    LostAreCounted(s.pushed, IdsOf(s.events), IdsOf(s.stored), s.accepted + s.refused, s.overflowed);
    Reloaded(s, Do(s, Reload));
  }

  lemma BufferStep(s: System, a: Action)
    requires BufferInv(s) && Enabled(s, a)
    ensures BufferInv(Do(s, a))
  {
    match a
    case Push(e) => PushKeeps(s, e);
    case AnswerOk => DropKeeps(s, s.fetch.value.batch);
    case AnswerRefused => DropKeeps(s, s.fetch.value.batch);
    case Reload => ReloadKeeps(s);
    case _ =>
  }

  lemma {:induction false} BufferAlways(run: seq<System>, actions: seq<Action>, n: nat)
    requires IsRun(run, actions) && n <= |actions|
    ensures BufferInv(run[n])
  {
    if n > 0 {
      BufferAlways(run, actions, n - 1);
      BufferStep(run[n - 1], actions[n - 1]);
      assert run[n - 1 + 1] == Do(run[n - 1], actions[n - 1]);
    }
  }

  /** An event leaves the buffer exactly with the answer to a batch that holds it, or by a reload when 200 newer ones follow. */
  lemma LeavesOnlyWhenAnswered(s: System, a: Action, k: nat)
    requires BufferInv(s) && Enabled(s, a) && k < |s.events|
    ensures s.events[k] !in Do(s, a).events <==>
      ((a.AnswerOk? || a.AnswerRefused?) && k < |s.fetch.value.batch|) || (a.Reload? && |s.events| - k > 200)
  {
    if a.AnswerOk? || a.AnswerRefused? {
      DropKeeps(s, s.fetch.value.batch);
      InSuffix(s.events, |s.fetch.value.batch|, k);
    } else if a.Reload? {
      InSuffix(s.events, |s.events| - |s.stored|, k);
    } else {
      assert Do(s, a).events[k] == s.events[k];
    }
  }

  lemma InSuffix(events: seq<Event>, from: nat, k: nat)
    requires Q.UniqueIds(events) && from <= |events| && k < |events|
    ensures events[k] in events[from..] <==> from <= k
  {
    if from <= k { assert events[from..][k - from] == events[k]; }
    if events[k] in events[from..] {
      var j :| 0 <= j < |events[from..]| && events[from..][j] == events[k];
      assert events[from + j].id == events[k].id;
    }
  }

  lemma NoOverflow(s: System, a: Action)
    requires BufferInv(s) && Enabled(s, a) && |s.events| <= 200 && s.overflowed == {}
    ensures Do(s, a).overflowed == {}
  {
    if a.Reload? { StoredIds(s.events); }
  }

  /** With at most 200 events in the buffer at any time, nothing overflows: every event is buffered or answered. */
  lemma {:induction false} NothingOverflows(run: seq<System>, actions: seq<Action>, n: nat)
    requires IsRun(run, actions) && n <= |actions| && forall i :: 0 <= i < |run| ==> |run[i].events| <= 200
    ensures run[n].overflowed == {}
    ensures run[n].pushed == IdsOf(run[n].events) + run[n].accepted + run[n].refused
  {
    BufferAlways(run, actions, n);
    if n > 0 {
      NothingOverflows(run, actions, n - 1);
      BufferAlways(run, actions, n - 1);
      NoOverflow(run[n - 1], actions[n - 1]);
      assert run[n - 1 + 1] == Do(run[n - 1], actions[n - 1]);
    }
  }

  /** A request the server does not turn away for its size. */
  ghost predicate Fits(q: Request) {
    1 <= |q.batch| <= 50 && q.done <= |q.batch| && Q.UniqueIds(q.batch)
  }

  ghost predicate AllFit(s: System) {
    (s.fetch.Some? ==> Fits(s.fetch.value)) && forall q :: q in s.others ==> Fits(q)
  }

  lemma FirstFits(events: seq<Event>)
    requires Q.UniqueIds(events) && events != []
    ensures Fits(Request(Q.FirstBatch(events), 0))
  {
  }

  lemma SentFits(s: System, a: Action)
    requires BufferInv(s) && AllFit(s) && Enabled(s, a) && (a.Fetch? || a.Beacon?)
    ensures AllFit(Do(s, a))
  {
    FirstFits(s.events);
  }

  lemma FitStep(s: System, a: Action)
    requires BufferInv(s) && AllFit(s) && Enabled(s, a)
    ensures AllFit(Do(s, a))
  {
    if a.Fetch? || a.Beacon? { SentFits(s, a); }
  }

  /** Whatever is sent, by fetch or by beacon, holds between 1 and 50 different events: in no run does the server
      turn a batch away for its size. */
  lemma {:induction false} BatchesFit(run: seq<System>, actions: seq<Action>, n: nat)
    requires IsRun(run, actions) && n <= |actions|
    ensures AllFit(run[n])
  {
    if n > 0 {
      BatchesFit(run, actions, n - 1);
      BufferAlways(run, actions, n - 1);
      FitStep(run[n - 1], actions[n - 1]);
      assert run[n - 1 + 1] == Do(run[n - 1], actions[n - 1]);
    }
  }

  // ------------------------------------------------------------ the table

  /** The server has a row for the event or has turned it away. */
  ghost predicate Handled(table: seq<Row>, rejected: set<string>, id: string) {
    HasRow(table, id) || id in rejected
  }

  ghost predicate Progress(table: seq<Row>, rejected: set<string>, q: Request) {
    q.done <= |q.batch| && forall i :: 0 <= i < q.done ==> Handled(table, rejected, q.batch[i].id)
  }

  ghost predicate ProgressAll(table: seq<Row>, rejected: set<string>, qs: multiset<Request>) {
    forall q :: q in qs ==> Progress(table, rejected, q)
  }

  ghost predicate HandledAll(table: seq<Row>, rejected: set<string>, ids: set<string>) {
    forall id :: id in ids ==> Handled(table, rejected, id)
  }

  ghost predicate TableInv(s: System) {
    TableOk(s.table) && (s.fetch.Some? ==> Progress(s.table, s.rejected, s.fetch.value)) &&
    ProgressAll(s.table, s.rejected, s.others) && HandledAll(s.table, s.rejected, s.accepted)
  }

  lemma AcceptedHasRow(t: seq<Row>, e: Event, env: Env)
    requires FateOf(t, e, env).Accepted?
    ensures HasRow(Ingest(t, e, env), e.id)
  {
    var times := TimesOf(e, env);
    var u := CloseHidden(t, e, times.startedAt);
    CloseHiddenFind(t, e, times.startedAt, e.id);
    FindAppended(u, Ingest(t, e, env)[|u|], e.id);
  }

  /** After one more event, everything that was handled still is, and so is the event. */
  lemma IngestHandles(table: seq<Row>, rejected: set<string>, e: Event, env: Env, table': seq<Row>, rejected': set<string>)
    requires TableOk(table) && table' == Ingest(table, e, env)
    requires rejected' == if FateOf(table, e, env).Rejected? then rejected + {e.id} else rejected
    ensures TableOk(table') && Extends(table, table') && Handled(table', rejected', e.id)
    ensures forall id :: Handled(table, rejected, id) ==> Handled(table', rejected', id)
  {
    IngestKeeps(table, e, env);
    forall id | HasRow(table, id)
      ensures HasRow(table', id)
    {
      ExtendsFind(table, table', id);
    }
    if FateOf(table, e, env).Accepted? { AcceptedHasRow(table, e, env); }
  }

  lemma ServeKeeps(s: System, e: Event, env: Env, t: System)
    requires TableInv(s) && t == Serve(s, e, env)
    ensures TableInv(t) && Extends(s.table, t.table) && Handled(t.table, t.rejected, e.id)
  {
    IngestHandles(s.table, s.rejected, e, env, t.table, t.rejected);
  }

  lemma Advances(t: System, q: Request, next: Request)
    requires Progress(t.table, t.rejected, q) && q.done < |q.batch| && Handled(t.table, t.rejected, q.batch[q.done].id)
    requires next == q.(done := q.done + 1)
    ensures Progress(t.table, t.rejected, next)
  {
  }

  lemma FetchServed(s: System, env: Env)
    requires TableInv(s) && Enabled(s, ServeFetch(env))
    ensures TableInv(Do(s, ServeFetch(env))) && Extends(s.table, Do(s, ServeFetch(env)).table)
  {
    var q := s.fetch.value;
    var t := Serve(s, q.batch[q.done], env);
    ServeKeeps(s, q.batch[q.done], env, t);
    Advances(t, q, q.(done := q.done + 1));
  }

  lemma OtherServed(s: System, q: Request, env: Env)
    requires TableInv(s) && Enabled(s, ServeOther(q, env))
    ensures TableInv(Do(s, ServeOther(q, env))) && Extends(s.table, Do(s, ServeOther(q, env)).table)
  {
    var t := Serve(s, q.batch[q.done], env);
    ServeKeeps(s, q.batch[q.done], env, t);
    Advances(t, q, q.(done := q.done + 1));
  }

  lemma AnswerHandled(s: System)
    requires TableInv(s) && Enabled(s, AnswerOk)
    ensures TableInv(Do(s, AnswerOk))
  {
    var batch := s.fetch.value.batch;
    forall id | id in IdsOf(batch)
      ensures Handled(s.table, s.rejected, id)
    {
      var k :| 0 <= k < |batch| && batch[k].id == id;
    }
  }

  lemma ExtendsRefl(t: seq<Row>)
    ensures Extends(t, t)
  {
  }

  lemma QuietStep(s: System, a: Action)
    requires TableInv(s) && Enabled(s, a) && !a.ServeFetch? && !a.ServeOther? && !a.AnswerOk?
    ensures TableInv(Do(s, a)) && Do(s, a).table == s.table
  {
  }

  lemma TableStep(s: System, a: Action)
    requires TableInv(s) && Enabled(s, a)
    ensures TableInv(Do(s, a)) && Extends(s.table, Do(s, a).table)
  {
    ExtendsRefl(s.table);
    match a
    case ServeFetch(env) => FetchServed(s, env);
    case ServeOther(q, env) => OtherServed(s, q, env);
    case AnswerOk => AnswerHandled(s);
    case _ => QuietStep(s, a);
  }

  lemma {:induction false} TableAlways(run: seq<System>, actions: seq<Action>, n: nat)
    requires IsRun(run, actions) && n <= |actions|
    ensures TableInv(run[n])
  {
    if n > 0 {
      TableAlways(run, actions, n - 1);
      TableStep(run[n - 1], actions[n - 1]);
      assert run[n - 1 + 1] == Do(run[n - 1], actions[n - 1]);
    }
  }

  lemma {:induction false} TableGrows(run: seq<System>, actions: seq<Action>, i: nat, n: nat)
    requires IsRun(run, actions) && i <= n <= |actions|
    ensures Extends(run[i].table, run[n].table)
    decreases n - i
  {
    if i == n {
      ExtendsRefl(run[i].table);
    } else {
      TableGrows(run, actions, i, n - 1);
      TableAlways(run, actions, n - 1);
      TableStep(run[n - 1], actions[n - 1]);
      assert run[n - 1 + 1] == Do(run[n - 1], actions[n - 1]);
      ExtendsTrans(run[i].table, run[n - 1].table, run[n].table);
    }
  }

  /** Throughout any run: an event reported as accepted has its row or was turned away by the server, there is at most
      one row per event, and every row has the severity of its type and duration. */
  lemma AcceptedIsStored(run: seq<System>, actions: seq<Action>, n: nat, id: string)
    requires IsRun(run, actions) && n <= |actions| && id in run[n].accepted
    ensures HasRow(run[n].table, id) || id in run[n].rejected
    ensures TableOk(run[n].table)
  {
    TableAlways(run, actions, n);
  }

  /** A row that is closed at one moment of a run is the same at every later one. */
  lemma ClosedRowsAreFrozen(run: seq<System>, actions: seq<Action>, i: nat, n: nat, k: nat)
    requires IsRun(run, actions) && i <= n <= |actions| && k < |run[i].table| && run[i].table[k].endedAt.Some?
    ensures k < |run[n].table| && run[n].table[k] == run[i].table[k]
  {
    TableGrows(run, actions, i, n);
    assert RowExtends(run[i].table[k], run[n].table[k]);
  }

  // ------------------------------------------------------------ an undisturbed delivery

  /** The page's request has been worked through up to its k-th event. */
  function Served(s: System, batch: seq<Event>, env: Env, k: nat): System
    requires k <= |batch|
    decreases k
  {
    if k == 0 then s.(fetch := Some(Request(batch, 0)))
    else Serve(Served(s, batch, env, k - 1), batch[k - 1], env).(fetch := Some(Request(batch, k)))
  }

  lemma {:induction false} ServedIs(s: System, batch: seq<Event>, env: Env, k: nat)
    requires k <= |batch|
    ensures Served(s, batch, env, k) ==
      s.(fetch := Some(Request(batch, k)), table := IngestAll(s.table, batch[..k], env),
         rejected := Served(s, batch, env, k).rejected)
  {
    if k == 0 {
      assert batch[..0] == [];
    } else {
      ServedIs(s, batch, env, k - 1);
      assert batch[..k][..k - 1] == batch[..k - 1];
    }
  }

  lemma ServedNext(s: System, batch: seq<Event>, env: Env, k: nat)
    requires k < |batch|
    ensures var t := Served(s, batch, env, k);
      Enabled(t, ServeFetch(env)) && Do(t, ServeFetch(env)) == Served(s, batch, env, k + 1)
  {
    ServedIs(s, batch, env, k);
  }

  lemma AnsweredFetch(s: System, env: Env, batch: seq<Event>, rest: seq<Event>)
    requires BufferInv(s) && s.events == batch + rest
    ensures var t := Served(s, batch, env, |batch|);
      Enabled(t, AnswerOk) && Do(t, AnswerOk) ==
      s.(events := rest, stored := Q.Stored(rest), fetch := None, table := IngestAll(s.table, batch, env),
         rejected := t.rejected, accepted := s.accepted + IdsOf(batch))
  {
    ServedIs(s, batch, env, |batch|);
    assert batch[..|batch|] == batch;
    Q.RemovesFront(batch, rest);
  }

  /** A fetch that nothing disturbs: the page sends the first 50 events, the server ingests them one after the other, and
      the answer takes exactly them off the buffer and its copy in storage. */
  lemma DeliveryByFetch(s: System, env: Env)
    requires BufferInv(s) && s.fetch.None? && s.events != []
    ensures var n := if |s.events| < 50 then |s.events| else 50; var batch, rest := s.events[..n], s.events[n..];
      Enabled(s, Fetch) && Do(s, Fetch) == Served(s, batch, env, 0) &&
      var t := Served(s, batch, env, n);
      Enabled(t, AnswerOk) && Do(t, AnswerOk) ==
      s.(events := rest, stored := Q.Stored(rest), fetch := None, table := IngestAll(s.table, batch, env),
         rejected := t.rejected, accepted := s.accepted + IdsOf(batch))
  {
    var n := if |s.events| < 50 then |s.events| else 50;
    assert Q.FirstBatch(s.events) == s.events[..n] && s.events == s.events[..n] + s.events[n..];
    AnsweredFetch(s, env, s.events[..n], s.events[n..]);
  }

  /** A beacon's request, which nobody waits for, worked through up to its k-th event. */
  function ServedBeacon(s: System, batch: seq<Event>, env: Env, k: nat): System
    requires k <= |batch|
    decreases k
  {
    if k == 0 then s.(others := s.others + multiset{Request(batch, 0)})
    else Serve(ServedBeacon(s, batch, env, k - 1), batch[k - 1], env).(others := s.others + multiset{Request(batch, k)})
  }

  lemma {:induction false} ServedBeaconIs(s: System, batch: seq<Event>, env: Env, k: nat)
    requires k <= |batch|
    ensures ServedBeacon(s, batch, env, k) ==
      s.(others := s.others + multiset{Request(batch, k)}, table := IngestAll(s.table, batch[..k], env),
         rejected := ServedBeacon(s, batch, env, k).rejected)
  {
    if k == 0 {
      assert batch[..0] == [];
    } else {
      ServedBeaconIs(s, batch, env, k - 1);
      assert batch[..k][..k - 1] == batch[..k - 1];
    }
  }

  /** A beacon that nothing disturbs is ingested like a fetch, but the buffer keeps its events. */
  lemma DeliveryByBeacon(s: System, env: Env, k: nat)
    requires s.events != [] && k < |Q.FirstBatch(s.events)|
    ensures var batch := Q.FirstBatch(s.events); var t := ServedBeacon(s, batch, env, k);
      Enabled(s, Beacon) && Do(s, Beacon) == ServedBeacon(s, batch, env, 0) &&
      Enabled(t, ServeOther(Request(batch, k), env)) &&
      Do(t, ServeOther(Request(batch, k), env)) == ServedBeacon(s, batch, env, k + 1) &&
      t.events == s.events && t.table == IngestAll(s.table, batch[..k], env)
  {
    var batch := Q.FirstBatch(s.events);
    ServedBeaconIs(s, batch, env, k);
    assert s.others + multiset{Request(batch, k)} - multiset{Request(batch, k)} == s.others;
  }

  /** A request whose answer is lost, or whose page is left, goes on by itself; after a failure the buffer is as it was,
      after a reload it is what was stored. */
  lemma LostAnswer(s: System)
    requires s.fetch.Some?
    ensures Do(s, AnswerFailed) == s.(fetch := None, others := s.others + multiset{s.fetch.value})
    ensures var t := Do(s, Reload);
      t.events == s.stored && t.stored == s.stored && t.fetch.None? && t.others == s.others + multiset{s.fetch.value} &&
      t.table == s.table
  {
  }

  lemma AbandonedIsGone(s: System, q: Request)
    requires q in s.others
    ensures Do(s, Abandon(q)).others + multiset{q} == s.others
  {
  }

  /** A batch is refused as a whole or not at all, before its first event is ingested. */
  lemma RefusedAsAWhole(s: System)
    requires s.fetch.Some?
    ensures Enabled(s, AnswerRefused) <==> s.fetch.value.done < 1
  {
  }

  /** A batch that can never be accepted is dropped like an accepted one, and recorded as refused. */
  lemma RefusedIsDropped(s: System)
    requires BufferInv(s) && Enabled(s, AnswerRefused)
    ensures var batch, t := s.fetch.value.batch, Do(s, AnswerRefused);
      t.events == s.events[|batch|..] && t.table == s.table && t.refused == s.refused + IdsOf(batch) && t.accepted == s.accepted
  {
    DropKeeps(s, s.fetch.value.batch);
  }
}
