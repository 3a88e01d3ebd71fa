/** Ingestion of proctoring events into the table of one interview. */
module ProctoringIngest {
  import opened Extended
  import opened ProctoringRules

  datatype Row = Row(id: string, kind: EventType, severity: Severity, startedAt: int, endedAt: Option<int>, durationMs: Option<int>)

  /** What an ingestion depends on besides table and event: settings, times, and which inserts the database fails. */
  datatype Env = Env(cameraEnabled: bool, span: Span, now: int, failing: set<string>)

  datatype Fate = Accepted | Duplicate | Rejected

  predicate IsCameraType(kind: EventType) {
    kind.FACE_NOT_DETECTED? || kind.MULTIPLE_FACES_DETECTED? || kind.CAMERA_INTERRUPTED? ||
    kind.CAMERA_PERMISSION_DENIED? || kind.PROCTORING_STARTED? || kind.PROCTORING_STOPPED?
  }

  /** The index of the row with a client event id, |t| without one. */
  function Find(t: seq<Row>, id: string): (k: nat)
    ensures k <= |t| && (k < |t| ==> t[k].id == id) && forall i :: 0 <= i < k ==> t[i].id != id
  {
    if t == [] || t[0].id == id then 0 else 1 + Find(t[1..], id)
  }

  predicate HasRow(t: seq<Row>, id: string) {
    Find(t, id) < |t|
  }

  /** Why an event is turned away before it touches the table. */
  predicate Valid(e: Event, env: Env) {
    (env.cameraEnabled || !IsCameraType(e.kind)) && ValidateEventTimes(e, env.span, env.now).Times?
  }

  function TimesOf(e: Event, env: Env): (t: Validated)
    requires Valid(e, env)
    ensures t.Times?
  {
    ValidateEventTimes(e, env.span, env.now)
  }

  function Closed(row: Row, endedAt: int, durationMs: int): Row {
    row.(endedAt := Some(endedAt), durationMs := Some(durationMs), severity := ComputeSeverity(row.kind, Some(durationMs)))
  }

  /** A TAB_RETURNED closes the open TAB_HIDDEN it names. */
  function CloseHidden(t: seq<Row>, e: Event, startMs: int): seq<Row> {
    if e.kind != TAB_RETURNED || e.closes.None? then t
    else
      var k := Find(t, e.closes.value);
      if k == |t| || t[k].kind != TAB_HIDDEN || t[k].endedAt.Some? then t
      else
        var endMs := Max(t[k].startedAt, startMs);
        t[k := Closed(t[k], endMs, endMs - t[k].startedAt)]
  }

  /** A new row, or the end time for an open row of the same event. */
  function Store(t: seq<Row>, e: Event, times: Validated, fails: bool): seq<Row>
    requires times.Times?
  {
    var k := Find(t, e.id);
    if k == |t| then
      if fails then t
      else t + [Row(e.id, e.kind, ComputeSeverity(e.kind, times.durationMs), times.startedAt, times.endedAt, times.durationMs)]
    else if times.endedAt.Some? && t[k].endedAt.None? && t[k].kind == e.kind then
      t[k := Closed(t[k], times.endedAt.value, Max(0, times.endedAt.value - t[k].startedAt))]
    else t
  }

  function Ingest(t: seq<Row>, e: Event, env: Env): seq<Row> {
    if !Valid(e, env) then t
    else
      var times := TimesOf(e, env);
      Store(CloseHidden(t, e, times.startedAt), e, times, e.id in env.failing)
  }

  function FateOf(t: seq<Row>, e: Event, env: Env): Fate {
    if !Valid(e, env) then Rejected
    else if HasRow(t, e.id) then Duplicate
    else if e.id in env.failing then Rejected
    else Accepted
  }

  /** What happens to an event: it is turned away when it needs a camera that is off, when its times are refused, or when
      a new row cannot be stored; otherwise it is a duplicate exactly when it has a row already. */
  lemma FateExactlyWhen(t: seq<Row>, e: Event, env: Env)
    ensures var camera := e.kind in {FACE_NOT_DETECTED, MULTIPLE_FACES_DETECTED, CAMERA_INTERRUPTED,
                                     CAMERA_PERMISSION_DENIED, PROCTORING_STARTED, PROCTORING_STOPPED};
      var known := exists k :: 0 <= k < |t| && t[k].id == e.id;
      var valid := (camera ==> env.cameraEnabled) && ValidateEventTimes(e, env.span, env.now).Times?;
      (FateOf(t, e, env).Rejected? <==> !valid || (!known && e.id in env.failing)) &&
      (FateOf(t, e, env).Duplicate? <==> valid && known) && (!valid ==> Ingest(t, e, env) == t)
  {
    var known := exists k :: 0 <= k < |t| && t[k].id == e.id;
    assert known <==> HasRow(t, e.id);
  }

  /** A whole batch, one event after the other. */
  function IngestAll(t: seq<Row>, batch: seq<Event>, env: Env): seq<Row> {
    if batch == [] then t else Ingest(IngestAll(t, batch[..|batch| - 1], env), batch[|batch| - 1], env)
  }

  // ------------------------------------------------------------ what every ingestion keeps

  /** Severity is that of type and duration; a row has an end exactly when it has a duration, which is not negative. */
  ghost predicate RowOk(row: Row) {
    row.severity == ComputeSeverity(row.kind, row.durationMs) &&
    (row.endedAt.Some? <==> row.durationMs.Some?) &&
    (row.endedAt.Some? ==> row.durationMs.value == Max(0, row.endedAt.value - row.startedAt))
  }

  ghost predicate TableOk(t: seq<Row>) {
    (forall k :: 0 <= k < |t| ==> RowOk(t[k])) &&
    forall i, j :: 0 <= i < j < |t| ==> t[i].id != t[j].id
  }

  /** No row is lost, none changes its event, type or start, and a closed one does not change at all. */
  ghost predicate Extends(t: seq<Row>, u: seq<Row>) {
    |t| <= |u| && forall k :: 0 <= k < |t| ==> RowExtends(t[k], u[k])
  }

  predicate RowExtends(a: Row, b: Row) {
    if a.endedAt.Some? then a == b else b.id == a.id && b.kind == a.kind && b.startedAt == a.startedAt
  }

  lemma ExtendsTrans(t: seq<Row>, u: seq<Row>, v: seq<Row>)
    requires Extends(t, u) && Extends(u, v)
    ensures Extends(t, v)
  {
    forall k | 0 <= k < |t|
      ensures RowExtends(t[k], v[k])
    {
      assert RowExtends(t[k], u[k]) && RowExtends(u[k], v[k]);
    }
  }

  lemma UpdateKeeps(t: seq<Row>, k: nat, row: Row)
    requires TableOk(t) && k < |t| && RowOk(row) && RowExtends(t[k], row) && row.id == t[k].id
    ensures TableOk(t[k := row]) && Extends(t, t[k := row])
  {
  }

  lemma CloseHiddenKeeps(t: seq<Row>, e: Event, startMs: int)
    requires TableOk(t)
    ensures TableOk(CloseHidden(t, e, startMs)) && Extends(t, CloseHidden(t, e, startMs))
  {
    if e.kind == TAB_RETURNED && e.closes.Some? {
      var k := Find(t, e.closes.value);
      if k < |t| && t[k].kind == TAB_HIDDEN && t[k].endedAt.None? {
        var endMs := Max(t[k].startedAt, startMs);
        UpdateKeeps(t, k, Closed(t[k], endMs, endMs - t[k].startedAt));
      }
    }
  }

  lemma StoreKeeps(t: seq<Row>, e: Event, times: Validated, fails: bool)
    requires TableOk(t) && times.Times?
    requires times.durationMs.Some? <==> times.endedAt.Some?
    requires times.endedAt.Some? ==> times.durationMs.value == times.endedAt.value - times.startedAt >= 0
    ensures TableOk(Store(t, e, times, fails)) && Extends(t, Store(t, e, times, fails))
  {
    var k := Find(t, e.id);
    if k < |t| && times.endedAt.Some? && t[k].endedAt.None? && t[k].kind == e.kind {
      UpdateKeeps(t, k, Closed(t[k], times.endedAt.value, Max(0, times.endedAt.value - t[k].startedAt)));
    }
  }

  lemma IngestKeeps(t: seq<Row>, e: Event, env: Env)
    requires TableOk(t)
    ensures TableOk(Ingest(t, e, env)) && Extends(t, Ingest(t, e, env))
  {
    if Valid(e, env) {
      var times := TimesOf(e, env);
      var u := CloseHidden(t, e, times.startedAt);
      CloseHiddenKeeps(t, e, times.startedAt);
      StoreKeeps(u, e, times, e.id in env.failing);
      ExtendsTrans(t, u, Store(u, e, times, e.id in env.failing));
    }
  }

  /** Through any number of batches, at most one row per event, severities as computed, closed rows untouched. */
  lemma {:induction false} IngestAllKeeps(t: seq<Row>, batch: seq<Event>, env: Env)
    requires TableOk(t)
    ensures TableOk(IngestAll(t, batch, env)) && Extends(t, IngestAll(t, batch, env))
  {
    if batch != [] {
      var front := batch[..|batch| - 1];
      IngestAllKeeps(t, front, env);
      IngestKeeps(IngestAll(t, front, env), batch[|batch| - 1], env);
      ExtendsTrans(t, IngestAll(t, front, env), IngestAll(t, batch, env));
    }
  }

  lemma ExtendsFind(t: seq<Row>, u: seq<Row>, id: string)
    requires TableOk(u) && Extends(t, u) && HasRow(t, id)
    ensures Find(u, id) == Find(t, id) && RowExtends(t[Find(t, id)], u[Find(u, id)])
  {
    var k := Find(t, id);
    assert RowExtends(t[k], u[k]);
  }

  // ------------------------------------------------------------ sending a batch again

  /** The event has its row, which is closed if the event has an end. */
  ghost predicate Recorded(t: seq<Row>, e: Event) {
    var k := Find(t, e.id);
    k < |t| && (e.endedAt.Some? && t[k].kind == e.kind ==> t[k].endedAt.Some?)
  }

  predicate IsOpenHidden(t: seq<Row>, id: string) {
    var k := Find(t, id); k < |t| && t[k].kind == TAB_HIDDEN && t[k].endedAt.None?
  }

  /** The TAB_HIDDEN that the event should close is open. */
  ghost predicate LeavesOpen(t: seq<Row>, e: Event) {
    e.kind == TAB_RETURNED && e.closes.Some? && IsOpenHidden(t, e.closes.value)
  }

  lemma RepeatIsIdle(t: seq<Row>, e: Event, env: Env)
    requires Recorded(t, e) && !LeavesOpen(t, e)
    ensures Ingest(t, e, env) == t
  {
  }

  /** Nothing about the event is turned away. */
  predicate Admitted(e: Event, env: Env) {
    Valid(e, env) && e.id !in env.failing
  }

  /** An event is admitted exactly when an empty table would take it. */
  lemma AdmittedExactlyWhen(e: Event, env: Env)
    ensures Admitted(e, env) <==> FateOf([], e, env).Accepted?
  {
  }

  lemma RecordedAfter(t: seq<Row>, e: Event, env: Env)
    requires TableOk(t) && Admitted(e, env)
    ensures Recorded(Ingest(t, e, env), e)
  {
    var times := TimesOf(e, env);
    var u := CloseHidden(t, e, times.startedAt);
    if Find(u, e.id) == |u| {
      FindAppended(u, Store(u, e, times, false)[|u|], e.id);
    } else {
      CloseHiddenKeeps(t, e, times.startedAt);
      StoreKeeps(u, e, times, false);
      ExtendsFind(u, Store(u, e, times, false), e.id);
    }
  }

  lemma CloseHiddenFind(t: seq<Row>, e: Event, startMs: int, id: string)
    ensures |CloseHidden(t, e, startMs)| == |t| && Find(CloseHidden(t, e, startMs), id) == Find(t, id)
  {
    var u := CloseHidden(t, e, startMs);
    assert forall i :: 0 <= i < |t| ==> u[i].id == t[i].id;
    assert Find(t, id) < |t| ==> u[Find(t, id)].id == id;
    assert Find(u, id) < |u| ==> t[Find(u, id)].id == id;
  }

  lemma {:induction false} FindAppended(t: seq<Row>, row: Row, id: string)
    ensures Find(t + [row], id) == if HasRow(t, id) then Find(t, id) else if row.id == id then |t| else |t| + 1
  {
    if t != [] && t[0].id != id {
      assert (t + [row])[1..] == t[1..] + [row];
      FindAppended(t[1..], row, id);
    }
  }

  lemma SameIdsSameFind(t: seq<Row>, u: seq<Row>, id: string)
    requires |t| == |u| && forall i :: 0 <= i < |t| ==> u[i].id == t[i].id
    ensures Find(u, id) == Find(t, id)
  {
    assert Find(t, id) < |t| ==> u[Find(t, id)].id == id;
    assert Find(u, id) < |u| ==> t[Find(u, id)].id == id;
  }

  /** A row that appears is that of the event itself, and none is opened again. */
  lemma StoreOpensNone(t: seq<Row>, e: Event, times: Validated, fails: bool, id: string)
    requires times.Times? && !IsOpenHidden(t, id) && (e.id == id ==> e.kind != TAB_HIDDEN)
    ensures !IsOpenHidden(Store(t, e, times, fails), id)
  {
    var u := Store(t, e, times, fails);
    if |u| == |t| {
      SameIdsSameFind(t, u, id);
    } else {
      FindAppended(t, u[|t|], id);
    }
  }

  lemma CloseOpensNone(t: seq<Row>, e: Event, startMs: int, id: string)
    ensures IsOpenHidden(CloseHidden(t, e, startMs), id) <==>
            IsOpenHidden(t, id) && !(e.kind == TAB_RETURNED && e.closes == Some(id))
  {
    CloseHiddenFind(t, e, startMs, id);
  }

  lemma ClosedAfter(t: seq<Row>, e: Event, env: Env)
    requires Valid(e, env)
    ensures !LeavesOpen(Ingest(t, e, env), e)
  {
    if e.kind == TAB_RETURNED && e.closes.Some? {
      var times := TimesOf(e, env);
      CloseOpensNone(t, e, times.startedAt, e.closes.value);
      StoreOpensNone(CloseHidden(t, e, times.startedAt), e, times, e.id in env.failing, e.closes.value);
    }
  }

  lemma RecordedStays(t: seq<Row>, e: Event, f: Event, env: Env)
    requires TableOk(t) && Recorded(t, e)
    ensures Recorded(Ingest(t, f, env), e)
  {
    IngestKeeps(t, f, env);
    ExtendsFind(t, Ingest(t, f, env), e.id);
  }

  ghost predicate AllAdmitted(batch: seq<Event>, env: Env) {
    forall i :: 0 <= i < |batch| ==> Admitted(batch[i], env)
  }

  lemma AllAdmittedFront(batch: seq<Event>, env: Env, front: seq<Event>, last: Event)
    requires AllAdmitted(batch, env) && batch == front + [last]
    ensures AllAdmitted(front, env) && Admitted(last, env)
  {
    assert batch[|front|] == last;
    assert forall i :: 0 <= i < |front| ==> front[i] == batch[i];
  }

  lemma LastStep(t: seq<Row>, batch: seq<Event>, env: Env, front: seq<Event>, last: Event)
    requires batch == front + [last] && TableOk(t)
    ensures IngestAll(t, batch, env) == Ingest(IngestAll(t, front, env), last, env)
    ensures TableOk(IngestAll(t, front, env))
  {
    assert batch[..|batch| - 1] == front;
    IngestAllKeeps(t, front, env);
  }

  lemma {:induction false} AllRecorded(t: seq<Row>, batch: seq<Event>, env: Env, e: Event)
    requires TableOk(t) && e in batch && AllAdmitted(batch, env)
    ensures Recorded(IngestAll(t, batch, env), e)
    decreases |batch|
  {
    var front, last := batch[..|batch| - 1], batch[|batch| - 1];
    AllAdmittedFront(batch, env, front, last);
    LastStep(t, batch, env, front, last);
    if e in front {
      AllRecorded(t, front, env, e);
      RecordedStays(IngestAll(t, front, env), e, last, env);
    } else {
      RecordedAfter(IngestAll(t, front, env), e, env);
    }
  }

  lemma {:induction false} IdleBatch(t: seq<Row>, batch: seq<Event>, env: Env)
    requires forall i :: 0 <= i < |batch| ==> Ingest(t, batch[i], env) == t
    ensures IngestAll(t, batch, env) == t
  {
    if batch != [] { IdleBatch(t, batch[..|batch| - 1], env); }
  }

  lemma StaysClosed(t: seq<Row>, e: Event, env: Env, k: nat)
    requires TableOk(t) && k < |t| && t[k].endedAt.Some?
    ensures k < |Ingest(t, e, env)| && Ingest(t, e, env)[k].endedAt.Some?
  {
    IngestKeeps(t, e, env);
    assert RowExtends(t[k], Ingest(t, e, env)[k]);
  }

  lemma StillHidden(t: seq<Row>, u: seq<Row>, id: string)
    requires TableOk(u) && Extends(t, u) && IsOpenHidden(t, id)
    ensures Find(u, id) == Find(t, id) < |u| && u[Find(t, id)].kind == TAB_HIDDEN
  {
    ExtendsFind(t, u, id);
  }

  lemma {:induction false} TakesEffect(t: seq<Row>, batch: seq<Event>, env: Env, i: nat)
    requires TableOk(t) && i < |batch| && Valid(batch[i], env) && LeavesOpen(t, batch[i])
    ensures var k := Find(t, batch[i].closes.value);
      k < |IngestAll(t, batch, env)| && IngestAll(t, batch, env)[k].endedAt.Some?
  {
    var k := Find(t, batch[i].closes.value);
    var front, last := batch[..|batch| - 1], batch[|batch| - 1];
    var u := IngestAll(t, front, env);
    IngestAllKeeps(t, front, env);
    if i < |front| {
      TakesEffect(t, front, env, i);
      StaysClosed(u, last, env, k);
    } else {
      StillHidden(t, u, last.closes.value);
      ClosesIt(u, last, env, k);
    }
  }

  lemma ClosesIt(t: seq<Row>, e: Event, env: Env, k: nat)
    requires TableOk(t) && Valid(e, env) && e.kind == TAB_RETURNED && e.closes.Some? && k == Find(t, e.closes.value) < |t|
    requires t[k].kind == TAB_HIDDEN
    ensures k < |Ingest(t, e, env)| && Ingest(t, e, env)[k].endedAt.Some?
  {
    var times := TimesOf(e, env);
    var u := CloseHidden(t, e, times.startedAt);
    assert u[k].endedAt.Some?;
    CloseHiddenKeeps(t, e, times.startedAt);
    StoreKeeps(u, e, times, e.id in env.failing);
    assert RowExtends(u[k], Store(u, e, times, e.id in env.failing)[k]);
  }

  /** Sending an admitted batch again, at any later time and under any settings, changes nothing exactly when the
      first time left no TAB_HIDDEN open that a TAB_RETURNED of the batch names. */
  lemma ReplayIdleExactlyWhen(t: seq<Row>, batch: seq<Event>, env: Env, again: Env)
    requires TableOk(t) && AllAdmitted(batch, env)
    ensures var u := IngestAll(t, batch, env);
      (IngestAll(u, batch, again) == u) <==>
      (forall i :: 0 <= i < |batch| && Valid(batch[i], again) ==> !LeavesOpen(u, batch[i]))
  {
    var u := IngestAll(t, batch, env);
    IngestAllKeeps(t, batch, env);
    if i: nat :| i < |batch| && Valid(batch[i], again) && LeavesOpen(u, batch[i]) {
      TakesEffect(u, batch, again, i);
    } else {
      forall i | 0 <= i < |batch|
        ensures Ingest(u, batch[i], again) == u
      {
        AllRecorded(t, batch, env, batch[i]);
        if Valid(batch[i], again) { RepeatIsIdle(u, batch[i], again); }
      }
      IdleBatch(u, batch, again);
    }
  }

  // ------------------------------------------------------------ the same condition, read off table and batch

  predicate Reports(batch: seq<Event>, id: string) {
    exists k :: 0 <= k < |batch| && batch[k].id == id
  }

  predicate Returns(e: Event, id: string) {
    e.kind == TAB_RETURNED && e.closes == Some(id)
  }

  /** An open TAB_HIDDEN stays so unless its return, or a report with an end, follows; a new one comes in open. */
  predicate StaysOpen(t: seq<Row>, batch: seq<Event>, id: string) {
    if batch == [] then IsOpenHidden(t, id)
    else
      var front, last := batch[..|batch| - 1], batch[|batch| - 1];
      if StaysOpen(t, front, id) then
        !Returns(last, id) && !(last.id == id && last.kind == TAB_HIDDEN && last.endedAt.Some?)
      else
        last.id == id && last.kind == TAB_HIDDEN && last.endedAt.None? && !HasRow(t, id) && !Reports(front, id)
  }

  lemma OpenAfterStore(t: seq<Row>, e: Event, times: Validated, id: string)
    requires times.Times? && (times.endedAt.Some? <==> e.endedAt.Some?)
    ensures HasRow(Store(t, e, times, false), id) <==> HasRow(t, id) || e.id == id
    ensures IsOpenHidden(Store(t, e, times, false), id) <==>
      if HasRow(t, id) then IsOpenHidden(t, id) && !(e.id == id && e.kind == TAB_HIDDEN && e.endedAt.Some?)
      else e.id == id && e.kind == TAB_HIDDEN && e.endedAt.None?
  {
    var k := Find(t, e.id);
    if k == |t| {
      FindAppended(t, Store(t, e, times, false)[|t|], id);
    } else {
      var u := Store(t, e, times, false);
      assert |u| == |t| && forall i :: 0 <= i < |t| ==> u[i].id == t[i].id;
      SameIdsSameFind(t, u, id);
    }
  }

  lemma OpenAfter(t: seq<Row>, e: Event, env: Env, id: string)
    requires Admitted(e, env)
    ensures HasRow(Ingest(t, e, env), id) <==> HasRow(t, id) || e.id == id
    ensures IsOpenHidden(Ingest(t, e, env), id) <==>
      if HasRow(t, id) then IsOpenHidden(t, id) && !Returns(e, id) && !(e.id == id && e.kind == TAB_HIDDEN && e.endedAt.Some?)
      else e.id == id && e.kind == TAB_HIDDEN && e.endedAt.None?
  {
    var times := TimesOf(e, env);
    CloseHiddenFind(t, e, times.startedAt, id);
    CloseOpensNone(t, e, times.startedAt, id);
    OpenAfterStore(CloseHidden(t, e, times.startedAt), e, times, id);
  }

  lemma {:induction false} OpenAfterAll(t: seq<Row>, batch: seq<Event>, env: Env, id: string)
    requires TableOk(t) && AllAdmitted(batch, env)
    ensures HasRow(IngestAll(t, batch, env), id) <==> HasRow(t, id) || Reports(batch, id)
    ensures IsOpenHidden(IngestAll(t, batch, env), id) <==> StaysOpen(t, batch, id)
    decreases |batch|
  {
    if batch != [] {
      var front, last := batch[..|batch| - 1], batch[|batch| - 1];
      AllAdmittedFront(batch, env, front, last);
      LastStep(t, batch, env, front, last);
      OpenAfterAll(t, front, env, id);
      OpenAfter(IngestAll(t, front, env), last, env, id);
      ReportsLast(batch, front, last, id);
    }
  }

  lemma ReportsLast(batch: seq<Event>, front: seq<Event>, last: Event, id: string)
    requires batch == front + [last]
    ensures Reports(batch, id) <==> Reports(front, id) || last.id == id
  {
    assert batch[|front|] == last;
    if k :| 0 <= k < |front| && front[k].id == id { assert batch[k].id == id; }
  }

  /** The event names a TAB_HIDDEN that the whole batch leaves open. */
  predicate ReturnsInVain(t: seq<Row>, batch: seq<Event>, e: Event) {
    e.kind == TAB_RETURNED && e.closes.Some? && StaysOpen(t, batch, e.closes.value)
  }

  lemma LeavesOpenByInputs(t: seq<Row>, batch: seq<Event>, env: Env, e: Event)
    requires TableOk(t) && AllAdmitted(batch, env)
    ensures LeavesOpen(IngestAll(t, batch, env), e) <==> ReturnsInVain(t, batch, e)
  {
    if e.kind == TAB_RETURNED && e.closes.Some? { OpenAfterAll(t, batch, env, e.closes.value); }
  }

  /** Whether a batch can be sent again without effect shows in the table before it and in the batch itself. */
  lemma ReplayIdleByInputs(t: seq<Row>, batch: seq<Event>, env: Env, again: Env)
    requires TableOk(t) && AllAdmitted(batch, env)
    ensures var u := IngestAll(t, batch, env);
      (IngestAll(u, batch, again) == u) <==>
      (forall i :: 0 <= i < |batch| && Valid(batch[i], again) ==> !ReturnsInVain(t, batch, batch[i]))
  {
    ReplayIdleExactlyWhen(t, batch, env, again);
    forall i | 0 <= i < |batch|
      ensures LeavesOpen(IngestAll(t, batch, env), batch[i]) <==> ReturnsInVain(t, batch, batch[i])
    {
      LeavesOpenByInputs(t, batch, env, batch[i]);
    }
  }

  /** No TAB_HIDDEN comes behind the TAB_RETURNED that names it. */
  ghost predicate InOrder(batch: seq<Event>) {
    forall i, j :: 0 <= i < j < |batch| && batch[i].kind == TAB_RETURNED && batch[i].closes == Some(batch[j].id) ==>
      batch[j].kind != TAB_HIDDEN
  }

  lemma NotReopened(t: seq<Row>, e: Event, f: Event, env: Env)
    requires !LeavesOpen(t, e)
    requires e.kind == TAB_RETURNED && e.closes == Some(f.id) ==> f.kind != TAB_HIDDEN
    ensures !LeavesOpen(Ingest(t, f, env), e)
  {
    if Valid(f, env) && e.kind == TAB_RETURNED && e.closes.Some? {
      var times := TimesOf(f, env);
      CloseOpensNone(t, f, times.startedAt, e.closes.value);
      StoreOpensNone(CloseHidden(t, f, times.startedAt), f, times, f.id in env.failing, e.closes.value);
    }
  }

  lemma {:induction false} InOrderLeavesNoneOpen(t: seq<Row>, batch: seq<Event>, env: Env, i: nat)
    requires TableOk(t) && InOrder(batch) && i < |batch| && AllAdmitted(batch, env)
    ensures !LeavesOpen(IngestAll(t, batch, env), batch[i])
    decreases |batch|
  {
    var front, last := batch[..|batch| - 1], batch[|batch| - 1];
    AllAdmittedFront(batch, env, front, last);
    LastStep(t, batch, env, front, last);
    if i < |front| {
      InOrderFront(batch, front, last, i);
      InOrderLeavesNoneOpen(t, front, env, i);
      NotReopened(IngestAll(t, front, env), front[i], last, env);
    } else {
      ClosedAfter(IngestAll(t, front, env), last, env);
    }
  }

  lemma InOrderFront(batch: seq<Event>, front: seq<Event>, last: Event, i: nat)
    requires InOrder(batch) && batch == front + [last] && i < |front|
    ensures InOrder(front) && front[i] == batch[i]
    ensures front[i].kind == TAB_RETURNED && front[i].closes == Some(last.id) ==> last.kind != TAB_HIDDEN
  {
    assert batch[|front|] == last;
    assert forall j :: 0 <= j < |front| ==> front[j] == batch[j];
  }

  /** Batches in order can be sent any number of times. */
  lemma InOrderReplayIsIdle(t: seq<Row>, batch: seq<Event>, env: Env, again: Env)
    requires TableOk(t) && InOrder(batch) && AllAdmitted(batch, env)
    ensures IngestAll(IngestAll(t, batch, env), batch, again) == IngestAll(t, batch, env)
  {
    forall i | 0 <= i < |batch|
      ensures !LeavesOpen(IngestAll(t, batch, env), batch[i])
    {
      InOrderLeavesNoneOpen(t, batch, env, i);
    }
    ReplayIdleExactlyWhen(t, batch, env, again);
  }

  lemma PairBatch(a: Event, b: Event, env: Env)
    ensures IngestAll([], [a, b], env) == Ingest(Ingest([], a, env), b, env)
  {
    assert [a, b] == [a] + [b] && [a] == [] + [a];
    LastStep([], [a, b], env, [a], b);
    LastStep([], [a], env, [], a);
  }

  /** Reported before the TAB_HIDDEN, a TAB_RETURNED has nothing to close. */
  lemma ReturnedFirst(hidden: Event, returned: Event, env: Env)
    requires hidden.kind == TAB_HIDDEN && hidden.endedAt.None? && returned.kind == TAB_RETURNED
    requires returned.closes == Some(hidden.id) && returned.id != hidden.id
    requires Admitted(hidden, env) && Admitted(returned, env)
    ensures LeavesOpen(Ingest(Ingest([], returned, env), hidden, env), returned)
  {
    var times := TimesOf(returned, env);
    var row := Row(returned.id, TAB_RETURNED, ComputeSeverity(TAB_RETURNED, times.durationMs), times.startedAt, times.endedAt, times.durationMs);
    var from := TimesOf(hidden, env).startedAt;
    var open := Row(hidden.id, TAB_HIDDEN, ComputeSeverity(TAB_HIDDEN, None), from, None, None);
    assert Ingest([], returned, env) == [row];
    FindAppended([], row, hidden.id);
    assert [] + [row] == [row];
    assert Ingest([row], hidden, env) == [row] + [open];
    FindAppended([row], open, hidden.id);
  }

  /** Out of order, the first sending leaves the TAB_HIDDEN open and the second one closes it. */
  lemma LateHiddenIsClosedByReplay(hidden: Event, returned: Event, env: Env)
    requires hidden.kind == TAB_HIDDEN && hidden.endedAt.None? && returned.kind == TAB_RETURNED
    requires returned.closes == Some(hidden.id) && returned.id != hidden.id
    requires Admitted(hidden, env) && Admitted(returned, env)
    ensures var batch := [returned, hidden];
      IngestAll(IngestAll([], batch, env), batch, env) != IngestAll([], batch, env)
  {
    var batch := [returned, hidden];
    PairBatch(returned, hidden, env);
    ReturnedFirst(hidden, returned, env);
    assert LeavesOpen(IngestAll([], batch, env), batch[0]);
    ReplayIdleExactlyWhen([], batch, env, env);
  }

  // ------------------------------------------------------------ rows that end before they start

  predicate RowForward(row: Row) {
    row.endedAt.Some? ==> row.startedAt <= row.endedAt.value
  }

  ghost predicate Forward(t: seq<Row>) {
    forall k :: 0 <= k < |t| ==> RowForward(t[k])
  }

  /** The event closes an open row of the same event and type before that row's start. */
  predicate EndsTooEarly(t: seq<Row>, e: Event, times: Validated) {
    var k := Find(t, e.id);
    times.Times? && times.endedAt.Some? && k < |t| && t[k].endedAt.None? && t[k].kind == e.kind &&
    times.endedAt.value < t[k].startedAt
  }

  lemma UpdateForward(t: seq<Row>, k: nat, row: Row)
    requires Forward(t) && k < |t|
    ensures Forward(t[k := row]) <==> RowForward(row)
  {
    assert t[k := row][k] == row;
  }

  lemma CloseHiddenForward(t: seq<Row>, e: Event, startMs: int)
    requires Forward(t)
    ensures Forward(CloseHidden(t, e, startMs))
  {
    if e.kind == TAB_RETURNED && e.closes.Some? {
      var k := Find(t, e.closes.value);
      if k < |t| && t[k].kind == TAB_HIDDEN && t[k].endedAt.None? {
        var endMs := Max(t[k].startedAt, startMs);
        UpdateForward(t, k, Closed(t[k], endMs, endMs - t[k].startedAt));
      }
    }
  }

  /** Rows of other types than TAB_HIDDEN stay as they are. */
  lemma CloseHiddenSpares(t: seq<Row>, e: Event, times: Validated, startMs: int)
    ensures EndsTooEarly(CloseHidden(t, e, startMs), e, times) <==> EndsTooEarly(t, e, times)
  {
    CloseHiddenFind(t, e, startMs, e.id);
  }

  lemma StoreForward(t: seq<Row>, e: Event, times: Validated, fails: bool)
    requires Forward(t) && times.Times? && (times.endedAt.Some? ==> times.startedAt <= times.endedAt.value)
    ensures Forward(Store(t, e, times, fails)) <==> !EndsTooEarly(t, e, times)
  {
    var k := Find(t, e.id);
    if k < |t| && times.endedAt.Some? && t[k].endedAt.None? && t[k].kind == e.kind {
      UpdateForward(t, k, Closed(t[k], times.endedAt.value, Max(0, times.endedAt.value - t[k].startedAt)));
    }
  }

  ghost predicate InTime(t: seq<Row>, e: Event, env: Env) {
    !(Valid(e, env) && EndsTooEarly(t, e, ValidateEventTimes(e, env.span, env.now)))
  }

  /** An ingestion leaves a row that ends before it starts exactly when the event was reported before, the row is
      still open, and the second report ends before the first one starts. */
  lemma EndPrecedesStartExactlyWhen(t: seq<Row>, e: Event, env: Env)
    requires Forward(t)
    ensures Forward(Ingest(t, e, env)) <==> InTime(t, e, env)
  {
    if Valid(e, env) {
      var times := TimesOf(e, env);
      CloseHiddenForward(t, e, times.startedAt);
      CloseHiddenSpares(t, e, times, times.startedAt);
      StoreForward(CloseHidden(t, e, times.startedAt), e, times, e.id in env.failing);
    }
  }

  /** Such a row stays: a batch ends with one exactly when some event of it, at its turn, ends too early. */
  lemma {:induction false} BatchForwardExactlyWhen(t: seq<Row>, batch: seq<Event>, env: Env)
    requires TableOk(t) && Forward(t)
    ensures Forward(IngestAll(t, batch, env)) <==>
      forall i :: 0 <= i < |batch| ==> InTime(IngestAll(t, batch[..i], env), batch[i], env)
  {
    if batch != [] {
      var front, last := batch[..|batch| - 1], batch[|batch| - 1];
      var u := IngestAll(t, front, env);
      BatchForwardExactlyWhen(t, front, env);
      LastStep(t, batch, env, front, last);
      assert forall i :: 0 <= i < |front| ==> batch[..i] == front[..i] && batch[i] == front[i];
      if Forward(u) {
        EndPrecedesStartExactlyWhen(u, last, env);
      } else {
        BackwardStays(u, last, env);
      }
    }
  }

  lemma BackwardStays(t: seq<Row>, e: Event, env: Env)
    requires TableOk(t) && !Forward(t)
    ensures !Forward(Ingest(t, e, env))
  {
    IngestKeeps(t, e, env);
    var k :| 0 <= k < |t| && !RowForward(t[k]);
    assert RowExtends(t[k], Ingest(t, e, env)[k]);
  }

  /** The same event reported twice, from 100 on and then from 50 to 60: its row runs from 100 to 60, with duration 0. */
  lemma EndMayPrecedeStart()
    ensures var env := Env(true, Span(0, None, None), 1000, {});
      var first := Event("a", FACE_NOT_DETECTED, At(100), None, None);
      var second := Event("a", FACE_NOT_DETECTED, At(50), Some(At(60)), None);
      IngestAll([], [first, second], env) == [Row("a", FACE_NOT_DETECTED, INFO, 100, Some(60), Some(0))]
  {
    var env := Env(true, Span(0, None, None), 1000, {});
    var first := Event("a", FACE_NOT_DETECTED, At(100), None, None);
    var second := Event("a", FACE_NOT_DETECTED, At(50), Some(At(60)), None);
    var row := Row("a", FACE_NOT_DETECTED, INFO, 100, None, None);
    PairBatch(first, second, env);
    assert Ingest([], first, env) == [row];
    assert Find([row], "a") == 0;
  }

  lemma HiddenStored(t: seq<Row>, e: Event, env: Env)
    requires Admitted(e, env) && !HasRow(t, e.id) && e.kind == TAB_HIDDEN && e.endedAt.None?
    ensures Ingest(t, e, env) == t + [Row(e.id, TAB_HIDDEN, INFO, TimesOf(e, env).startedAt, None, None)]
  {
  }

  lemma ReturnedCloses(t: seq<Row>, row: Row, e: Event, to: int, s: Severity)
    requires row.kind == TAB_HIDDEN && row.endedAt.None? && !HasRow(t, row.id)
    requires e.kind == TAB_RETURNED && e.closes == Some(row.id) && Graded(s, Max(0, to - row.startedAt), 2_000, 15_000, 60_000)
    ensures var away := Max(0, to - row.startedAt);
      CloseHidden(t + [row], e, to) ==
      t + [row.(endedAt := Some(row.startedAt + away), durationMs := Some(away), severity := s)]
  {
    FindAppended(t, row, row.id);
    SeverityExactlyWhen(TAB_HIDDEN, Max(0, to - row.startedAt), s);
  }

  lemma ReturnedStored(t: seq<Row>, row: Row, e: Event, env: Env)
    requires Admitted(e, env) && !HasRow(t + [row], e.id) && e.kind == TAB_RETURNED
    ensures var times := TimesOf(e, env);
      Ingest(t + [row], e, env) == CloseHidden(t + [row], e, times.startedAt) +
        [Row(e.id, TAB_RETURNED, INFO, times.startedAt, times.endedAt, times.durationMs)]
  {
    CloseHiddenFind(t + [row], e, TimesOf(e, env).startedAt, e.id);
  }

  lemma HiddenSeverity(away: int) returns (s: Severity)
    ensures Graded(s, away, 2_000, 15_000, 60_000)
  {
    s := if away < 2_000 then INFO else if away < 15_000 then LOW else if away < 60_000 then MEDIUM else HIGH;
  }

  /** A tab hidden and then shown again: one row for each, the hidden interval closed at the return and judged by its
      length on the server alone: HIGH from a minute on, MEDIUM from 15 seconds, LOW from two, else INFO. */
  lemma HiddenThenReturned(t: seq<Row>, hidden: Event, returned: Event, env: Env) returns (s: Severity)
    requires hidden.kind == TAB_HIDDEN && hidden.endedAt.None? && returned.kind == TAB_RETURNED
    requires returned.closes == Some(hidden.id) && returned.id != hidden.id
    requires Admitted(hidden, env) && Admitted(returned, env) && !HasRow(t, hidden.id) && !HasRow(t, returned.id)
    ensures var from, to := TimesOf(hidden, env).startedAt, TimesOf(returned, env).startedAt;
      var away := Max(0, to - from);
      Graded(s, away, 2_000, 15_000, 60_000) &&
      Ingest(Ingest(t, hidden, env), returned, env) ==
        t + [Row(hidden.id, TAB_HIDDEN, s, from, Some(from + away), Some(away))] +
        [Row(returned.id, TAB_RETURNED, INFO, to, TimesOf(returned, env).endedAt, TimesOf(returned, env).durationMs)]
  {
    var row := Row(hidden.id, TAB_HIDDEN, INFO, TimesOf(hidden, env).startedAt, None, None);
    HiddenStored(t, hidden, env);
    FindAppended(t, row, returned.id);
    ReturnedStored(t, row, returned, env);
    s := HiddenSeverity(Max(0, TimesOf(returned, env).startedAt - row.startedAt));
    ReturnedCloses(t, row, returned, TimesOf(returned, env).startedAt, s);
  }

  /** Every row of a table in order has the severity that its type and length deserve. */
  lemma RowsAreJudged(t: seq<Row>, k: nat)
    requires TableOk(t) && k < |t|
    ensures t[k].endedAt.Some? ==> Deserves(t[k].kind, Max(0, t[k].endedAt.value - t[k].startedAt), t[k].severity)
    ensures t[k].endedAt.None? ==> Deserves(t[k].kind, 0, t[k].severity)
  {
    var row := t[k];
    assert RowOk(row);
    SeverityExactlyWhen(row.kind, if row.endedAt.Some? then Max(0, row.endedAt.value - row.startedAt) else 0, row.severity);
  }

  // ------------------------------------------------------------ the service

  datatype RoomStatus = CREATED | IN_PROGRESS | COMPLETED | CANCELLED

  datatype Room = Room(status: RoomStatus, cameraEnabled: bool, startedAt: Option<int>, endsAt: Option<int>, completedAt: Option<int>)

  const LATE_ARRIVAL_MS := 2 * 60_000
  const MAX_BATCH := 50

  /** What happens to the events of a batch, one after the other. */
  function Fates(t: seq<Row>, batch: seq<Event>, env: Env): (r: seq<Fate>)
    ensures |r| == |batch| && forall i :: 0 <= i < |r| ==> r[i] == FateOf(IngestAll(t, batch[..i], env), batch[i], env)
  {
    seq(|batch|, i requires 0 <= i < |batch| => FateOf(IngestAll(t, batch[..i], env), batch[i], env))
  }

  function CountFate(fates: seq<Fate>, fate: Fate): nat {
    multiset(fates)[fate]
  }

  /** The ids of the events that are turned away, in order. */
  function RejectedIds(fates: seq<Fate>, batch: seq<Event>): seq<string>
    requires |fates| == |batch|
  {
    if fates == [] then []
    else
      var n := |fates| - 1;
      RejectedIds(fates[..n], batch[..n]) + if fates[n].Rejected? then [batch[n].id] else []
  }

  /** The caller is told about every event that was turned away, and about no other. */
  lemma {:induction false} RejectedExactly(fates: seq<Fate>, batch: seq<Event>, id: string)
    requires |fates| == |batch|
    ensures id in RejectedIds(fates, batch) <==> exists i :: 0 <= i < |fates| && fates[i].Rejected? && batch[i].id == id
  {
    if fates != [] {
      var n := |fates| - 1;
      RejectedExactly(fates[..n], batch[..n], id);
      assert forall i :: 0 <= i < n ==> fates[..n][i] == fates[i] && batch[..n][i] == batch[i];
    }
  }

  datatype Reply = BadRequest | Conflict | Result(accepted: nat, duplicates: nat, rejected: seq<string>)

  function Counted(reply: Reply, fate: Fate, id: string): Reply {
    match reply
    case Result(accepted, duplicates, rejected) =>
      (match fate
       case Accepted => Result(accepted + 1, duplicates, rejected)
       case Duplicate => Result(accepted, duplicates + 1, rejected)
       case Rejected => Result(accepted, duplicates, rejected + [id]))
    case _ => reply
  }

  function TallyOf(fates: seq<Fate>, batch: seq<Event>): Reply
    requires |fates| == |batch|
  {
    Result(CountFate(fates, Accepted), CountFate(fates, Duplicate), RejectedIds(fates, batch))
  }

  lemma TallyNext(fates: seq<Fate>, last: Fate, batch: seq<Event>, e: Event)
    requires |fates| == |batch|
    ensures TallyOf(fates + [last], batch + [e]) == Counted(TallyOf(fates, batch), last, e.id)
  {
    assert (fates + [last])[..|fates|] == fates && (batch + [e])[..|batch|] == batch;
  }

  lemma FrontAndLast<T>(s: seq<T>)
    requires s != []
    ensures s[..|s| - 1] + [s[|s| - 1]] == s
  {
  }

  lemma {:induction false} TallySums(fates: seq<Fate>, batch: seq<Event>)
    requires |fates| == |batch|
    ensures var tally := TallyOf(fates, batch); tally.accepted + tally.duplicates + |tally.rejected| == |batch|
  {
    if fates != [] {
      var n := |fates| - 1;
      TallySums(fates[..n], batch[..n]);
      FrontAndLast(fates);
      FrontAndLast(batch);
      TallyNext(fates[..n], fates[n], batch[..n], batch[n]);
    }
  }

  /** The table and the tallies after the first n events. */
  ghost predicate Tallied(t: seq<Row>, batch: seq<Event>, env: Env, n: nat, rows: seq<Row>, reply: Reply)
    requires n <= |batch|
  {
    match reply
    case Result(accepted, _, _) =>
      rows == IngestAll(t, batch[..n], env) && |rows| == |t| + accepted && reply == TallyOf(Fates(t, batch, env)[..n], batch[..n])
    case _ => false
  }

  lemma PrefixNext<T>(s: seq<T>, n: nat)
    requires n < |s|
    ensures s[..n + 1] == s[..n] + [s[n]] && s[..n + 1][..n] == s[..n]
  {
  }

  lemma TalliedNext(t: seq<Row>, batch: seq<Event>, env: Env, n: nat, rows: seq<Row>, reply: Reply, fate: Fate, rows': seq<Row>)
    requires n < |batch| && Tallied(t, batch, env, n, rows, reply)
    requires fate == FateOf(rows, batch[n], env) && rows' == Ingest(rows, batch[n], env)
    ensures Tallied(t, batch, env, n + 1, rows', Counted(reply, fate, batch[n].id))
  {
    var fates := Fates(t, batch, env);
    PrefixNext(batch, n);
    PrefixNext(fates, n);
    TallyNext(fates[..n], fate, batch[..n], batch[n]);
    RowsGrow(rows, batch[n], env);
  }

  lemma NothingTallied(t: seq<Row>, batch: seq<Event>, env: Env)
    ensures Tallied(t, batch, env, 0, t, Result(0, 0, []))
  {
    assert batch[..0] == [] && Fates(t, batch, env)[..0] == [];
  }

  class EventTable {
    var rows: seq<Row>

    constructor ()
      ensures rows == []
    {
      rows := [];
    }

    method FindUnique(id: string) returns (k: nat)
      ensures k == Find(rows, id)
    {
      k := 0;
      while k < |rows| && rows[k].id != id
        invariant k <= |rows| && Find(rows, id) == k + Find(rows[k..], id)
      {
        assert rows[k..][1..] == rows[k + 1..];
        k := k + 1;
      }
    }

    method CloseHiddenRow(e: Event, startMs: int)
      modifies this
      ensures rows == CloseHidden(old(rows), e, startMs)
    {
      if e.kind == TAB_RETURNED && e.closes.Some? {
        var hidden := FindUnique(e.closes.value);
        if hidden < |rows| && rows[hidden].kind == TAB_HIDDEN && rows[hidden].endedAt.None? {
          var endMs := Max(rows[hidden].startedAt, startMs);
          var durationMs := endMs - rows[hidden].startedAt;
          rows := rows[hidden := rows[hidden].(endedAt := Some(endMs), durationMs := Some(durationMs),
                                               severity := ComputeSeverity(TAB_HIDDEN, Some(durationMs)))];
        }
      }
    }

    method StoreRow(e: Event, times: Validated, fails: bool) returns (fate: Fate)
      requires times.Times?
      modifies this
      ensures rows == Store(old(rows), e, times, fails)
      ensures fate == if HasRow(old(rows), e.id) then Duplicate else if fails then Rejected else Accepted
    {
      var severity := ComputeSeverity(e.kind, times.durationMs);
      var existing := FindUnique(e.id);
      if existing == |rows| {
        if fails { return Rejected; }
        rows := rows + [Row(e.id, e.kind, severity, times.startedAt, times.endedAt, times.durationMs)];
        return Accepted;
      }
      if times.endedAt.Some? && rows[existing].endedAt.None? && rows[existing].kind == e.kind {
        var durationMs := Max(0, times.endedAt.value - rows[existing].startedAt);
        rows := rows[existing := rows[existing].(endedAt := times.endedAt, durationMs := Some(durationMs),
                                                 severity := ComputeSeverity(e.kind, Some(durationMs)))];
      }
      fate := Duplicate;
    }

    /** One event: what happens to it, and to the table. */
    method IngestEvent(e: Event, env: Env) returns (fate: Fate)
      modifies this
      ensures rows == Ingest(old(rows), e, env) && fate == FateOf(old(rows), e, env)
    {
      if !env.cameraEnabled && IsCameraType(e.kind) { return Rejected; }
      var times := ValidateEventTimes(e, env.span, env.now);
      if times.Refused? { return Rejected; }
      CloseHiddenFind(rows, e, times.startedAt, e.id);
      CloseHiddenRow(e, times.startedAt);
      fate := StoreRow(e, times, e.id in env.failing);
    }

    /** A batch: every event is accounted for once, and every accepted one is a new row. */
    method IngestEvents(batch: seq<Event>, room: Room, now: int, failing: set<string>) returns (reply: Reply)
      modifies this
      ensures reply.BadRequest? <==> !(1 <= |batch| <= 50)
      ensures var open := room.startedAt.Some? &&
          (room.status == IN_PROGRESS ||
           (room.status == COMPLETED && (room.completedAt.Some? ==> now <= room.completedAt.value + 120_000)));
        reply.Conflict? <==> (1 <= |batch| <= 50 && !open)
      ensures !reply.Result? ==> rows == old(rows)
      ensures reply.Result? ==>
        var env := Env(room.cameraEnabled, Span(room.startedAt.value, room.endsAt, room.completedAt), now, failing);
        rows == IngestAll(old(rows), batch, env) && |rows| == |old(rows)| + reply.accepted &&
        var fates := Fates(old(rows), batch, env);
        reply.accepted == CountFate(fates, Accepted) && reply.duplicates == CountFate(fates, Duplicate) &&
        reply.rejected == RejectedIds(fates, batch) &&
        reply.accepted + reply.duplicates + |reply.rejected| == |batch|
    {
      if !(1 <= |batch| <= MAX_BATCH) { return BadRequest; }
      if room.startedAt.None? { return Conflict; }
      if room.status != IN_PROGRESS &&
         !(room.status == COMPLETED && (room.completedAt.None? || now <= room.completedAt.value + LATE_ARRIVAL_MS)) {
        return Conflict;
      }
      var env := Env(room.cameraEnabled, Span(room.startedAt.value, room.endsAt, room.completedAt), now, failing);
      ghost var before := rows;
      reply := IngestEach(batch, env);
      AllTallied(before, batch, env, rows, reply);
    }

    /** The loop over the events of a batch. */
    method IngestEach(batch: seq<Event>, env: Env) returns (reply: Reply)
      modifies this
      ensures Tallied(old(rows), batch, env, |batch|, rows, reply)
    {
      var accepted, duplicates := 0, 0;
      var rejected: seq<string> := [];
      NothingTallied(rows, batch, env);
      for i := 0 to |batch|
        invariant Tallied(old(rows), batch, env, i, rows, Result(accepted, duplicates, rejected))
      {
        ghost var before := rows;
        var fate := IngestEvent(batch[i], env);
        TalliedNext(old(rows), batch, env, i, before, Result(accepted, duplicates, rejected), fate, rows);
        match fate
        case Accepted => accepted := accepted + 1;
        case Duplicate => duplicates := duplicates + 1;
        case Rejected => rejected := rejected + [batch[i].id];
      }
      reply := Result(accepted, duplicates, rejected);
    }
  }

  lemma AllTallied(t: seq<Row>, batch: seq<Event>, env: Env, rows: seq<Row>, reply: Reply)
    requires Tallied(t, batch, env, |batch|, rows, reply)
    ensures reply.Result? && rows == IngestAll(t, batch, env) && batch[..|batch|] == batch
    ensures |rows| == |t| + reply.accepted && reply == TallyOf(Fates(t, batch, env), batch)
    ensures reply.accepted + reply.duplicates + |reply.rejected| == |batch|
  {
    assert batch[..|batch|] == batch && Fates(t, batch, env)[..|batch|] == Fates(t, batch, env);
    TallySums(Fates(t, batch, env), batch);
  }

  lemma RowsGrow(t: seq<Row>, e: Event, env: Env)
    ensures |Ingest(t, e, env)| == |t| + if FateOf(t, e, env).Accepted? then 1 else 0
  {
    if Valid(e, env) { CloseHiddenFind(t, e, TimesOf(e, env).startedAt, e.id); }
  }
}
