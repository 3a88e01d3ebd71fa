/** The interview lifecycle: requests that read a snapshot and later commit conditional row updates. */
module Lifecycle {

  datatype Mode = Dsa | Technical | Behavioral | Mixed
  datatype Kind = CODING | TECHNICAL | BEHAVIORAL
  datatype Status = CREATED | IN_PROGRESS | COMPLETED | CANCELLED
  datatype QuestionStatus = ACTIVE | ANSWERED | SKIPPED
  datatype Report = NoReport | Pending

  function Repeat(k: Kind, n: nat): (r: seq<Kind>)
    ensures |r| == n && forall i :: 0 <= i < n ==> r[i] == k
  {
    seq(n, _ => k)
  }

  /** The kinds of the questions of an interview by position, depending on its mode and length. */
  function QuestionPlan(mode: Mode, minutes: int): (plan: seq<Kind>)
    ensures 1 <= |plan| <= 6
  {
    match mode
    case Dsa => Repeat(CODING, if minutes >= 90 then 3 else if minutes >= 45 then 2 else 1)
    case Technical => Repeat(TECHNICAL, if minutes >= 90 then 6 else if minutes >= 60 then 5 else if minutes >= 45 then 4 else 3)
    case Behavioral => Repeat(BEHAVIORAL, if minutes >= 90 then 6 else if minutes >= 60 then 5 else if minutes >= 45 then 4 else 3)
    case Mixed =>
      if minutes >= 90 then [CODING, TECHNICAL, CODING, TECHNICAL, BEHAVIORAL]
      else if minutes >= 60 then [CODING, TECHNICAL, TECHNICAL, BEHAVIORAL]
      else if minutes >= 45 then [CODING, TECHNICAL, BEHAVIORAL]
      else [CODING, TECHNICAL]
  }

  /** An interview of one kind asks that kind only. A mixed one opens with coding, goes on with a technical question,
      and closes with a behavioural one exactly when it lasts 45 minutes or more. A longer interview never asks less. */
  lemma PlanFollowsMode(mode: Mode, minutes: int, more: int)
    requires minutes <= more
    ensures var plan := QuestionPlan(mode, minutes);
      (mode.Dsa? ==> forall i :: 0 <= i < |plan| ==> plan[i] == CODING) &&
      (mode.Technical? ==> forall i :: 0 <= i < |plan| ==> plan[i] == TECHNICAL) &&
      (mode.Behavioral? ==> forall i :: 0 <= i < |plan| ==> plan[i] == BEHAVIORAL) &&
      (mode.Mixed? ==> |plan| >= 2 && plan[0] == CODING && plan[1] == TECHNICAL &&
                       forall i :: 0 <= i < |plan| ==> (plan[i] == BEHAVIORAL <==> i == |plan| - 1 && minutes >= 45)) &&
      |plan| <= |QuestionPlan(mode, more)|
  {
  }

  /** How many questions are asked: the exact lengths from which an interview asks one more. */
  lemma PlanLength(mode: Mode, minutes: int)
    ensures var n := |QuestionPlan(mode, minutes)|;
      (mode.Dsa? ==> (n == 1 <==> minutes < 45) && (n == 2 <==> 45 <= minutes < 90) && (n == 3 <==> 90 <= minutes)) &&
      (mode.Technical? || mode.Behavioral? ==>
        (n == 3 <==> minutes < 45) && (n == 4 <==> 45 <= minutes < 60) && (n == 5 <==> 60 <= minutes < 90) &&
        (n == 6 <==> 90 <= minutes)) &&
      (mode.Mixed? ==>
        (n == 2 <==> minutes < 45) && (n == 3 <==> 45 <= minutes < 60) && (n == 4 <==> 60 <= minutes < 90) &&
        (n == 5 <==> 90 <= minutes) && (n == 5 <==> n > 2 && QuestionPlan(mode, minutes)[2] == CODING))
  {
  }

  /** The kind chosen for a position; positions past the plan repeat its last kind. */
  function KindAt(mode: Mode, minutes: int, position: nat): Kind {
    var plan := QuestionPlan(mode, minutes);
    plan[if position < |plan| then position else |plan| - 1]
  }

  predicate CanTransition(from: Status, to: Status) {
    match from
    case CREATED => to == IN_PROGRESS || to == CANCELLED
    case IN_PROGRESS => to == COMPLETED || to == CANCELLED
    case COMPLETED => false
    case CANCELLED => false
  }

  // ------------------------------------------------------------ rows

  datatype Question = Question(id: nat, position: nat, kind: Kind, status: QuestionStatus)

  /** A room with its question rows in creation order and its report row. */
  datatype Room = Room(
    mode: Mode, minutes: int, questionCount: nat,
    status: Status, version: nat, questions: seq<Question>, report: Report, nextId: nat)

  function NewRoom(mode: Mode, minutes: int): Room {
    Room(mode, minutes, |QuestionPlan(mode, minutes)|, CREATED, 0, [], NoReport, 0)
  }

  predicate HasPosition(r: Room, position: nat) {
    exists i :: 0 <= i < |r.questions| && r.questions[i].position == position
  }

  /** update where id and status ACTIVE */
  function CloseOne(qs: seq<Question>, id: nat, to: QuestionStatus): (r: seq<Question>)
    ensures |r| == |qs|
    ensures forall i :: 0 <= i < |qs| ==>
      r[i] == if qs[i].id == id && qs[i].status == ACTIVE then qs[i].(status := to) else qs[i]
  {
    seq(|qs|, i requires 0 <= i < |qs| =>
      if qs[i].id == id && qs[i].status == ACTIVE then qs[i].(status := to) else qs[i])
  }

  /** update where status ACTIVE, in the completing transaction */
  function CloseAll(qs: seq<Question>): (r: seq<Question>)
    ensures |r| == |qs|
    ensures forall i :: 0 <= i < |qs| ==>
      r[i] == if qs[i].status == ACTIVE then qs[i].(status := ANSWERED) else qs[i]
  {
    seq(|qs|, i requires 0 <= i < |qs| => if qs[i].status == ACTIVE then qs[i].(status := ANSWERED) else qs[i])
  }

  predicate IsActive(qs: seq<Question>, id: nat) {
    exists i :: 0 <= i < |qs| && qs[i].id == id && qs[i].status == ACTIVE
  }

  function AddQuestion(r: Room, position: nat, kind: Kind): Room {
    r.(questions := r.questions + [Question(r.nextId, position, kind, ACTIVE)], nextId := r.nextId + 1)
  }

  // ------------------------------------------------------------ atomic commits

  /** Conditional update on status CREATED and the version read, then the first question. A second row at
      position 0 would violate the unique key and roll the transaction back. */
  function StartTx(r: Room, version: nat, kind: Kind): Room {
    if r.status != CREATED || r.version != version || HasPosition(r, 0) then r
    else AddQuestion(r.(status := IN_PROGRESS, version := r.version + 1), 0, kind)
  }

  /** Close the question read earlier and ask the next one; the room's status is not looked at again. */
  function AdvanceTx(r: Room, current: Question, to: QuestionStatus, kind: Kind): Room {
    if !IsActive(r.questions, current.id) || HasPosition(r, current.position + 1) then r
    else
      AddQuestion(r.(questions := CloseOne(r.questions, current.id, to), version := r.version + 1),
                  current.position + 1, kind)
  }

  /** The last question is closed by itself, before the room is completed. */
  function CloseTx(r: Room, current: Question, to: QuestionStatus): Room {
    r.(questions := CloseOne(r.questions, current.id, to))
  }

  function CompleteTx(r: Room): Room {
    if r.status != IN_PROGRESS then r
    else r.(status := COMPLETED, version := r.version + 1, questions := CloseAll(r.questions), report := Pending)
  }

  function CancelTx(r: Room): Room {
    if r.status != CREATED then r else r.(status := CANCELLED, version := r.version + 1)
  }

  // ------------------------------------------------------------ requests in flight

  /** What a request remembers between its reads and its next commit. */
  datatype Request =
    | StartReady(version: nat, kind: Kind)
    | AdvanceLoaded(expected: nat, skip: bool)
    | AdvanceReady(current: Question, to: QuestionStatus, kind: Kind)
    | CloseReady(current: Question, to: QuestionStatus)
    | CompleteReady(afterLast: bool)
    | CancelReady

  datatype System = System(room: Room, flight: multiset<Request>)

  function Enter(s: System, q: Request): System {
    s.(flight := s.flight + multiset{q})
  }

  function Leave(s: System, q: Request, room: Room): System {
    System(room, s.flight - multiset{q})
  }

  function Closing(skip: bool): QuestionStatus {
    if skip then SKIPPED else ANSWERED
  }

  /** The first active question in position order, as the question list is read. */
  ghost predicate IsCurrent(r: Room, current: Question) {
    current in r.questions && current.status == ACTIVE &&
    forall q :: q in r.questions && q.status == ACTIVE ==> current.position <= q.position
  }

  /** One atomic read or commit by one request, or its loss. */
  ghost predicate Step(s: System, t: System) {
    BeginStep(s, t) || ReadStep(s, t) || CommitStep(s, t) || AbandonStep(s, t)
  }

  /** A request reads the room row and passes its checks. */
  ghost predicate BeginStep(s: System, t: System) {
    || (s.room.status == CREATED &&
        t == Enter(s, StartReady(s.room.version, KindAt(s.room.mode, s.room.minutes, 0))))
    || (s.room.status == IN_PROGRESS && exists expected, skip :: t == Enter(s, AdvanceLoaded(expected, skip)))
    || (s.room.status == IN_PROGRESS && t == Enter(s, CompleteReady(false)))
    || (s.room.status == CREATED && t == Enter(s, CancelReady))
  }

  /** An advance request reads the questions: it returns, or prepares the next question or the completion. */
  ghost predicate ReadStep(s: System, t: System) {
    exists q: Request, current: Question ::
      q in s.flight && q.AdvanceLoaded? && IsCurrent(s.room, current) && current.id == q.expected &&
      t == Enter(Leave(s, q, s.room), AfterRead(s.room, current, q.skip))
  }

  function AfterRead(r: Room, current: Question, skip: bool): Request {
    if current.position + 1 >= r.questionCount then CloseReady(current, Closing(skip))
    else AdvanceReady(current, Closing(skip), KindAt(r.mode, r.minutes, current.position + 1))
  }

  ghost predicate CommitStep(s: System, t: System) {
    exists q: Request :: q in s.flight && !q.AdvanceLoaded? && t == AfterCommit(s, q)
  }

  /** A request is gone after its commit, except that closing the last question goes on to complete the room. */
  function AfterCommit(s: System, q: Request): System {
    var left := Leave(s, q, Commit(s.room, q));
    if q.CloseReady? then Enter(left, CompleteReady(true)) else left
  }

  function Commit(r: Room, q: Request): Room {
    match q
    case StartReady(version, kind) => StartTx(r, version, kind)
    case AdvanceLoaded(_, _) => r
    case AdvanceReady(current, to, kind) => AdvanceTx(r, current, to, kind)
    case CloseReady(current, to) => CloseTx(r, current, to)
    case CompleteReady(_) => CompleteTx(r)
    case CancelReady => CancelTx(r)
  }

  /** A request may return early, fail or be lost at any point. */
  ghost predicate AbandonStep(s: System, t: System) {
    exists q :: q in s.flight && t == Leave(s, q, s.room)
  }

  ghost predicate Moves(run: seq<System>, i: nat)
    requires i + 1 < |run|
  {
    Step(run[i], run[i + 1])
  }

  ghost predicate IsRun(run: seq<System>) {
    run != [] && run[0].flight == multiset{} &&
    run[0].room == NewRoom(run[0].room.mode, run[0].room.minutes) &&
    forall i :: 0 <= i < |run| - 1 ==> Moves(run, i)
  }

  lemma LeavingShrinks(s: System, q: Request, room: Room)
    requires q in s.flight
    ensures |Leave(s, q, room).flight| < |s.flight|
  {
  }

  lemma ReadDoesNotEnter(s: System, t: System)
    requires ReadStep(s, t)
    ensures |t.flight| <= |s.flight|
  {
    var q: Request, current: Question :|
      q in s.flight && q.AdvanceLoaded? && IsCurrent(s.room, current) && current.id == q.expected &&
      t == Enter(Leave(s, q, s.room), AfterRead(s.room, current, q.skip));
    LeavingShrinks(s, q, s.room);
  }

  lemma CommitDoesNotEnter(s: System, t: System)
    requires CommitStep(s, t)
    ensures |t.flight| <= |s.flight|
  {
    var q: Request :| q in s.flight && !q.AdvanceLoaded? && t == AfterCommit(s, q);
    LeavingShrinks(s, q, Commit(s.room, q));
  }

  lemma LossDoesNotEnter(s: System, t: System)
    requires AbandonStep(s, t)
    ensures |t.flight| <= |s.flight|
  {
    var q :| q in s.flight && t == Leave(s, q, s.room);
    LeavingShrinks(s, q, s.room);
  }

  /** Reads, commits and losses leave no more requests in flight than before. */
  lemma OthersDoNotEnter(s: System, t: System)
    requires |t.flight| == |s.flight| + 1
    ensures !ReadStep(s, t) && !CommitStep(s, t) && !AbandonStep(s, t)
  {
    if ReadStep(s, t) { ReadDoesNotEnter(s, t); }
    if CommitStep(s, t) { CommitDoesNotEnter(s, t); }
    if AbandonStep(s, t) { LossDoesNotEnter(s, t); }
  }

  lemma SameEntry(flight: multiset<Request>, q: Request, p: Request)
    requires flight + multiset{q} == flight + multiset{p}
    ensures p == q
  {
    assert (flight + multiset{q})[q] == flight[q] + 1;
    assert (flight + multiset{p})[q] == flight[q] + (if p == q then 1 else 0);
  }

  /** What the room row allows: to start or cancel a room that was created, to advance or complete a running one.
      The later stages of a request are never entered from outside. */
  predicate MayEnter(r: Room, q: Request) {
    match q
    case StartReady(version, kind) =>
      r.status == CREATED && version == r.version && kind == QuestionPlan(r.mode, r.minutes)[0]
    case AdvanceLoaded(_, _) => r.status == IN_PROGRESS
    case AdvanceReady(_, _, _) => false
    case CloseReady(_, _) => false
    case CompleteReady(afterLast) => r.status == IN_PROGRESS && !afterLast
    case CancelReady => r.status == CREATED
  }

  lemma OnlyAllowedEnter(s: System, q: Request)
    requires BeginStep(s, Enter(s, q))
    ensures MayEnter(s.room, q)
  {
    forall p | Enter(s, q) == Enter(s, p) ensures p == q {
      SameEntry(s.flight, q, p);
    }
  }

  lemma AllowedEnter(s: System, q: Request)
    requires MayEnter(s.room, q)
    ensures BeginStep(s, Enter(s, q))
  {
  }

  /** A request enters the system exactly when the room row allows it at that moment. */
  lemma EntersExactlyWhen(s: System, q: Request)
    ensures Step(s, Enter(s, q)) <==> MayEnter(s.room, q)
  {
    OthersDoNotEnter(s, Enter(s, q));
    if MayEnter(s.room, q) {
      AllowedEnter(s, q);
    } else if BeginStep(s, Enter(s, q)) {
      OnlyAllowedEnter(s, q);
    }
  }

  /** Nothing serialises requests: whichever is in flight may be the next to commit, or be lost for good. */
  lemma AnyoneMayBeNext(s: System, q: Request)
    requires q in s.flight
    ensures Step(s, System(s.room, s.flight - multiset{q}))
    ensures !q.AdvanceLoaded? && !q.CloseReady? ==> Step(s, System(Commit(s.room, q), s.flight - multiset{q}))
    ensures q.CloseReady? ==>
      Step(s, System(CloseTx(s.room, q.current, q.to), s.flight - multiset{q} + multiset{CompleteReady(true)}))
  {
    assert AbandonStep(s, Leave(s, q, s.room));
    assert !q.AdvanceLoaded? ==> CommitStep(s, AfterCommit(s, q));
  }

  // ------------------------------------------------------------ invariants

  ghost predicate RoomInv(r: Room) {
    var plan := QuestionPlan(r.mode, r.minutes);
    r.questionCount == |plan| && |r.questions| <= r.questionCount && r.nextId == |r.questions| &&
    (forall i :: 0 <= i < |r.questions| ==>
      r.questions[i].id == i && r.questions[i].position == i && r.questions[i].kind == plan[i]) &&
    (forall i :: 0 <= i < |r.questions| - 1 ==> r.questions[i].status != ACTIVE) &&
    (r.status == CREATED || r.status == CANCELLED <==> r.questions == []) &&
    (r.status == COMPLETED ==> forall i :: 0 <= i < |r.questions| ==> r.questions[i].status != ACTIVE) &&
    (r.report == Pending <==> r.status == COMPLETED) &&
    r.version == |r.questions| + (if r.status == COMPLETED || r.status == CANCELLED then 1 else 0)
  }

  /** A question as read earlier still exists, possibly closed since. */
  ghost predicate Known(r: Room, q: Question) {
    q.id < |r.questions| && r.questions[q.id].(status := q.status) == q
  }

  ghost predicate RequestInv(r: Room, q: Request) {
    match q
    case StartReady(version, kind) => kind == QuestionPlan(r.mode, r.minutes)[0]
    case AdvanceLoaded(_, _) => r.questions != []
    case AdvanceReady(current, to, kind) =>
      Known(r, current) && to != ACTIVE && current.position + 1 < r.questionCount &&
      kind == KindAt(r.mode, r.minutes, current.position + 1)
    case CloseReady(current, to) =>
      Known(r, current) && to != ACTIVE && current.position + 1 == |QuestionPlan(r.mode, r.minutes)|
    case CompleteReady(afterLast) =>
      r.questions != [] && (afterLast ==> |r.questions| == |QuestionPlan(r.mode, r.minutes)|)
    case CancelReady => true
  }

  ghost predicate Inv(s: System) {
    RoomInv(s.room) && forall q :: q in s.flight ==> RequestInv(s.room, q)
  }

  /** How one room state may follow another. */
  ghost predicate Follows(r: Room, t: Room) {
    t.mode == r.mode && t.minutes == r.minutes && t.questionCount == r.questionCount &&
    (t.status == r.status || CanTransition(r.status, t.status)) &&
    |r.questions| <= |t.questions| <= |r.questions| + 1 &&
    (forall i :: 0 <= i < |r.questions| ==> SameQuestion(r.questions[i], t.questions[i])) &&
    r.version <= t.version <= r.version + 1 &&
    (t.version == r.version <==> t.status == r.status && |t.questions| == |r.questions|) &&
    (r.status == COMPLETED || r.status == CANCELLED ==> t == r)
  }

  /** The same question, whose status may have moved from ACTIVE to a closed one. */
  ghost predicate SameQuestion(a: Question, b: Question) {
    b.id == a.id && b.position == a.position && b.kind == a.kind &&
    (b.status == a.status || (a.status == ACTIVE && b.status != ACTIVE))
  }

  lemma StartKeeps(r: Room, version: nat, kind: Kind)
    requires RoomInv(r) && kind == QuestionPlan(r.mode, r.minutes)[0]
    ensures RoomInv(StartTx(r, version, kind)) && Follows(r, StartTx(r, version, kind))
  {
  }

  lemma CloseKeeps(r: Room, current: Question, to: QuestionStatus)
    requires RoomInv(r) && to != ACTIVE
    ensures RoomInv(CloseTx(r, current, to)) && Follows(r, CloseTx(r, current, to))
  {
    assert r.status == COMPLETED ==> CloseOne(r.questions, current.id, to) == r.questions;
    assert r.status == CANCELLED ==> CloseOne(r.questions, current.id, to) == r.questions;
  }

  lemma CompleteKeeps(r: Room)
    requires RoomInv(r)
    ensures RoomInv(CompleteTx(r)) && Follows(r, CompleteTx(r))
  {
  }

  lemma CancelKeeps(r: Room)
    requires RoomInv(r)
    ensures RoomInv(CancelTx(r)) && Follows(r, CancelTx(r))
  {
  }

  /** An active question is the last one of a running room, so the next position is free. */
  lemma ActiveIsLast(r: Room, current: Question)
    requires RoomInv(r) && Known(r, current) && IsActive(r.questions, current.id)
    ensures r.status == IN_PROGRESS && current.position == current.id == |r.questions| - 1
    ensures !HasPosition(r, current.position + 1)
  {
  }

  /** The last question of a running room is closed and another one asked. */
  lemma AppendKeeps(r: Room, closed: seq<Question>, kind: Kind, t: Room)
    requires RoomInv(r) && r.status == IN_PROGRESS && |closed| == |r.questions| < r.questionCount
    requires forall i :: 0 <= i < |closed| ==> SameQuestion(r.questions[i], closed[i]) && closed[i].status != ACTIVE
    requires kind == KindAt(r.mode, r.minutes, |closed|)
    requires t == AddQuestion(r.(questions := closed, version := r.version + 1), |closed|, kind)
    ensures RoomInv(t) && Follows(r, t)
  {
    var plan := QuestionPlan(r.mode, r.minutes);
    assert kind == plan[|closed|];
    assert forall i :: 0 <= i < |closed| ==> t.questions[i] == closed[i];
  }

  lemma AdvanceKeeps(r: Room, current: Question, to: QuestionStatus, kind: Kind)
    requires RoomInv(r) && RequestInv(r, AdvanceReady(current, to, kind))
    ensures RoomInv(AdvanceTx(r, current, to, kind)) && Follows(r, AdvanceTx(r, current, to, kind))
  {
    if IsActive(r.questions, current.id) {
      ActiveIsLast(r, current);
      AppendKeeps(r, CloseOne(r.questions, current.id, to), kind, AdvanceTx(r, current, to, kind));
    }
  }

  lemma CommitKeeps(r: Room, q: Request)
    requires RoomInv(r) && RequestInv(r, q)
    ensures RoomInv(Commit(r, q)) && Follows(r, Commit(r, q))
  {
    match q
    case StartReady(version, kind) => StartKeeps(r, version, kind);
    case AdvanceLoaded(_, _) =>
    case AdvanceReady(current, to, kind) => AdvanceKeeps(r, current, to, kind);
    case CloseReady(current, to) => CloseKeeps(r, current, to);
    case CompleteReady(_) => CompleteKeeps(r);
    case CancelReady => CancelKeeps(r);
  }

  /** What the other requests remember stays true when the room moves on. */
  lemma RequestStable(r: Room, t: Room, q: Request)
    requires RoomInv(r) && RoomInv(t) && Follows(r, t) && RequestInv(r, q)
    ensures RequestInv(t, q)
  {
    if q.AdvanceReady? || q.CloseReady? {
      assert SameQuestion(r.questions[q.current.id], t.questions[q.current.id]);
    }
  }

  lemma FlightStable(s: System, t: System)
    requires Inv(s) && RoomInv(t.room) && Follows(s.room, t.room)
    requires forall q :: q in t.flight ==> q in s.flight || RequestInv(t.room, q)
    ensures Inv(t)
  {
    forall q | q in t.flight
      ensures RequestInv(t.room, q)
    {
      if q in s.flight { RequestStable(s.room, t.room, q); }
    }
  }

  lemma ReadKeeps(r: Room, current: Question, skip: bool)
    requires RoomInv(r) && IsCurrent(r, current)
    ensures RequestInv(r, AfterRead(r, current, skip))
  {
    var i :| 0 <= i < |r.questions| && r.questions[i] == current;
  }

  lemma EnterKeeps(s: System, t: System, q: Request)
    requires t == Enter(s, q) && RequestInv(s.room, q)
    ensures t.room == s.room && forall p :: p in t.flight ==> p in s.flight || RequestInv(t.room, p)
  {
  }

  lemma BeginKeeps(s: System, t: System)
    requires Inv(s) && BeginStep(s, t)
    ensures t.room == s.room && forall q :: q in t.flight ==> q in s.flight || RequestInv(t.room, q)
  {
    var first := StartReady(s.room.version, KindAt(s.room.mode, s.room.minutes, 0));
    if t == Enter(s, first) {
      EnterKeeps(s, t, first);
    } else if t == Enter(s, CompleteReady(false)) && s.room.status == IN_PROGRESS {
      EnterKeeps(s, t, CompleteReady(false));
    } else if t == Enter(s, CancelReady) {
      EnterKeeps(s, t, CancelReady);
    } else {
      var expected, skip :| t == Enter(s, AdvanceLoaded(expected, skip));
      EnterKeeps(s, t, AdvanceLoaded(expected, skip));
    }
  }

  lemma ReadStepKeeps(s: System, t: System)
    requires Inv(s) && ReadStep(s, t)
    ensures t.room == s.room && forall q :: q in t.flight ==> q in s.flight || RequestInv(t.room, q)
  {
    var q: Request, current: Question :|
      q in s.flight && q.AdvanceLoaded? && IsCurrent(s.room, current) && current.id == q.expected &&
      t == Enter(Leave(s, q, s.room), AfterRead(s.room, current, q.skip));
    ReadKeeps(s.room, current, q.skip);
  }

  /** Once the last planned question exists, all of them do. */
  lemma AllAsked(r: Room, current: Question)
    requires RoomInv(r) && Known(r, current) && current.position + 1 == |QuestionPlan(r.mode, r.minutes)|
    ensures |r.questions| == |QuestionPlan(r.mode, r.minutes)|
  {
  }

  lemma AfterCommitFlight(s: System, q: Request)
    requires q in s.flight && RoomInv(s.room) && RequestInv(s.room, q) && Follows(s.room, Commit(s.room, q))
    ensures var t := AfterCommit(s, q);
      t.room == Commit(s.room, q) && forall p :: p in t.flight ==> p in s.flight || RequestInv(t.room, p)
  {
    if q.CloseReady? { AllAsked(s.room, q.current); }
  }

  lemma CommitStepKeeps(s: System, t: System)
    requires Inv(s) && CommitStep(s, t)
    ensures RoomInv(t.room) && Follows(s.room, t.room)
    ensures forall q :: q in t.flight ==> q in s.flight || RequestInv(t.room, q)
  {
    var q: Request :| q in s.flight && !q.AdvanceLoaded? && t == AfterCommit(s, q);
    CommitKeeps(s.room, q);
    AfterCommitFlight(s, q);
  }

  lemma FollowsSelf(r: Room)
    ensures Follows(r, r)
  {
  }

  /** Every step of every request keeps the invariant and moves the room forward. */
  lemma StepKeeps(s: System, t: System)
    requires Inv(s) && Step(s, t)
    ensures Inv(t) && Follows(s.room, t.room)
  {
    FollowsSelf(s.room);
    if BeginStep(s, t) {
      BeginKeeps(s, t);
    } else if ReadStep(s, t) {
      ReadStepKeeps(s, t);
    } else if CommitStep(s, t) {
      CommitStepKeeps(s, t);
    }
    FlightStable(s, t);
  }

  // ------------------------------------------------------------ whole runs

  lemma FirstState(s: System)
    requires s.flight == multiset{} && s.room == NewRoom(s.room.mode, s.room.minutes)
    ensures Inv(s)
  {
  }

  lemma {:induction false} RunKeeps(run: seq<System>, i: nat)
    requires IsRun(run) && i < |run|
    ensures Inv(run[i])
  {
    if i == 0 {
      FirstState(run[0]);
    } else {
      RunKeeps(run, i - 1);
      assert Moves(run, i - 1);
      StepKeeps(run[i - 1], run[i]);
    }
  }

  /** In every reachable state the questions fill positions 0..k-1 of the plan, at most the last is active,
      a finished room has none active, and the version counts the questions plus the end of the room. */
  lemma ReachableRooms(run: seq<System>, i: nat)
    requires IsRun(run) && i < |run|
    ensures RoomInv(run[i].room)
  {
    RunKeeps(run, i);
  }

  /** Later states extend earlier ones: questions are never removed, renumbered or reopened. */
  ghost predicate Extends(r: Room, t: Room) {
    r.version <= t.version && |r.questions| <= |t.questions| &&
    (forall i :: 0 <= i < |r.questions| ==> SameQuestion(r.questions[i], t.questions[i])) &&
    (r.version == t.version ==> r.status == t.status && |r.questions| == |t.questions|) &&
    (r.status == COMPLETED || r.status == CANCELLED ==> t == r)
  }

  lemma ExtendsTrans(r: Room, s: Room, t: Room)
    requires Extends(r, s) && Follows(s, t)
    ensures Extends(r, t)
  {
    forall i | 0 <= i < |r.questions|
      ensures SameQuestion(r.questions[i], t.questions[i])
    {
      assert SameQuestion(r.questions[i], s.questions[i]) && SameQuestion(s.questions[i], t.questions[i]);
    }
  }

  lemma ExtendsSelf(r: Room)
    ensures Extends(r, r)
  {
  }

  lemma RunFollows(run: seq<System>, i: nat)
    requires IsRun(run) && i + 1 < |run|
    ensures Follows(run[i].room, run[i + 1].room)
  {
    RunKeeps(run, i);
    assert Moves(run, i);
    StepKeeps(run[i], run[i + 1]);
  }

  lemma {:induction false} RunExtends(run: seq<System>, i: nat, j: nat)
    requires IsRun(run) && i <= j < |run|
    ensures Extends(run[i].room, run[j].room)
    decreases j - i
  {
    if i == j {
      ExtendsSelf(run[i].room);
    } else {
      RunExtends(run, i, j - 1);
      RunFollows(run, j - 1);
      ExtendsTrans(run[i].room, run[j - 1].room, run[j].room);
    }
  }

  /** The room's status in every state of a run. */
  ghost function History(run: seq<System>): (h: seq<Status>)
    ensures |h| == |run| && forall i :: 0 <= i < |h| ==> h[i] == run[i].room.status
  {
    seq(|run|, i requires 0 <= i < |run| => run[i].room.status)
  }

  /** How often a status was entered. */
  ghost function Entered(h: seq<Status>, st: Status): nat {
    if |h| < 2 then 0
    else Entered(h[..|h| - 1], st) + if h[|h| - 2] != st && h[|h| - 1] == st then 1 else 0
  }

  /** The transition table allows cancelling a running interview, but no request does it. */
  ghost predicate LegalMove(a: Status, b: Status) {
    a == b || (CanTransition(a, b) && !(a == IN_PROGRESS && b == CANCELLED))
  }

  ghost predicate LegalHistory(h: seq<Status>) {
    h != [] && h[0] == CREATED && forall i :: 0 <= i < |h| - 1 ==> LegalMove(h[i], h[i + 1])
  }

  lemma CommitMove(r: Room, q: Request)
    ensures LegalMove(r.status, Commit(r, q).status)
  {
  }

  lemma StepMove(s: System, t: System)
    requires Step(s, t)
    ensures LegalMove(s.room.status, t.room.status)
  {
    if CommitStep(s, t) {
      var q: Request :| q in s.flight && !q.AdvanceLoaded? && t == AfterCommit(s, q);
      CommitMove(s.room, q);
    }
  }

  /** The status follows the transition table along every run. */
  lemma RunIsLegal(run: seq<System>)
    requires IsRun(run)
    ensures LegalHistory(History(run))
  {
    forall i | 0 <= i < |run| - 1
      ensures LegalMove(History(run)[i], History(run)[i + 1])
    {
      assert Moves(run, i);
      StepMove(run[i], run[i + 1]);
    }
  }

  lemma {:induction false} EnteredOnce(h: seq<Status>, st: Status)
    requires LegalHistory(h) && st != CREATED
    ensures Entered(h, st) <= 1
    ensures var now := h[|h| - 1];
      Entered(h, st) == 1 <==> now == st || (st == IN_PROGRESS && now == COMPLETED)
  {
    if |h| >= 2 {
      EnteredOnce(h[..|h| - 1], st);
      assert LegalMove(h[|h| - 2], h[|h| - 2 + 1]);
    }
  }

  /** Starting and completing each happen at most once, an interview completes only after it started, and
      one that started is never cancelled. */
  lemma StartAndCompleteOnce(run: seq<System>)
    requires IsRun(run)
    ensures var h := History(run);
      Entered(h, IN_PROGRESS) <= 1 && Entered(h, COMPLETED) <= 1 && Entered(h, CANCELLED) <= 1 &&
      Entered(h, COMPLETED) <= Entered(h, IN_PROGRESS) &&
      (Entered(h, IN_PROGRESS) == 1 ==> Entered(h, CANCELLED) == 0)
  {
    var h := History(run);
    RunIsLegal(run);
    EnteredOnce(h, IN_PROGRESS);
    EnteredOnce(h, COMPLETED);
    EnteredOnce(h, CANCELLED);
  }

  /** Of two advance requests that loaded the same question, the second to commit changes nothing. */
  lemma SecondAdvanceIsIdle(r: Room, current: Question, to: QuestionStatus, kind: Kind,
                            to2: QuestionStatus, kind2: Kind)
    requires RoomInv(r) && RequestInv(r, AdvanceReady(current, to, kind)) && to2 != ACTIVE
    ensures var once := AdvanceTx(r, current, to, kind);
      AdvanceTx(once, current, to2, kind2) == once
  {
    if IsActive(r.questions, current.id) {
      ActiveIsLast(r, current);
    }
  }

  // ------------------------------------------------------------ every planned question is asked

  /** An advance asks the next planned question while there is one, and finishes the interview after the last. */
  lemma ReadDecides(r: Room, current: Question, skip: bool)
    requires RoomInv(r) && IsCurrent(r, current)
    ensures var plan, to := QuestionPlan(r.mode, r.minutes), if skip then SKIPPED else ANSWERED;
      if current.position + 1 < |plan| then AfterRead(r, current, skip) == AdvanceReady(current, to, plan[current.position + 1])
      else current.position + 1 == |plan| && AfterRead(r, current, skip) == CloseReady(current, to)
  {
    var i :| 0 <= i < |r.questions| && r.questions[i] == current;
  }

  /** In every reachable state a request that closes the last question, or goes on from there to complete the room, finds
      that the whole plan has been asked. */
  lemma ClosingMeansAllAsked(run: seq<System>, i: nat, q: Request)
    requires IsRun(run) && i < |run| && q in run[i].flight && (q.CloseReady? || q == CompleteReady(true))
    ensures var r := run[i].room; var plan := QuestionPlan(r.mode, r.minutes);
      |r.questions| == |plan| && (forall k :: 0 <= k < |plan| ==> r.questions[k].kind == plan[k]) &&
      (q.CloseReady? ==> q.current.position == |plan| - 1)
  {
    RunKeeps(run, i);
    if q.CloseReady? { AllAsked(run[i].room, q.current); }
  }

  lemma OnlyCompleting(r: Room, q: Request)
    requires r.status != COMPLETED && Commit(r, q).status == COMPLETED
    ensures q.CompleteReady?
  {
  }

  lemma StepCompletes(s: System, t: System)
    requires Step(s, t) && s.room.status != COMPLETED && t.room.status == COMPLETED
    ensures CompleteReady(false) in s.flight || CompleteReady(true) in s.flight
  {
    var q: Request :| q in s.flight && !q.AdvanceLoaded? && t == AfterCommit(s, q);
    OnlyCompleting(s.room, q);
    assert q == CompleteReady(q.afterLast);
  }

  lemma SamePlan(r: Room, t: Room)
    requires Follows(r, t) && RoomInv(t) && |r.questions| == |QuestionPlan(r.mode, r.minutes)|
    ensures |t.questions| == |QuestionPlan(r.mode, r.minutes)|
  {
  }

  /** A room that becomes COMPLETED has been asked the whole plan, unless somebody asked to complete it. */
  lemma CompletedAfterPlan(run: seq<System>, i: nat)
    requires IsRun(run) && i + 1 < |run| && run[i].room.status != COMPLETED && run[i + 1].room.status == COMPLETED
    ensures CompleteReady(false) in run[i].flight ||
            |run[i + 1].room.questions| == |QuestionPlan(run[i].room.mode, run[i].room.minutes)|
  {
    assert Moves(run, i);
    StepCompletes(run[i], run[i + 1]);
    if CompleteReady(true) in run[i].flight {
      ClosingMeansAllAsked(run, i, CompleteReady(true));
      RunFollows(run, i);
      RunKeeps(run, i + 1);
      SamePlan(run[i].room, run[i + 1].room);
    }
  }

  // ------------------------------------------------------------ a candidate alone

  /** Where the question list holds the first active question; its length if there is none. */
  function FirstActive(qs: seq<Question>): (k: nat)
    ensures k <= |qs| && (k < |qs| ==> qs[k].status == ACTIVE) && forall i :: 0 <= i < k ==> qs[i].status != ACTIVE
  {
    if qs == [] || qs[0].status == ACTIVE then 0 else 1 + FirstActive(qs[1..])
  }

  /** An advance request that nothing interrupts. */
  function AdvanceAlone(r: Room, skip: bool): Room {
    var k := FirstActive(r.questions);
    if r.status != IN_PROGRESS || k == |r.questions| then r
    else
      var q := AfterRead(r, r.questions[k], skip);
      if q.CloseReady? then Commit(Commit(r, q), CompleteReady(true)) else Commit(r, q)
  }

  /** The room of a candidate who starts and then advances alone. */
  function Alone(mode: Mode, minutes: int, skips: seq<bool>): Room {
    if skips == [] then Commit(NewRoom(mode, minutes), StartReady(0, KindAt(mode, minutes, 0)))
    else AdvanceAlone(Alone(mode, minutes, skips[..|skips| - 1]), skips[|skips| - 1])
  }

  /** What the rows should be after so many advances: the planned questions in order, those passed closed as the candidate
      wished, the next one open. */
  function Asked(mode: Mode, minutes: int, skips: seq<bool>, n: nat): seq<Question>
    requires n <= |QuestionPlan(mode, minutes)|
  {
    seq(n, i requires 0 <= i < n => Question(i, i, QuestionPlan(mode, minutes)[i],
      if i < |skips| then (if skips[i] then SKIPPED else ANSWERED) else ACTIVE))
  }

  function Expected(mode: Mode, minutes: int, skips: seq<bool>): Room
    requires |skips| <= |QuestionPlan(mode, minutes)|
  {
    var n, k := |QuestionPlan(mode, minutes)|, |skips|;
    if k < n then Room(mode, minutes, n, IN_PROGRESS, k + 1, Asked(mode, minutes, skips, k + 1), NoReport, k + 1)
    else Room(mode, minutes, n, COMPLETED, n + 1, Asked(mode, minutes, skips, n), Pending, n)
  }

  lemma FirstActiveIs(qs: seq<Question>, k: nat)
    requires k < |qs| && qs[k].status == ACTIVE && forall i :: 0 <= i < k ==> qs[i].status != ACTIVE
    ensures FirstActive(qs) == k
  {
  }

  lemma AdvancedRows(mode: Mode, minutes: int, front: seq<bool>, skip: bool, n: nat)
    requires |front| + 1 == n <= |QuestionPlan(mode, minutes)|
    ensures var to := if skip then SKIPPED else ANSWERED;
      CloseOne(Asked(mode, minutes, front, n), |front|, to) == Asked(mode, minutes, front + [skip], n)
    ensures n < |QuestionPlan(mode, minutes)| ==>
      Asked(mode, minutes, front + [skip], n + 1) ==
      Asked(mode, minutes, front + [skip], n) + [Question(n, n, QuestionPlan(mode, minutes)[n], ACTIVE)]
    ensures CloseAll(Asked(mode, minutes, front + [skip], n)) == Asked(mode, minutes, front + [skip], n)
  {
  }

  lemma AdvanceReads(mode: Mode, minutes: int, front: seq<bool>, skip: bool, k: nat, r: Room)
    requires k == |front| < |QuestionPlan(mode, minutes)| && r == Expected(mode, minutes, front)
    ensures FirstActive(r.questions) == k && r.status == IN_PROGRESS && |r.questions| == k + 1
    ensures IsActive(r.questions, k) && !HasPosition(r, k + 1)
  {
    FirstActiveIs(r.questions, k);
    assert r.questions[k].id == k;
  }

  lemma AsksNext(mode: Mode, minutes: int, front: seq<bool>, skip: bool, r: Room)
    requires |front| + 1 < |QuestionPlan(mode, minutes)| && r == Expected(mode, minutes, front)
    ensures AdvanceAlone(r, skip) == Expected(mode, minutes, front + [skip])
  {
    AdvanceReads(mode, minutes, front, skip, |front|, r);
    AdvancedRows(mode, minutes, front, skip, |front| + 1);
  }

  lemma Finishes(mode: Mode, minutes: int, front: seq<bool>, skip: bool, r: Room)
    requires |front| + 1 == |QuestionPlan(mode, minutes)| && r == Expected(mode, minutes, front)
    ensures AdvanceAlone(r, skip) == Expected(mode, minutes, front + [skip])
  {
    AdvanceReads(mode, minutes, front, skip, |front|, r);
    AdvancedRows(mode, minutes, front, skip, |front| + 1);
  }

  lemma AloneStep(mode: Mode, minutes: int, front: seq<bool>, skip: bool, skips: seq<bool>)
    requires skips == front + [skip] && |skips| <= |QuestionPlan(mode, minutes)|
    requires Alone(mode, minutes, front) == Expected(mode, minutes, front)
    ensures Alone(mode, minutes, skips) == Expected(mode, minutes, skips)
  {
    AloneNext(mode, minutes, front, skip);
    if |skips| < |QuestionPlan(mode, minutes)| {
      AsksNext(mode, minutes, front, skip, Expected(mode, minutes, front));
    } else {
      Finishes(mode, minutes, front, skip, Expected(mode, minutes, front));
    }
  }

  lemma StartIs(mode: Mode, minutes: int)
    ensures Alone(mode, minutes, []) == Expected(mode, minutes, [])
  {
    assert Asked(mode, minutes, [], 1) == [Question(0, 0, QuestionPlan(mode, minutes)[0], ACTIVE)];
  }

  lemma AloneNext(mode: Mode, minutes: int, front: seq<bool>, skip: bool)
    ensures Alone(mode, minutes, front + [skip]) == AdvanceAlone(Alone(mode, minutes, front), skip)
  {
    assert (front + [skip])[..|front|] == front;
  }

  /** A candidate who starts and advances with nobody interfering is asked the planned questions one by one, in order, each
      closed as answered or skipped; the advance from the last one completes the room and orders the report. */
  lemma {:induction false} LoneCandidate(mode: Mode, minutes: int, skips: seq<bool>)
    requires |skips| <= |QuestionPlan(mode, minutes)|
    ensures Alone(mode, minutes, skips) == Expected(mode, minutes, skips)
  {
    if skips == [] {
      StartIs(mode, minutes);
    } else {
      var front, skip := skips[..|skips| - 1], skips[|skips| - 1];
      assert skips == front + [skip];
      LoneCandidate(mode, minutes, front);
      AloneStep(mode, minutes, front, skip, skips);
    }
  }

  lemma OneMore(run: seq<System>, t: System)
    requires IsRun(run) && Step(run[|run| - 1], t)
    ensures IsRun(run + [t])
  {
    var longer := run + [t];
    forall i | 0 <= i < |longer| - 1
      ensures Moves(longer, i)
    {
      assert i < |run| - 1 ==> Moves(run, i);
      assert longer[i] == run[i];
    }
  }

  lemma CommitAlone(s: System, q: Request)
    requires s.flight == multiset{q} && !q.AdvanceLoaded?
    ensures Step(s, System(Commit(s.room, q), if q.CloseReady? then multiset{CompleteReady(true)} else multiset{}))
  {
    assert s.flight - multiset{q} == multiset{};
    assert multiset{} + multiset{CompleteReady(true)} == multiset{CompleteReady(true)};
    assert CommitStep(s, AfterCommit(s, q));
  }

  lemma ReadAlone(r: Room, skip: bool, k: nat, q: Request)
    requires RoomInv(r) && r.status == IN_PROGRESS && k == FirstActive(r.questions) < |r.questions|
    requires q == AfterRead(r, r.questions[k], skip)
    ensures Step(System(r, multiset{}), System(r, multiset{AdvanceLoaded(r.questions[k].id, skip)}))
    ensures Step(System(r, multiset{AdvanceLoaded(r.questions[k].id, skip)}), System(r, multiset{q}))
  {
    var loaded := AdvanceLoaded(r.questions[k].id, skip);
    var s := System(r, multiset{});
    assert multiset{} + multiset{loaded} == multiset{loaded} && multiset{loaded} - multiset{loaded} == multiset{};
    assert multiset{} + multiset{q} == multiset{q};
    assert System(r, multiset{loaded}) == Enter(s, loaded);
    assert BeginStep(s, System(r, multiset{loaded}));
    assert IsCurrent(r, r.questions[k]);
    assert ReadStep(System(r, multiset{loaded}), System(r, multiset{q}));
  }

  /** What the lone candidate reaches is reached by a run of the system. */
  lemma {:induction false} LoneRun(mode: Mode, minutes: int, skips: seq<bool>) returns (run: seq<System>)
    requires |skips| <= |QuestionPlan(mode, minutes)|
    ensures IsRun(run) && run[|run| - 1] == System(Expected(mode, minutes, skips), multiset{})
  {
    if skips == [] {
      run := StartRun(mode, minutes);
    } else {
      var front, skip := skips[..|skips| - 1], skips[|skips| - 1];
      assert skips == front + [skip];
      var shorter := LoneRun(mode, minutes, front);
      run := AdvanceRun(mode, minutes, front, skip, shorter, Expected(mode, minutes, front));
    }
  }

  lemma StartRun(mode: Mode, minutes: int) returns (run: seq<System>)
    ensures IsRun(run) && run[|run| - 1] == System(Expected(mode, minutes, []), multiset{})
  {
    var r, q := NewRoom(mode, minutes), StartReady(0, KindAt(mode, minutes, 0));
    StartIs(mode, minutes);
    assert multiset{} + multiset{q} == multiset{q};
    assert BeginStep(System(r, multiset{}), System(r, multiset{q}));
    run := Onward([System(r, multiset{})], System(r, multiset{q}));
    run := CommitRun(run, r, q, Commit(r, q));
  }

  lemma Onward(run: seq<System>, t: System) returns (longer: seq<System>)
    requires IsRun(run) && Step(run[|run| - 1], t)
    ensures IsRun(longer) && longer[|longer| - 1] == t
  {
    OneMore(run, t);
    longer := run + [t];
  }

  lemma ReadRun(run: seq<System>, r: Room, skip: bool, k: nat, q: Request) returns (longer: seq<System>)
    requires IsRun(run) && run[|run| - 1] == System(r, multiset{})
    requires r.status == IN_PROGRESS && k == FirstActive(r.questions) < |r.questions|
    requires q == AfterRead(r, r.questions[k], skip)
    ensures IsRun(longer) && longer[|longer| - 1] == System(r, multiset{q})
  {
    RunKeeps(run, |run| - 1);
    ReadAlone(r, skip, k, q);
    longer := Onward(run, System(r, multiset{AdvanceLoaded(r.questions[k].id, skip)}));
    longer := Onward(longer, System(r, multiset{q}));
  }

  lemma CommitRun(run: seq<System>, r: Room, q: Request, done: Room) returns (longer: seq<System>)
    requires IsRun(run) && run[|run| - 1] == System(r, multiset{q}) && !q.AdvanceLoaded?
    requires done == if q.CloseReady? then Commit(Commit(r, q), CompleteReady(true)) else Commit(r, q)
    ensures IsRun(longer) && longer[|longer| - 1] == System(done, multiset{})
  {
    CommitAlone(System(r, multiset{q}), q);
    if q.CloseReady? {
      var s := System(Commit(r, q), multiset{CompleteReady(true)});
      longer := Onward(run, s);
      CommitAlone(s, CompleteReady(true));
      longer := Onward(longer, System(done, multiset{}));
    } else {
      longer := Onward(run, System(done, multiset{}));
    }
  }

  lemma AdvanceRun(mode: Mode, minutes: int, front: seq<bool>, skip: bool, run: seq<System>, r: Room)
    returns (longer: seq<System>)
    requires |front| < |QuestionPlan(mode, minutes)| && r == Expected(mode, minutes, front)
    requires IsRun(run) && run[|run| - 1] == System(r, multiset{})
    ensures IsRun(longer) && longer[|longer| - 1] == System(Expected(mode, minutes, front + [skip]), multiset{})
  {
    AdvanceReads(mode, minutes, front, skip, |front|, r);
    var q := AfterRead(r, r.questions[|front|], skip);
    longer := ReadRun(run, r, skip, |front|, q);
    longer := CommitRun(longer, r, q, AdvanceAlone(r, skip));
    if |front| + 1 < |QuestionPlan(mode, minutes)| {
      AsksNext(mode, minutes, front, skip, r);
    } else {
      Finishes(mode, minutes, front, skip, r);
    }
  }

  /** Completing a running interview closes the question that is still open, orders the report, and leaves the rest. */
  lemma CompleteNow(r: Room)
    requires RoomInv(r) && r.status == IN_PROGRESS
    ensures var t := Commit(r, CompleteReady(false));
      t.status == COMPLETED && t.report == Pending && t.version == r.version + 1 && |t.questions| == |r.questions| &&
      forall i :: 0 <= i < |r.questions| ==>
        t.questions[i] == if r.questions[i].status == ACTIVE then r.questions[i].(status := ANSWERED) else r.questions[i]
  {
  }

  /** An interview can be cancelled exactly before it starts, and can then never start. */
  lemma CancelNow(r: Room, version: nat, kind: Kind)
    ensures var t := Commit(r, CancelReady);
      (r.status == CREATED ==> t == r.(status := CANCELLED, version := r.version + 1)) && (r.status != CREATED ==> t == r) &&
      (r.status == CREATED ==> Commit(t, StartReady(version, kind)) == t)
  {
  }

  /** A question row at the position to be filled violates the unique key: the transaction leaves everything as it was. */
  lemma TakenPositionRollsBack(r: Room, i: nat, version: nat, current: Question, to: QuestionStatus, kind: Kind)
    requires i < |r.questions|
    ensures r.questions[i].position == 0 ==> Commit(r, StartReady(version, kind)) == r
    ensures r.questions[i].position == current.position + 1 ==> Commit(r, AdvanceReady(current, to, kind)) == r
  {
  }

  /** Of two starts with the same version the second changes nothing. */
  lemma SecondStartIsIdle(r: Room, version: nat, kind: Kind, kind2: Kind)
    requires RoomInv(r) && r.status == CREATED && r.version == version
    ensures var t := Commit(r, StartReady(version, kind));
      t.status == IN_PROGRESS && Commit(t, StartReady(version, kind2)) == t
  {
  }

  // ------------------------------------------------------------ the transactions on rows

  class Tables {
    const mode: Mode
    const minutes: int
    const questionCount: nat
    var status: Status
    var version: nat
    var questions: seq<Question>
    var report: Report
    var nextId: nat

    ghost function Row(): Room
      reads this
    {
      Room(mode, minutes, questionCount, status, version, questions, report, nextId)
    }

    constructor (mode: Mode, minutes: int)
      ensures Row() == NewRoom(mode, minutes)
    {
      this.mode, this.minutes, questionCount := mode, minutes, |QuestionPlan(mode, minutes)|;
      status, version, questions, report, nextId := CREATED, 0, [], NoReport, 0;
    }

    /** Inserts a question row unless its position is taken. */
    method CreateQuestion(position: nat, kind: Kind)
      modifies this
      ensures Row() == AddQuestion(old(Row()), position, kind)
    {
      questions := questions + [Question(nextId, position, kind, ACTIVE)];
      nextId := nextId + 1;
    }

    method PositionTaken(position: nat) returns (taken: bool)
      ensures taken <==> HasPosition(Row(), position)
    {
      taken := false;
      for i := 0 to |questions|
        invariant taken <==> exists j :: 0 <= j < i && questions[j].position == position
      {
        if questions[i].position == position { taken := true; }
      }
    }

    /** Returns how many rows were updated. */
    method UpdateQuestion(id: nat, to: QuestionStatus) returns (count: nat)
      modifies this
      ensures Row() == old(Row()).(questions := CloseOne(old(questions), id, to))
      ensures count > 0 <==> IsActive(old(questions), id)
    {
      count := 0;
      var rows := questions;
      for i := 0 to |rows|
        invariant |questions| == |rows| && Row() == old(Row()).(questions := questions)
        invariant forall j :: 0 <= j < i ==> questions[j] == CloseOne(rows, id, to)[j]
        invariant forall j :: i <= j < |rows| ==> questions[j] == rows[j]
        invariant count > 0 <==> exists j :: 0 <= j < i && rows[j].id == id && rows[j].status == ACTIVE
      {
        if rows[i].id == id && rows[i].status == ACTIVE {
          questions := questions[i := rows[i].(status := to)];
          count := count + 1;
        }
      }
      assert questions == CloseOne(rows, id, to);
    }

    method CloseAllActive()
      modifies this
      ensures Row() == old(Row()).(questions := CloseAll(old(questions)))
    {
      var rows := questions;
      for i := 0 to |rows|
        invariant |questions| == |rows| && Row() == old(Row()).(questions := questions)
        invariant forall j :: 0 <= j < i ==> questions[j] == CloseAll(rows)[j]
        invariant forall j :: i <= j < |rows| ==> questions[j] == rows[j]
      {
        if rows[i].status == ACTIVE {
          questions := questions[i := rows[i].(status := ANSWERED)];
        }
      }
      assert questions == CloseAll(rows);
    }

    method CommitStart(readVersion: nat, kind: Kind) returns (started: bool)
      modifies this
      ensures Row() == StartTx(old(Row()), readVersion, kind)
      ensures started <==> Row() != old(Row())
    {
      var taken := PositionTaken(0);
      if status != CREATED || version != readVersion || taken { return false; }
      status, version := IN_PROGRESS, version + 1;
      CreateQuestion(0, kind);
      started := true;
    }

    method CommitAdvance(current: Question, to: QuestionStatus, kind: Kind) returns (advanced: bool)
      modifies this
      ensures Row() == AdvanceTx(old(Row()), current, to, kind)
    {
      var taken := PositionTaken(current.position + 1);
      var before := questions;
      var count := UpdateQuestion(current.id, to);
      if count == 0 || taken {
        // A failed transaction leaves the rows as they were.
        questions := before;
        return false;
      }
      version := version + 1;
      CreateQuestion(current.position + 1, kind);
      advanced := true;
    }

    method CommitComplete() returns (done: bool)
      modifies this
      ensures Row() == CompleteTx(old(Row()))
      ensures done <==> old(status) == IN_PROGRESS
    {
      if status != IN_PROGRESS { return false; }
      status, version := COMPLETED, version + 1;
      CloseAllActive();
      report := Pending;
      done := true;
    }

    method CommitCancel()
      modifies this
      ensures Row() == CancelTx(old(Row()))
    {
      if status == CREATED { status, version := CANCELLED, version + 1; }
    }
  }
}
