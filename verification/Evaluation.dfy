/** The evaluation of an interview: claims of the report row, the writes of its runs, and retries. */
module Evaluation {

  datatype Status = PENDING | RUNNING | COMPLETED | FAILED

  /** The report row; updatedAt is refreshed by every write. */
  datatype Report = Report(status: Status, attempts: nat, updatedAt: int)

  const STALE_RUNNING_MS := 10 * 60_000

  // ------------------------------------------------------------ the writes

  /** The condition of the claiming update. */
  predicate Claimable(r: Report, now: int) {
    r.status == PENDING || r.status == FAILED || (r.status == RUNNING && r.updatedAt < now - STALE_RUNNING_MS)
  }

  function Claimed(r: Report, now: int): Report {
    Report(RUNNING, r.attempts + 1, now)
  }

  function Written(r: Report, status: Status, now: int): Report {
    r.(status := status, updatedAt := now)
  }

  datatype RetryCheck = AlreadyEvaluated | AlreadyRunning | NothingToDo | MustReset

  /** What a retry decides from the row it read. */
  function CheckRetry(r: Report, now: int): RetryCheck {
    var stuck := r.status == RUNNING && now - r.updatedAt > STALE_RUNNING_MS;
    if r.status == COMPLETED then AlreadyEvaluated
    else if r.status == RUNNING && !stuck then AlreadyRunning
    else if r.status != PENDING then MustReset
    else NothingToDo
  }

  /** Working on the report since at most ten minutes ago. */
  predicate Busy(r: Report, now: int) {
    r.status == RUNNING && now <= r.updatedAt + 600_000
  }

  /** A retry is refused exactly when the report is complete or being worked on, and each refusal names its case; a
      report that waits for a run is left alone, one that failed or got stuck is reset. */
  lemma RetryDecides(r: Report, now: int)
    ensures CheckRetry(r, now) == AlreadyEvaluated <==> r.status == COMPLETED
    ensures CheckRetry(r, now) == AlreadyRunning <==> Busy(r, now)
    ensures CheckRetry(r, now) == NothingToDo <==> r.status == PENDING
  {
  }

  /** A claim fails exactly when the report is complete or being worked on; if not, it is busy from then on. */
  lemma ClaimDecides(r: Report, now: int)
    ensures !Claimable(r, now) <==> r.status == COMPLETED || Busy(r, now)
    ensures Claimable(r, now) ==> Busy(Claimed(r, now), now)
  {
  }

  /** Nothing stays stuck: unless it is complete or being worked on, a retry and the next claim put a report to work. */
  lemma RetryHelps(r: Report, now: int)
    requires r.status != COMPLETED && !Busy(r, now)
    ensures var waiting := if CheckRetry(r, now).MustReset? then Written(r, PENDING, now) else r;
      waiting.status == PENDING && Claimable(waiting, now) &&
      Claimed(waiting, now) == Report(RUNNING, r.attempts + 1, now)
  {
    RetryDecides(r, now);
  }

  /** The report row as the service updates it. */
  class Row {
    var status: Status
    var attempts: nat
    var updatedAt: int

    ghost function Value(): Report
      reads this
    {
      Report(status, attempts, updatedAt)
    }

    /** The row as completing the interview creates it. */
    constructor (now: int)
      ensures Value() == Report(PENDING, 0, now)
    {
      status, attempts, updatedAt := PENDING, 0, now;
    }

    method Claim(now: int) returns (claimed: bool)
      modifies this
      ensures claimed == Claimable(old(Value()), now)
      ensures !claimed <==> old(status) == COMPLETED || Busy(old(Value()), now)
      ensures Value() == if claimed then Claimed(old(Value()), now) else old(Value())
    {
      if status == PENDING || status == FAILED || (status == RUNNING && updatedAt < now - STALE_RUNNING_MS) {
        status, attempts, updatedAt := RUNNING, attempts + 1, now;
        return true;
      }
      claimed := false;
    }

    method Write(to: Status, now: int)
      modifies this
      ensures Value() == Written(old(Value()), to, now)
    {
      status, updatedAt := to, now;
    }

    method Retry(now: int) returns (check: RetryCheck)
      modifies this
      ensures check == CheckRetry(old(Value()), now)
      ensures check.AlreadyEvaluated? || check.AlreadyRunning? <==> old(status) == COMPLETED || Busy(old(Value()), now)
      ensures check.AlreadyEvaluated? <==> old(status) == COMPLETED
      ensures Value() == if check.MustReset? then Written(old(Value()), PENDING, now) else old(Value())
    {
      var stuck := status == RUNNING && now - updatedAt > STALE_RUNNING_MS;
      if status == COMPLETED { return AlreadyEvaluated; }
      if status == RUNNING && !stuck { return AlreadyRunning; }
      if status != PENDING {
        Write(PENDING, now);
        return MustReset;
      }
      check := NothingToDo;
    }
  }

  // ------------------------------------------------------------ the system

  /** A run works on its report until it has written its result; then only the room row is left to update. */
  datatype Phase = Working | Reported

  datatype Job = Job(claimedAt: int, phase: Phase)

  /** The clock, the row, the runs under way by the number of their claim, and the retries between read and write. */
  datatype System = System(now: int, report: Report, runs: map<nat, Job>, retries: nat)

  function Begin(now: int): System {
    System(now, Report(PENDING, 0, now), map[], 0)
  }

  datatype Action =
    | Tick(later: int)
    | Claim
    | Finish(id: nat, result: Status)
    | Crash(id: nat)
    | End(id: nat)
    | FailLate(id: nat)
    | Die(id: nat)
    | ReadForRetry
    | ResetForRetry
    | RetryAtOnce

  predicate Enabled(s: System, a: Action) {
    match a
    case Tick(later) => s.now <= later
    case Claim => true
    case Finish(id, result) => id in s.runs && s.runs[id].phase.Working? && result != RUNNING
    case Crash(id) => id in s.runs && s.runs[id].phase.Working?
    case End(id) => id in s.runs && s.runs[id].phase.Reported?
    case FailLate(id) => id in s.runs && s.runs[id].phase.Reported?
    case Die(id) => id in s.runs
    case ReadForRetry => true
    case ResetForRetry => s.retries > 0
    case RetryAtOnce => true
  }

  /** One atomic step. The last three are the two halves of a retry, and a retry that nothing interrupts. */
  function Do(s: System, a: Action): System
    requires Enabled(s, a)
  {
    match a
    case Tick(later) => s.(now := later)
    case Claim =>
      if Claimable(s.report, s.now) then
        s.(report := Claimed(s.report, s.now), runs := s.runs[s.report.attempts + 1 := Job(s.now, Working)])
      else s
    // A result is stored: COMPLETED, FAILED for a partial one, or PENDING to be tried again.
    case Finish(id, result) =>
      s.(report := Written(s.report, result, s.now), runs := s.runs[id := s.runs[id].(phase := Reported)])
    // An exception before that stores FAILED.
    case Crash(id) => s.(report := Written(s.report, FAILED, s.now), runs := s.runs - {id})
    case End(id) => s.(runs := s.runs - {id})
    // The update of the room row fails, and the handler overwrites the result.
    case FailLate(id) => s.(report := Written(s.report, FAILED, s.now), runs := s.runs - {id})
    // The process goes away.
    case Die(id) => s.(runs := s.runs - {id})
    case ReadForRetry => if CheckRetry(s.report, s.now).MustReset? then s.(retries := s.retries + 1) else s
    case ResetForRetry => s.(report := Written(s.report, PENDING, s.now), retries := s.retries - 1)
    case RetryAtOnce =>
      if CheckRetry(s.report, s.now).MustReset? then s.(report := Written(s.report, PENDING, s.now)) else s
  }

  /** The states of a run of the system. */
  ghost predicate IsRun(run: seq<System>, actions: seq<Action>) {
    |run| == |actions| + 1 && run[0] == Begin(run[0].now) &&
    forall i :: 0 <= i < |actions| ==> Enabled(run[i], actions[i]) && run[i + 1] == Do(run[i], actions[i])
  }

  // ------------------------------------------------------------ what holds without assumptions

  predicate ClaimSucceeds(s: System, a: Action) {
    a.Claim? && Claimable(s.report, s.now)
  }

  /** The successful claims among the first n actions. */
  ghost function Claims(run: seq<System>, actions: seq<Action>, n: nat): nat
    requires n <= |actions| <= |run|
  {
    if n == 0 then 0 else Claims(run, actions, n - 1) + if ClaimSucceeds(run[n - 1], actions[n - 1]) then 1 else 0
  }

  /** `attempts` counts the successful claims, however runs, retries and failures interleave. */
  lemma {:induction false} AttemptsAreClaims(run: seq<System>, actions: seq<Action>, n: nat)
    requires IsRun(run, actions) && n <= |actions|
    ensures run[n].report.attempts == Claims(run, actions, n)
  {
    if n > 0 {
      AttemptsAreClaims(run, actions, n - 1);
      assert run[n - 1 + 1] == Do(run[n - 1], actions[n - 1]);
    }
  }

  /** Whatever else claims at the same moment, one conditional update goes through. */
  lemma OneOfTwoClaims(s: System)
    requires Claimable(s.report, s.now)
    ensures var t := Do(s, Claim); !Claimable(t.report, t.now) && Do(t, Claim) == t
  {
  }

  // ------------------------------------------------------------ the assumptions

  predicate Holds(s: System, id: nat) {
    id in s.runs && s.runs[id].phase.Working?
  }

  /** No run is at work for longer than the staleness limit. */
  ghost predicate Timely(s: System) {
    forall id :: Holds(s, id) ==> s.now <= s.runs[id].claimedAt + STALE_RUNNING_MS
  }

  /** Retries are uninterrupted, and nothing fails after a result was stored. */
  predicate CalmAction(a: Action) {
    !a.FailLate? && !a.ReadForRetry? && !a.ResetForRetry?
  }

  /** The uninterrupted retry is its two halves one after the other. */
  lemma RetryIsTwoSteps(s: System)
    ensures var read := Do(s, ReadForRetry);
      Do(s, RetryAtOnce) == if CheckRetry(s.report, s.now).MustReset? then Do(read, ResetForRetry) else read
  {
  }

  // ------------------------------------------------------------ which steps do harm

  ghost predicate AtWork(s: System) {
    exists id :: Holds(s, id)
  }

  ghost predicate Overdue(s: System) {
    exists id :: Holds(s, id) && s.now > s.runs[id].claimedAt + STALE_RUNNING_MS
  }

  /** A claim or a whole retry while the run at work is overdue; the second half of a retry, or a failure after the
      result was stored, while a run is at work or the evaluation is complete. */
  ghost predicate Harmful(s: System, a: Action) {
    match a
    case Claim => Overdue(s)
    case RetryAtOnce => Overdue(s)
    case ResetForRetry => s.report.status == COMPLETED || AtWork(s)
    case FailLate(_) => s.report.status == COMPLETED || AtWork(s)
    case _ => false
  }

  /** The run at work is the latest claim, and the row still shows its claim. */
  ghost predicate Inv(s: System) {
    (forall id :: id in s.runs ==> id <= s.report.attempts) &&
    forall id :: Holds(s, id) ==>
      id == s.report.attempts && s.report.status == RUNNING && s.report.updatedAt == s.runs[id].claimedAt
  }

  ghost predicate StaysComplete(s: System, t: System) {
    s.report.status == COMPLETED ==> t.report.status == COMPLETED
  }

  lemma HarmlessKeeps(s: System, a: Action)
    requires Inv(s) && Enabled(s, a) && !Harmful(s, a)
    ensures Inv(Do(s, a)) && StaysComplete(s, Do(s, a))
  {
    var t := Do(s, a);
    assert a.Finish? || a.Crash? ==> Holds(s, a.id);
    forall id | Holds(t, id)
      ensures id == t.report.attempts && t.report.status == RUNNING && t.report.updatedAt == t.runs[id].claimedAt
    {
      assert Holds(s, id) || (a.Claim? && id == s.report.attempts + 1);
    }
  }

  ghost predicate TwoAtWork(s: System) {
    exists id, id' :: id != id' && Holds(s, id) && Holds(s, id')
  }

  /** After a harmful step COMPLETED is lost, or two runs are at work, at once or with the next claim. */
  lemma HarmIsReal(s: System, a: Action)
    requires Inv(s) && Enabled(s, a) && Harmful(s, a)
    ensures var t := Do(s, a);
      !Inv(t) || !StaysComplete(s, t)
    ensures var t := Do(s, a);
      !StaysComplete(s, t) || TwoAtWork(t) || TwoAtWork(Do(t, Claim))
  {
    var t := Do(s, a);
    if s.report.status != COMPLETED {
      var id :| Holds(s, id) && (a.Claim? || a.RetryAtOnce? ==> s.now > s.runs[id].claimedAt + STALE_RUNNING_MS);
      assert Holds(t, id);
      if a.Claim? {
        assert Holds(t, s.report.attempts + 1);
      } else {
        assert Holds(Do(t, Claim), id) && Holds(Do(t, Claim), t.report.attempts + 1);
      }
    }
  }

  /** A step keeps the latest claim in possession of the row, and a completed evaluation complete, exactly when it is
      harmless. */
  lemma StepKeepsExactlyWhen(s: System, a: Action)
    requires Inv(s) && Enabled(s, a)
    ensures (Inv(Do(s, a)) && StaysComplete(s, Do(s, a))) <==> !Harmful(s, a)
  {
    if Harmful(s, a) { HarmIsReal(s, a); } else { HarmlessKeeps(s, a); }
  }

  /** A run of the system in which no step does harm. */
  ghost predicate Calm(run: seq<System>, actions: seq<Action>) {
    IsRun(run, actions) && forall i :: 0 <= i < |actions| ==> !Harmful(run[i], actions[i])
  }

  /** Runs that end within the staleness limit, retries in one step, and a database that does not fail after a
      result was stored, are enough. */
  lemma AssumptionsSuffice(run: seq<System>, actions: seq<Action>)
    requires IsRun(run, actions) && (forall i :: 0 <= i < |actions| ==> CalmAction(actions[i]))
    requires forall i :: 0 <= i < |run| ==> Timely(run[i])
    ensures Calm(run, actions)
  {
    forall i | 0 <= i < |actions|
      ensures !Harmful(run[i], actions[i])
    {
      assert CalmAction(actions[i]) && Timely(run[i]);
    }
  }

  lemma RunStep(run: seq<System>, actions: seq<Action>, i: nat)
    requires IsRun(run, actions) && i < |actions|
    ensures Enabled(run[i], actions[i]) && run[i + 1] == Do(run[i], actions[i])
  {
  }

  lemma {:induction false} CalmStates(run: seq<System>, actions: seq<Action>, n: nat)
    requires Calm(run, actions) && n <= |actions|
    ensures Inv(run[n])
  {
    if n > 0 {
      CalmStates(run, actions, n - 1);
      RunStep(run, actions, n - 1);
      HarmlessKeeps(run[n - 1], actions[n - 1]);
    }
  }

  lemma CalmStep(run: seq<System>, actions: seq<Action>, i: nat)
    requires Calm(run, actions) && i < |actions|
    ensures StaysComplete(run[i], run[i + 1])
  {
    CalmStates(run, actions, i);
    RunStep(run, actions, i);
    HarmlessKeeps(run[i], actions[i]);
  }

  ghost predicate Undisturbed(run: seq<System>) {
    (forall i :: 0 <= i < |run| ==> Inv(run[i])) && forall i :: 0 <= i < |run| - 1 ==> StaysComplete(run[i], run[i + 1])
  }

  /** Over whole runs: every state is in order and COMPLETED is never left exactly when no step does harm. */
  lemma RunKeepsExactlyWhen(run: seq<System>, actions: seq<Action>)
    requires IsRun(run, actions)
    ensures Undisturbed(run) <==> Calm(run, actions)
  {
    if Calm(run, actions) {
      forall i | 0 <= i < |run| ensures Inv(run[i]) { CalmStates(run, actions, i); }
      forall i | 0 <= i < |run| - 1
        ensures StaysComplete(run[i], run[i + 1])
      {
        CalmStep(run, actions, i);
      }
    }
    if Undisturbed(run) {
      forall i | 0 <= i < |actions|
        ensures !Harmful(run[i], actions[i])
      {
        RunStep(run, actions, i);
        assert Inv(run[i]) && Inv(run[i + 1]) && StaysComplete(run[i], run[i + 1]);
        StepKeepsExactlyWhen(run[i], actions[i]);
      }
    }
  }

  /** At most one run is at work on the report, at any moment of a calm run. */
  lemma OneRunAtWork(run: seq<System>, actions: seq<Action>, n: nat, id: nat, id': nat)
    requires Calm(run, actions) && n <= |actions| && Holds(run[n], id) && Holds(run[n], id')
    ensures id == id' == run[n].report.attempts && run[n].report.status == RUNNING
  {
    CalmStates(run, actions, n);
  }

  /** A completed evaluation stays completed. */
  lemma {:induction false} CompletedIsFinal(run: seq<System>, actions: seq<Action>, i: nat, j: nat)
    requires Calm(run, actions) && i <= j <= |actions| && run[i].report.status == COMPLETED
    ensures run[j].report.status == COMPLETED
    decreases j - i
  {
    if i < j {
      CompletedIsFinal(run, actions, i, j - 1);
      CalmStep(run, actions, j - 1);
    }
  }

  /** The row changes under a run at work, other than by its own write, exactly when the step is harmful. */
  lemma TakenOverExactlyWhen(s: System, a: Action, id: nat)
    requires Inv(s) && Holds(s, id) && Enabled(s, a) && a != Crash(id) && !(a.Finish? && a.id == id)
    ensures Do(s, a).report != s.report <==> Harmful(s, a)
  {
    assert a.Finish? || a.Crash? ==> Holds(s, a.id);
    assert forall other :: Holds(s, other) ==> other == id;
    assert AtWork(s);
    assert Overdue(s) <==> s.now > s.runs[id].claimedAt + STALE_RUNNING_MS;
  }

  // ------------------------------------------------------------ each assumption is needed

  // A short history in which only one of the assumptions fails.

  lemma OneMore(run: seq<System>, actions: seq<Action>, a: Action, next: System)
    requires IsRun(run, actions) && Enabled(run[|actions|], a) && next == Do(run[|actions|], a)
    ensures IsRun(run + [next], actions + [a])
  {
  }

  function Fresh(now: int): Job {
    Job(now, Working)
  }

  lemma FirstClaim() returns (run: seq<System>, actions: seq<Action>)
    ensures IsRun(run, actions) && actions == [Claim]
    ensures run == [Begin(0), System(0, Report(RUNNING, 1, 0), map[1 := Fresh(0)], 0)]
  {
    var s := System(0, Report(RUNNING, 1, 0), map[1 := Fresh(0)], 0);
    OneMore([Begin(0)], [], Claim, s);
    run, actions := [Begin(0)] + [s], [] + [Claim];
  }

  /** An overdue run is joined by a second one. */
  lemma SlowRunIsJoined() returns (run: seq<System>, actions: seq<Action>)
    ensures IsRun(run, actions) && forall i :: 0 <= i < |actions| ==> CalmAction(actions[i])
    ensures |actions| == 3 && Holds(run[3], 1) && Holds(run[3], 2)
  {
    run, actions := FirstClaim();
    var late := STALE_RUNNING_MS + 1;
    var s := run[1].(now := late);
    OneMore(run, actions, Tick(late), s);
    run, actions := run + [s], actions + [Tick(late)];
    var t := s.(report := Report(RUNNING, 2, late), runs := s.runs[2 := Fresh(late)]);
    OneMore(run, actions, Claim, t);
    run, actions := run + [t], actions + [Claim];
  }

  lemma RetryReadsFailure() returns (run: seq<System>, actions: seq<Action>)
    ensures IsRun(run, actions) && actions == [Claim, Crash(1), ReadForRetry]
    ensures run[3] == System(0, Report(FAILED, 1, 0), map[], 1) && forall i :: 0 <= i < |run| ==> Timely(run[i])
  {
    run, actions := FirstClaim();
    var s := System(0, Report(FAILED, 1, 0), map[], 0);
    assert map[1 := Fresh(0)] - {1} == map[];
    OneMore(run, actions, Crash(1), s);
    run, actions := run + [s], actions + [Crash(1)];
    var t := s.(retries := 1);
    OneMore(run, actions, ReadForRetry, t);
    run, actions := run + [t], actions + [ReadForRetry];
  }

  /** A retry that read the row before a claim throws the claim away, and a second run joins the first. */
  lemma InterruptedRetryIsJoined() returns (run: seq<System>, actions: seq<Action>)
    ensures IsRun(run, actions) && forall i :: 0 <= i < |run| ==> Timely(run[i])
    ensures |actions| == 6 && Holds(run[6], 2) && Holds(run[6], 3)
  {
    run, actions := RetryReadsFailure();
    var s := System(0, Report(RUNNING, 2, 0), map[2 := Fresh(0)], 1);
    OneMore(run, actions, Claim, s);
    run, actions := run + [s], actions + [Claim];
    var t := System(0, Report(PENDING, 2, 0), s.runs, 0);
    OneMore(run, actions, ResetForRetry, t);
    run, actions := run + [t], actions + [ResetForRetry];
    var u := System(0, Report(RUNNING, 3, 0), t.runs[3 := Fresh(0)], 0);
    OneMore(run, actions, Claim, u);
    run, actions := run + [u], actions + [Claim];
  }

  /** When the room row cannot be updated, a completed evaluation turns into a failed one. */
  lemma LateFailureOverwrites() returns (run: seq<System>, actions: seq<Action>)
    ensures IsRun(run, actions) && forall i :: 0 <= i < |run| ==> Timely(run[i])
    ensures |actions| == 3 && run[2].report.status == COMPLETED && run[3].report.status == FAILED
  {
    run, actions := FirstClaim();
    var a := Finish(1, COMPLETED);
    var s := Do(run[1], a);
    OneMore(run, actions, a, s);
    run, actions := run + [s], actions + [a];
    var t := Do(s, FailLate(1));
    OneMore(run, actions, FailLate(1), t);
    run, actions := run + [t], actions + [FailLate(1)];
  }
}
