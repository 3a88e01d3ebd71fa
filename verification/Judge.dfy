/** The judge: a sandbox that can be destroyed half way, the test loop that drives it, and the summary. */
module Judge {
  import opened Extended
  import Text

  datatype Verdict =
    | ACCEPTED | WRONG_ANSWER | COMPILATION_ERROR | RUNTIME_ERROR | TIME_LIMIT_EXCEEDED
    | MEMORY_LIMIT_EXCEEDED | OUTPUT_LIMIT_EXCEEDED | INTERNAL_ERROR | EXECUTED | SKIPPED

  datatype Test = Test(id: string, expected: Option<string>, visible: bool)

  datatype TestResult = TestResult(
    id: string, visible: bool, verdict: Verdict, timeMs: int, stdout: Option<string>, stderr: Option<string>)

  // ------------------------------------------------------------ the sandbox

  /** What the docker client reports: it could not be started, or the command ran. */
  datatype Raw = NotStarted | Ran(code: Option<int>, stdout: string, stderr: string, timeMs: int, overflow: bool, timedOut: bool)

  datatype Attempt = AlreadyDestroyed | DockerError | Done(run: Raw)

  class Sandbox {
    var destroyed: bool

    constructor ()
      ensures !destroyed
    {
      destroyed := false;
    }

    /** `raw` is what docker would report. The container is torn down when its output overflowed or docker hung. */
    method Exec(raw: Raw) returns (r: Attempt)
      modifies this
      ensures old(destroyed) ==> r.AlreadyDestroyed? && destroyed
      ensures !old(destroyed) && raw.NotStarted? ==> r.DockerError? && !destroyed
      ensures !old(destroyed) && raw.Ran? ==> r == Done(raw) && destroyed == (raw.overflow || raw.timedOut)
    {
      if destroyed { return AlreadyDestroyed; }
      if raw.NotStarted? { return DockerError; }
      if raw.overflow || raw.timedOut { Destroy(); }
      r := Done(raw);
    }

    method Destroy()
      modifies this
      ensures destroyed
    {
      if destroyed { return; }
      destroyed := true;
    }

    /** The counter of the container, unreadable once it is gone. */
    method OomKills(reading: Option<int>) returns (kills: Option<int>)
      ensures kills == if destroyed then None else reading
    {
      if destroyed { return None; }
      kills := reading;
    }
  }

  // ------------------------------------------------------------ one test

  const EXEC_OVERHEAD_ALLOWANCE_MS := 400
  const STOP_AFTER_TIMEOUTS := 2
  const MAX_VISIBLE := 4 * 1024

  /** Everything the loop is given. Clock, docker reports and memory counters are indexed by test. */
  datatype Job = Job(
    tests: seq<Test>,
    timeLimitMs: int,
    deadline: int,
    baselineOom: Option<int>,
    saysOutOfMemory: string -> bool,
    matches: (string, string) -> bool,
    clock: int -> int,
    runs: int -> Raw,
    oomKills: int -> Option<int>)

  function Truncate(s: string, max: nat): string {
    if |s| > max then s[..max] + "\n… (truncated)" else s
  }

  predicate AllSpace(s: string) {
    forall k :: 0 <= k < |s| ==> Text.IsSpace(s[k])
  }

  predicate MoreKills(kills: Option<int>, baseline: Option<int>) {
    kills.Some? && baseline.Some? && kills.value > baseline.value
  }

  /** The verdict of a command that ran; `oom` is the memory counter read behind it. */
  function VerdictOf(job: Job, test: Test, run: Raw, oom: Option<int>): Verdict
    requires run.Ran?
  {
    if run.overflow then OUTPUT_LIMIT_EXCEEDED
    else if run.timedOut then TIME_LIMIT_EXCEEDED
    else if run.code == Some(137) then
      if MoreKills(oom, job.baselineOom) then MEMORY_LIMIT_EXCEEDED
      else if 10 * run.timeMs >= 9 * job.timeLimitMs then TIME_LIMIT_EXCEEDED
      else MEMORY_LIMIT_EXCEEDED
    else if run.code != Some(0) then if job.saysOutOfMemory(run.stderr) then MEMORY_LIMIT_EXCEEDED else RUNTIME_ERROR
    else if run.timeMs > job.timeLimitMs + EXEC_OVERHEAD_ALLOWANCE_MS then TIME_LIMIT_EXCEEDED
    else if test.expected.None? then EXECUTED
    else if job.matches(run.stdout, test.expected.value) then ACCEPTED
    else WRONG_ANSWER
  }

  /** A test is accepted exactly when the program ended by itself and in time with the expected output, and
      executed when there is nothing to compare. */
  lemma AcceptedExactlyWhen(job: Job, test: Test, run: Raw, oom: Option<int>)
    requires run.Ran?
    ensures var clean := !run.overflow && !run.timedOut && run.code == Some(0) &&
                         run.timeMs <= job.timeLimitMs + 400;
      (VerdictOf(job, test, run, oom) == ACCEPTED <==>
        clean && test.expected.Some? && job.matches(run.stdout, test.expected.value)) &&
      (VerdictOf(job, test, run, oom) == WRONG_ANSWER <==>
        clean && test.expected.Some? && !job.matches(run.stdout, test.expected.value)) &&
      (VerdictOf(job, test, run, oom) == EXECUTED <==> clean && test.expected.None?)
  {
  }

  /** A killed program is out of memory if the counter says so, else out of time if it used nine tenths of its limit. */
  lemma KilledProgram(job: Job, test: Test, run: Raw, oom: Option<int>)
    requires run.Ran? && !run.overflow && !run.timedOut && run.code == Some(137)
    ensures VerdictOf(job, test, run, oom) == TIME_LIMIT_EXCEEDED <==>
      !MoreKills(oom, job.baselineOom) && 10 * run.timeMs >= 9 * job.timeLimitMs
    ensures VerdictOf(job, test, run, oom) in {TIME_LIMIT_EXCEEDED, MEMORY_LIMIT_EXCEEDED}
  {
  }

  /** Who is blamed for what: output overflow before everything else; a time limit when docker hung, when a killed program
      had used nine tenths of the limit and the memory counter did not rise, or when a clean exit came too late; memory
      for any other kill and for a failing exit that says so; a runtime error for every other failing exit. */
  lemma BlamedExactlyWhen(job: Job, test: Test, run: Raw, oom: Option<int>)
    requires run.Ran?
    ensures var v := VerdictOf(job, test, run, oom);
      var ended := !run.overflow && !run.timedOut;
      var rose := oom.Some? && job.baselineOom.Some? && oom.value > job.baselineOom.value;
      var nearLimit := 10 * run.timeMs >= 9 * job.timeLimitMs;
      (v == OUTPUT_LIMIT_EXCEEDED <==> run.overflow) &&
      (v == TIME_LIMIT_EXCEEDED <==>
        (!run.overflow &&
         (run.timedOut || (run.code == Some(137) && !rose && nearLimit) ||
          (run.code == Some(0) && run.timeMs > job.timeLimitMs + 400)))) &&
      (v == MEMORY_LIMIT_EXCEEDED <==>
        (ended &&
         ((run.code == Some(137) && (rose || !nearLimit)) ||
          (run.code != Some(137) && run.code != Some(0) && job.saysOutOfMemory(run.stderr))))) &&
      (v == RUNTIME_ERROR <==> ended && run.code != Some(137) && run.code != Some(0) && !job.saysOutOfMemory(run.stderr))
  {
  }

  /** Nobody is told to be too slow without reason: either docker hung or nine tenths of the limit were used up. */
  lemma TimeLimitMeansSlow(job: Job, test: Test, run: Raw, oom: Option<int>)
    requires run.Ran? && job.timeLimitMs >= 0 && VerdictOf(job, test, run, oom) == TIME_LIMIT_EXCEEDED
    ensures run.timedOut || 10 * run.timeMs >= 9 * job.timeLimitMs
  {
    if !run.overflow && !run.timedOut && run.code == Some(137) { KilledProgram(job, test, run, oom); }
  }

  /** The same run taking longer is judged the same or out of time; in particular it is never judged better. */
  lemma SlowerIsNotBetter(job: Job, test: Test, run: Raw, slower: int, oom: Option<int>)
    requires run.Ran? && run.timeMs <= slower
    ensures var v, w := VerdictOf(job, test, run, oom), VerdictOf(job, test, run.(timeMs := slower), oom);
      w == v || w == TIME_LIMIT_EXCEEDED
  {
  }

  function Shown(test: Test, verdict: Verdict, run: Raw): TestResult
    requires run.Ran?
  {
    TestResult(test.id, test.visible, verdict, run.timeMs,
      if test.visible then Some(Truncate(run.stdout, MAX_VISIBLE)) else None,
      if test.visible && !AllSpace(run.stderr) then Some(Truncate(run.stderr, MAX_VISIBLE)) else None)
  }

  function Blank(test: Test, verdict: Verdict): TestResult {
    TestResult(test.id, test.visible, verdict, 0, None, None)
  }

  // ------------------------------------------------------------ the loop as a run of states

  datatype State = State(destroyed: bool, stop: bool, timeouts: int)

  predicate Skips(job: Job, i: int, st: State) {
    st.stop || st.destroyed || job.clock(i) > job.deadline || st.timeouts >= STOP_AFTER_TIMEOUTS
  }

  /** The verdict of test i in a given state; the counter is asked only for exit code 137, when docker did not hang. */
  function VerdictAt(job: Job, i: int, st: State): Verdict
    requires 0 <= i < |job.tests|
  {
    if Skips(job, i, st) || job.runs(i).NotStarted? then SKIPPED
    else VerdictOf(job, job.tests[i], job.runs(i), job.oomKills(i))
  }

  function Next(job: Job, i: int, st: State): State
    requires 0 <= i < |job.tests|
  {
    var run := job.runs(i);
    if Skips(job, i, st) || run.NotStarted? then st
    else
      State(run.overflow || run.timedOut, run.overflow,
        st.timeouts + if VerdictAt(job, i, st).TIME_LIMIT_EXCEEDED? then 1 else 0)
  }

  /** The state in which test n is considered. */
  function Before(job: Job, st: State, n: nat): State
    requires n <= |job.tests|
  {
    if n == 0 then st else Next(job, n - 1, Before(job, st, n - 1))
  }

  predicate Runs(job: Job, st: State, i: nat)
    requires i < |job.tests|
  {
    !Skips(job, i, Before(job, st, i))
  }

  function ResultAt(job: Job, st: State, i: nat): TestResult
    requires i < |job.tests|
  {
    var now := Before(job, st, i);
    if Skips(job, i, now) || job.runs(i).NotStarted? then Blank(job.tests[i], SKIPPED)
    else Shown(job.tests[i], VerdictAt(job, i, now), job.runs(i))
  }

  /** The results of the first n tests. */
  function Results(job: Job, st: State, n: nat): seq<TestResult>
    requires n <= |job.tests|
  {
    if n == 0 then [] else Results(job, st, n - 1) + [ResultAt(job, st, n - 1)]
  }

  function Start(destroyed: bool): State {
    State(destroyed, false, 0)
  }

  /** Docker can be started for every test that runs. */
  ghost predicate DockerWorks(job: Job, st: State, n: nat)
    requires n <= |job.tests|
  {
    forall i :: 0 <= i < n && Runs(job, st, i) ==> job.runs(i).Ran?
  }

  datatype Outcome = Tests(results: seq<TestResult>) | InfrastructureError(cause: Attempt)

  /** The loop over the tests. It never runs a command in a container that is gone. */
  method RunTests(job: Job, box: Sandbox) returns (out: Outcome)
    modifies box
    ensures out.Tests? <==> DockerWorks(job, Start(old(box.destroyed)), |job.tests|)
    ensures out.Tests? ==> out.results == Results(job, Start(old(box.destroyed)), |job.tests|)
    ensures out.InfrastructureError? ==> out.cause.DockerError?
  {
    ghost var st0 := Start(box.destroyed);
    var results: seq<TestResult> := [];
    var timeouts := 0;
    var stop := false;
    for i := 0 to |job.tests|
      invariant State(box.destroyed, stop, timeouts) == Before(job, st0, i)
      invariant results == Results(job, st0, i) && DockerWorks(job, st0, i)
    {
      var test := job.tests[i];
      if stop || box.destroyed || job.clock(i) > job.deadline || timeouts >= STOP_AFTER_TIMEOUTS {
        results := results + [Blank(test, SKIPPED)];
        continue;
      }
      assert Runs(job, st0, i);
      var attempt := box.Exec(job.runs(i));
      if !attempt.Done? { return InfrastructureError(attempt); }
      var run := attempt.run;
      var verdict;
      if run.overflow {
        verdict := OUTPUT_LIMIT_EXCEEDED;
        stop := true;
      } else if run.timedOut {
        verdict := TIME_LIMIT_EXCEEDED;
        timeouts := timeouts + 1;
      } else if run.code == Some(137) {
        var oom := box.OomKills(job.oomKills(i));
        if oom.Some? && job.baselineOom.Some? && oom.value > job.baselineOom.value { verdict := MEMORY_LIMIT_EXCEEDED; }
        else if 10 * run.timeMs >= 9 * job.timeLimitMs { verdict := TIME_LIMIT_EXCEEDED; }
        else { verdict := MEMORY_LIMIT_EXCEEDED; }
        if verdict.TIME_LIMIT_EXCEEDED? { timeouts := timeouts + 1; }
      } else if run.code != Some(0) {
        verdict := if job.saysOutOfMemory(run.stderr) then MEMORY_LIMIT_EXCEEDED else RUNTIME_ERROR;
      } else if run.timeMs > job.timeLimitMs + EXEC_OVERHEAD_ALLOWANCE_MS {
        verdict := TIME_LIMIT_EXCEEDED;
        timeouts := timeouts + 1;
      } else if test.expected.None? {
        verdict := EXECUTED;
      } else {
        verdict := if job.matches(run.stdout, test.expected.value) then ACCEPTED else WRONG_ANSWER;
      }
      results := results + [Shown(test, verdict, run)];
    }
    out := Tests(results);
  }

  // ------------------------------------------------------------ what every run of the loop keeps

  function Count(rs: seq<TestResult>, v: Verdict): nat {
    if rs == [] then 0 else Count(rs[..|rs| - 1], v) + if rs[|rs| - 1].verdict == v then 1 else 0
  }

  lemma {:induction false} ResultsAt(job: Job, st: State, n: nat)
    requires n <= |job.tests|
    ensures |Results(job, st, n)| == n
    ensures forall i :: 0 <= i < n ==> Results(job, st, n)[i] == ResultAt(job, st, i)
  {
    if n > 0 { ResultsAt(job, st, n - 1); }
  }

  /** One result per test, in order, and nothing that a hidden test printed. */
  lemma OneResultPerTest(job: Job, st: State)
    ensures var rs := Results(job, st, |job.tests|);
      |rs| == |job.tests| && forall i :: 0 <= i < |rs| ==>
        rs[i].id == job.tests[i].id && rs[i].visible == job.tests[i].visible &&
        (!rs[i].visible ==> rs[i].stdout.None? && rs[i].stderr.None?)
  {
    ResultsAt(job, st, |job.tests|);
  }

  /** The author of a visible test sees what the program printed, up to 4096 characters and then a mark. */
  lemma VisibleShowsOutput(job: Job, st: State, i: nat)
    requires i < |job.tests| && job.tests[i].visible && Runs(job, st, i) && job.runs(i).Ran?
    ensures var r, out, err := ResultAt(job, st, i), job.runs(i).stdout, job.runs(i).stderr;
      r.timeMs == job.runs(i).timeMs && r.stdout.Some? &&
      (|out| <= 4096 ==> r.stdout.value == out) &&
      (|out| > 4096 ==> r.stdout.value == out[..4096] + "\n… (truncated)") &&
      (r.stderr.None? <==> forall k :: 0 <= k < |err| ==> Text.IsSpace(err[k])) &&
      (r.stderr.Some? && |err| <= 4096 ==> r.stderr.value == err) &&
      (r.stderr.Some? && |err| > 4096 ==> r.stderr.value == err[..4096] + "\n… (truncated)")
  {
  }

  /** The loop counts its time-limit verdicts, and stops at two. */
  lemma {:induction false} AtMostTwoTimeouts(job: Job, destroyed: bool, n: nat)
    requires n <= |job.tests|
    ensures Count(Results(job, Start(destroyed), n), TIME_LIMIT_EXCEEDED) == Before(job, Start(destroyed), n).timeouts <= 2
  {
    if n > 0 {
      var st := Start(destroyed);
      AtMostTwoTimeouts(job, destroyed, n - 1);
      var rs := Results(job, st, n - 1);
      assert (rs + [ResultAt(job, st, n - 1)])[..|rs|] == rs;
    }
  }

  /** A container that is gone, and a stop, stay. */
  lemma {:induction false} EndStays(job: Job, st: State, i: nat, j: nat)
    requires i <= j <= |job.tests|
    ensures Before(job, st, i).destroyed ==> Before(job, st, j).destroyed
    ensures Before(job, st, i).stop ==> Before(job, st, j).stop
    ensures Before(job, st, i).timeouts <= Before(job, st, j).timeouts
  {
    if i < j { EndStays(job, st, i, j - 1); }
  }

  /** Once the output of a test overflowed or docker hung, nothing runs any more. */
  lemma NothingAfterTearDown(job: Job, st: State, i: nat, j: nat)
    requires i < j < |job.tests| && Runs(job, st, i) && job.runs(i).Ran?
    requires job.runs(i).overflow || job.runs(i).timedOut
    ensures ResultAt(job, st, i).verdict == if job.runs(i).overflow then OUTPUT_LIMIT_EXCEEDED else TIME_LIMIT_EXCEEDED
    ensures !Runs(job, st, j) && ResultAt(job, st, j).verdict == SKIPPED
  {
    assert Before(job, st, i + 1).destroyed;
    EndStays(job, st, i + 1, j);
  }

  /** How often tests before n exceeded the time limit. */
  function TimeoutsBefore(job: Job, st: State, n: nat): nat
    requires n <= |job.tests|
  {
    Count(Results(job, st, n), TIME_LIMIT_EXCEEDED)
  }

  /** Some test before n was torn down. */
  ghost predicate TornDown(job: Job, st: State, n: nat)
    requires n <= |job.tests|
  {
    exists i :: 0 <= i < n && Runs(job, st, i) && job.runs(i).Ran? && (job.runs(i).overflow || job.runs(i).timedOut)
  }

  lemma {:induction false} DestroyedWhen(job: Job, gone: bool, n: nat)
    requires n <= |job.tests|
    ensures Before(job, Start(gone), n).destroyed <==> gone || TornDown(job, Start(gone), n)
    ensures Before(job, Start(gone), n).stop ==> Before(job, Start(gone), n).destroyed
  {
    if n > 0 {
      var st := Start(gone);
      DestroyedWhen(job, gone, n - 1);
      if TornDown(job, st, n) && !TornDown(job, st, n - 1) {
        assert Runs(job, st, n - 1);
      } else if !TornDown(job, st, n) && Runs(job, st, n - 1) && job.runs(n - 1).Ran? {
        assert !(job.runs(n - 1).overflow || job.runs(n - 1).timedOut);
      }
    }
  }

  /** A test is skipped for one of four reasons, and for no other. */
  lemma SkippedExactlyWhen(job: Job, gone: bool, i: nat)
    requires i < |job.tests| && DockerWorks(job, Start(gone), |job.tests|)
    ensures (ResultAt(job, Start(gone), i).verdict == SKIPPED) <==>
      (gone || TornDown(job, Start(gone), i) || job.clock(i) > job.deadline || TimeoutsBefore(job, Start(gone), i) >= 2)
    ensures ResultAt(job, Start(gone), i).verdict == SKIPPED ==> ResultAt(job, Start(gone), i).timeMs == 0
  {
    DestroyedWhen(job, gone, i);
    AtMostTwoTimeouts(job, gone, i);
    assert Runs(job, Start(gone), i) ==> job.runs(i).Ran?;
  }

  ghost predicate ClockRuns(job: Job) {
    forall i, j :: 0 <= i <= j ==> job.clock(i) <= job.clock(j)
  }

  /** With a clock that does not go back, the skipped tests are the last ones. */
  lemma SkippedIsSuffix(job: Job, st: State, i: nat, j: nat)
    requires ClockRuns(job) && i <= j < |job.tests| && !Runs(job, st, i)
    ensures !Runs(job, st, j) && ResultAt(job, st, j).verdict == SKIPPED
  {
    EndStays(job, st, i, j);
  }

  // ------------------------------------------------------------ the summary

  predicate Passing(r: TestResult) {
    r.verdict == ACCEPTED || r.verdict == EXECUTED
  }

  /** The first result that does not pass, |rs| if all pass. */
  function FirstFailing(rs: seq<TestResult>): (k: nat)
    ensures k <= |rs| && (k < |rs| ==> !Passing(rs[k])) && forall i :: 0 <= i < k ==> Passing(rs[i])
  {
    if rs == [] || !Passing(rs[0]) then 0 else 1 + FirstFailing(rs[1..])
  }

  function SummarizeVerdict(rs: seq<TestResult>): Verdict {
    var k := FirstFailing(rs);
    if k == |rs| then ACCEPTED
    else if rs[k].verdict == SKIPPED then TIME_LIMIT_EXCEEDED
    else rs[k].verdict
  }

  /** The summary is ACCEPTED exactly when every test was ACCEPTED or EXECUTED, and never a verdict of a single test
      only. */
  lemma AcceptedIffAllPass(rs: seq<TestResult>)
    ensures (SummarizeVerdict(rs) == ACCEPTED) <==>
            (forall i :: 0 <= i < |rs| ==> rs[i].verdict == ACCEPTED || rs[i].verdict == EXECUTED)
    ensures SummarizeVerdict(rs) != SKIPPED && SummarizeVerdict(rs) != EXECUTED
  {
    assert FirstFailing(rs) < |rs| ==> !Passing(rs[FirstFailing(rs)]);
  }

  /** The tests before the k-th were ACCEPTED or EXECUTED, the k-th was not. */
  ghost predicate FirstFails(rs: seq<TestResult>, k: nat) {
    k < |rs| && rs[k].verdict != ACCEPTED && rs[k].verdict != EXECUTED &&
    forall i :: 0 <= i < k ==> rs[i].verdict == ACCEPTED || rs[i].verdict == EXECUTED
  }

  /** The first failing test decides: its verdict is reported, a skipped test as out of time. */
  lemma FirstFailureDecides(rs: seq<TestResult>, k: nat)
    requires FirstFails(rs, k)
    ensures SummarizeVerdict(rs) == if rs[k].verdict == SKIPPED then TIME_LIMIT_EXCEEDED else rs[k].verdict
  {
    assert !Passing(rs[k]) && forall i :: 0 <= i < k ==> Passing(rs[i]);
  }

  /** The verdict reports the first failing test. */
  ghost predicate Reports(e: Execution) {
    forall k: nat :: FirstFails(e.tests, k) ==>
      e.verdict == if e.tests[k].verdict == SKIPPED then TIME_LIMIT_EXCEEDED else e.tests[k].verdict
  }

  /** When the first failing test was skipped, time was up or the compiler had brought the container down:
      the only ways in which a run without any timeout is summed up as TIME_LIMIT_EXCEEDED. */
  lemma SkippedFirst(job: Job, gone: bool)
    requires DockerWorks(job, Start(gone), |job.tests|)
    ensures var rs := Results(job, Start(gone), |job.tests|); var k := FirstFailing(rs);
      k < |rs| && rs[k].verdict == SKIPPED ==> gone || job.clock(k) > job.deadline
  {
    var st := Start(gone);
    var rs := Results(job, st, |job.tests|);
    ResultsAt(job, st, |job.tests|);
    var k := FirstFailing(rs);
    if k < |rs| && rs[k].verdict == SKIPPED {
      assert forall i :: 0 <= i < k ==> Passing(rs[i]);
      NoTimeoutAmongPassing(job, st, k);
      NoTearDownAmongPassing(job, st, k);
      SkippedExactlyWhen(job, gone, k);
    }
  }

  lemma NoTearDownAmongPassing(job: Job, st: State, n: nat)
    requires n <= |job.tests| && forall i :: 0 <= i < n ==> Passing(ResultAt(job, st, i))
    ensures !TornDown(job, st, n)
  {
    forall i | 0 <= i < n && Runs(job, st, i) && job.runs(i).Ran?
      ensures !(job.runs(i).overflow || job.runs(i).timedOut)
    {
      assert Passing(ResultAt(job, st, i));
    }
  }

  lemma {:induction false} NoTimeoutAmongPassing(job: Job, st: State, n: nat)
    requires n <= |job.tests| && forall i :: 0 <= i < n ==> Passing(ResultAt(job, st, i))
    ensures TimeoutsBefore(job, st, n) == 0
  {
    if n > 0 {
      NoTimeoutAmongPassing(job, st, n - 1);
      var rs := Results(job, st, n - 1);
      assert (rs + [ResultAt(job, st, n - 1)])[..|rs|] == rs;
    }
  }

  // ------------------------------------------------------------ the whole judgement

  datatype Execution = Execution(verdict: Verdict, passed: nat, total: nat, tests: seq<TestResult>)

  datatype Judgement = Finished(result: Execution) | Failed(cause: Attempt)

  function Uniform(tests: seq<Test>, v: Verdict): seq<TestResult> {
    if tests == [] then [] else Uniform(tests[..|tests| - 1], v) + [Blank(tests[|tests| - 1], v)]
  }

  lemma {:induction false} UniformSpec(tests: seq<Test>, v: Verdict)
    ensures |Uniform(tests, v)| == |tests|
    ensures forall i :: 0 <= i < |tests| ==> Uniform(tests, v)[i] == Blank(tests[i], v)
  {
    if tests != [] { UniformSpec(tests[..|tests| - 1], v); }
  }

  lemma {:induction false} NoneAccepted(rs: seq<TestResult>)
    requires forall i :: 0 <= i < |rs| ==> rs[i].verdict != ACCEPTED
    ensures Count(rs, ACCEPTED) == 0
  {
    if rs != [] { NoneAccepted(rs[..|rs| - 1]); }
  }

  /** The result of a test that was not run. */
  predicate NotRun(r: TestResult, v: Verdict) {
    r.verdict == v && r.timeMs == 0 && r.stdout.None? && r.stderr.None?
  }

  /** What every finished judgement promises. */
  ghost predicate Sound(tests: seq<Test>, e: Execution) {
    |e.tests| == |tests| == e.total && e.passed == Count(e.tests, ACCEPTED) &&
    (forall i :: 0 <= i < |tests| ==> e.tests[i].id == tests[i].id && e.tests[i].visible == tests[i].visible) &&
    ((e.verdict == ACCEPTED) <==>
      forall i :: 0 <= i < |tests| ==> e.tests[i].verdict == ACCEPTED || e.tests[i].verdict == EXECUTED)
  }

  lemma UniformSound(tests: seq<Test>, v: Verdict, verdict: Verdict)
    requires tests != [] && v != ACCEPTED && v != EXECUTED && verdict != ACCEPTED
    ensures Sound(tests, Execution(verdict, 0, |tests|, Uniform(tests, v)))
    ensures forall i :: 0 <= i < |tests| ==> NotRun(Uniform(tests, v)[i], v)
  {
    UniformSpec(tests, v);
    NoneAccepted(Uniform(tests, v));
    assert !Passing(Uniform(tests, v)[0]);
  }

  lemma SummarySound(job: Job, gone: bool)
    ensures var rs := Results(job, Start(gone), |job.tests|);
      var e := Execution(SummarizeVerdict(rs), Count(rs, ACCEPTED), |job.tests|, rs);
      Sound(job.tests, e) && Reports(e)
  {
    var rs := Results(job, Start(gone), |job.tests|);
    OneResultPerTest(job, Start(gone));
    AcceptedIffAllPass(rs);
    forall k: nat | FirstFails(rs, k)
      ensures SummarizeVerdict(rs) == if rs[k].verdict == SKIPPED then TIME_LIMIT_EXCEEDED else rs[k].verdict
    {
      FirstFailureDecides(rs, k);
    }
  }

  /** All tests accepted means every expected output was matched. */
  lemma AllPassedIsAccepted(tests: seq<Test>, e: Execution)
    requires Sound(tests, e) && e.passed == e.total
    ensures e.verdict == ACCEPTED
  {
    CountAll(e.tests, ACCEPTED);
  }

  lemma {:induction false} CountAll(rs: seq<TestResult>, v: Verdict)
    ensures Count(rs, v) <= |rs|
    ensures Count(rs, v) == |rs| ==> forall i :: 0 <= i < |rs| ==> rs[i].verdict == v
  {
    if rs != [] { CountAll(rs[..|rs| - 1], v); }
  }

  /** The judge. The names of the submitted files must be exactly those of the language; the container is always
      torn down; a run in a container that is gone never is the reason for giving up. */
  method Judge(job: Job, files: set<string>, expectedFiles: set<string>, created: bool, written: bool, compiler: Option<Raw>)
    returns (j: Judgement, box: Sandbox?)
    requires job.tests != []
    ensures box == null || (fresh(box) && box.destroyed)
    ensures j.Finished? ==> Sound(job.tests, j.result)
    ensures j.Failed? ==> !j.cause.AlreadyDestroyed?
    ensures var named := files != {} && files == expectedFiles;
      var broken := !created || !written || (compiler.Some? && compiler.value.NotStarted?);
      var compiled := compiler.None? || (compiler.value.Ran? && compiler.value.code == Some(0));
      (!named ==>
        box == null && j.Finished? && j.result.verdict == INTERNAL_ERROR && j.result.passed == 0 &&
        forall i :: 0 <= i < |j.result.tests| ==> NotRun(j.result.tests[i], SKIPPED)) &&
      (named && broken ==> j.Failed?) &&
      (named && !broken && !compiled ==>
        j.Finished? && j.result.verdict == COMPILATION_ERROR && j.result.passed == 0 &&
        forall i :: 0 <= i < |j.result.tests| ==> NotRun(j.result.tests[i], COMPILATION_ERROR)) &&
      (named && !broken && compiled ==>
        var st := Start(compiler.Some? && (compiler.value.overflow || compiler.value.timedOut));
        (j.Finished? <==> DockerWorks(job, st, |job.tests|)) &&
        (j.Finished? ==>
          j.result.tests == Results(job, st, |job.tests|) && j.result.verdict == SummarizeVerdict(j.result.tests) &&
          Reports(j.result)))
  {
    box := null;
    if files == {} || files != expectedFiles {
      UniformSound(job.tests, SKIPPED, INTERNAL_ERROR);
      return Finished(Execution(INTERNAL_ERROR, 0, |job.tests|, Uniform(job.tests, SKIPPED))), box;
    }
    if !created { return Failed(DockerError), box; }
    var sandbox := new Sandbox();
    box := sandbox;
    if !written {
      sandbox.Destroy();
      return Failed(DockerError), box;
    }
    if compiler.Some? {
      var compiled := sandbox.Exec(compiler.value);
      if !compiled.Done? {
        sandbox.Destroy();
        return Failed(compiled), box;
      }
      if compiled.run.code != Some(0) {
        sandbox.Destroy();
        UniformSound(job.tests, COMPILATION_ERROR, COMPILATION_ERROR);
        return Finished(Execution(COMPILATION_ERROR, 0, |job.tests|, Uniform(job.tests, COMPILATION_ERROR))), box;
      }
    }
    ghost var gone := sandbox.destroyed;
    var out := RunTests(job, sandbox);
    sandbox.Destroy();
    if out.InfrastructureError? { return Failed(out.cause), box; }
    SummarySound(job, gone);
    j := Finished(Execution(SummarizeVerdict(out.results), Count(out.results, ACCEPTED), |job.tests|, out.results));
  }
}
