/** How one benchmark of a stress job ends: `runBenchmark` of features/stress/manager.go. The platform,
    the deployment, the clock, the script and its output belong to the environment and are given. */
module StressBenchmark {
  import opened GoText
  import opened StressReport

  /** Durations and moments are in nanoseconds. */
  const HOUR: int := 3600_000_000_000

  /** What is checked before the script is run. */
  datatype Deployment = Deployment(linux: bool, enabled: bool, script: bool, resultDir: bool, snapshot: bool)

  /** One call of `runBenchmark`: the job's context is cancelled at `cancelAt`, the time limit counts
      from `start` and its timer fires `late` after it is up, the two context checks that follow the
      command are made at `firstCheck` and `secondCheck`. */
  datatype BenchmarkRun = BenchmarkRun(
    deployment: Deployment,
    configured: int,
    override: int,
    start: int,
    cancelAt: Option<int>,
    late: nat,
    firstCheck: int,
    secondCheck: int,
    commandOk: bool,
    parseOk: bool,
    output: string)

  datatype ContextError = Live | Canceled | DeadlineExceeded

  function EffectiveTimeout(configured: int): int {
    if configured <= 0 then HOUR else configured
  }

  /** The time limit of the run: an override can only shorten the configured one. */
  function Limit(run: BenchmarkRun): int {
    var timeout := EffectiveTimeout(run.configured);
    if 0 < run.override < timeout then run.override else timeout
  }

  predicate Deployed(name: string, d: Deployment) {
    d.linux && d.enabled && d.script && (name == "hpcg" ==> d.resultDir && d.snapshot)
  }

  predicate WellTimed(run: BenchmarkRun) {
    run.start <= run.firstCheck <= run.secondCheck
  }

  predicate CancelledBy(run: BenchmarkRun, t: int) {
    run.cancelAt.Some? && run.cancelAt.value <= t
  }

  function TimerFires(run: BenchmarkRun): int {
    run.start + Limit(run) + run.late
  }

  /** `Err` of the run's own context at moment `t`: whichever of cancellation and time limit came
      first decides it for good. */
  function RunError(run: BenchmarkRun, t: int): ContextError {
    if CancelledBy(run, t) && run.cancelAt.value <= TimerFires(run) then Canceled
    else if TimerFires(run) <= t then DeadlineExceeded
    else Live
  }

  function JobError(run: BenchmarkRun, t: int): ContextError {
    if CancelledBy(run, t) then Canceled else Live
  }

  /** The status `runBenchmark` returns. */
  function RunStatus(name: string, run: BenchmarkRun): Status {
    if !run.deployment.linux then Unsupported
    else if !Deployed(name, run.deployment) then Unavailable
    else if RunError(run, run.firstCheck).DeadlineExceeded? then
      (if name == "npu_burn" then Unhealthy else TimeLimitReached)
    else if JobError(run, run.secondCheck).Canceled? then Cancelled
    else if !run.commandOk then Unhealthy
    else if !run.parseOk then Unhealthy
    else Healthy
  }

  /** A benchmark that was not executed to an end of its own: a deployment check failed, or the
      job was cancelled. */
  predicate Stopped(s: Status) {
    s == Unavailable || s == Unsupported || s == Cancelled
  }

  /** Whatever script, clock and parser do in a run that is set up like this one. */
  predicate SameSetup(run: BenchmarkRun, other: BenchmarkRun) {
    && other.deployment == run.deployment && other.start == run.start && other.cancelAt == run.cancelAt
    && other.configured == run.configured && other.override == run.override
  }

  ghost predicate StoppedForSure(name: string, run: BenchmarkRun) {
    forall other :: SameSetup(run, other) && WellTimed(other) ==> Stopped(RunStatus(name, other))
  }

  /** A benchmark is stopped whatever script, clock and parser do exactly when a deployment check
      fails or its job was cancelled when the script was to start. */
  lemma StoppedForSureExactly(name: string, run: BenchmarkRun)
    ensures StoppedForSure(name, run) <==> !Deployed(name, run.deployment) || CancelledBy(run, run.start)
  {
    if !Deployed(name, run.deployment) || CancelledBy(run, run.start) {
      assert StoppedForSure(name, run);
    } else {
      var prompt := run.(late := 0, firstCheck := run.start, secondCheck := run.start);
      assert SameSetup(run, prompt) && WellTimed(prompt) && !Stopped(RunStatus(name, prompt));
    }
  }

  /** A run is reported cancelled only if its job was, by the end of the command, and the time limit
      had not cut the command off before. */
  lemma CancelledOnlyByCancel(name: string, run: BenchmarkRun)
    requires WellTimed(run) && RunStatus(name, run) == Cancelled
    ensures Deployed(name, run.deployment) && CancelledBy(run, run.secondCheck)
    ensures TimerFires(run) <= run.firstCheck ==> run.cancelAt.value <= TimerFires(run)
  {
  }

  /** What the environment did to the run, as it befell: nothing, a check before the script, the time limit,
      a cancellation. */
  predicate Refused(name: string, run: BenchmarkRun) {
    var d := run.deployment;
    !d.enabled || !d.script || (name == "hpcg" && (!d.resultDir || !d.snapshot))
  }

  /** An hour unless configured, and no longer than a positive override. */
  predicate IsLimit(run: BenchmarkRun, limit: int) {
    var most := if run.configured > 0 then run.configured else 3600_000_000_000;
    limit == (if run.override > 0 && run.override < most then run.override else most)
  }

  /** The timer had fired when the command was over, and before any cancellation. */
  predicate CutOff(run: BenchmarkRun, limit: int) {
    var fires := run.start + limit + run.late;
    fires <= run.firstCheck && (run.cancelAt.Some? ==> run.cancelAt.value > fires)
  }

  /** Which run has which result. */
  lemma ResultExactly(name: string, run: BenchmarkRun, limit: int)
    requires WellTimed(run) && IsLimit(run, limit)
    ensures var checked := run.deployment.linux && !Refused(name, run);
      var ended := checked && !CutOff(run, limit);
      var whole := ended && !(run.cancelAt.Some? && run.cancelAt.value <= run.secondCheck);
      && (RunStatus(name, run) == Unsupported <==> !run.deployment.linux)
      && (RunStatus(name, run) == Unavailable <==> run.deployment.linux && Refused(name, run))
      && (RunStatus(name, run) == TimeLimitReached <==> checked && CutOff(run, limit) && name != "npu_burn")
      && (RunStatus(name, run) == Cancelled <==> ended && run.cancelAt.Some? && run.cancelAt.value <= run.secondCheck)
      && (RunStatus(name, run) == Healthy <==> whole && run.commandOk && run.parseOk)
      && (RunStatus(name, run) == Unhealthy <==>
            (whole && !(run.commandOk && run.parseOk)) || (checked && CutOff(run, limit) && name == "npu_burn"))
  {
  }
}
