/** The job protocol of features/stress/manager.go and joblock_linux.go: managers in several
    processes share one non-empty report path, and with it a kernel lock, a report file and a
    history file. Each `Act` is one atomic step; between any two steps of one manager every
    other manager may move, and any manager may crash. */
module StressJobs {
  import opened GoText
  import opened StressReport
  import opened StressBenchmark

  const MAX_HISTORY_REPORTS: nat := 100

  type Pid = nat

  /** A job as its manager holds it in memory. `cancelled` says how many of its benchmarks had begun
      when cancellation was first requested. */
  datatype Job = Job(report: Report, names: seq<string>, cancelled: Option<nat>)

  /** How far a manager is with its job. */
  datatype Phase =
    | Idle
    | Acquired(job: Job)
    | Ready(job: Job, k: nat)
    | Executing(job: Job, k: nat)
    | Concluded(job: Job)
    | HistoryRead(job: Job, seen: seq<Report>)
    | Archived(job: Job)

  /** What the processes share. `attempted`, `recorded` and `ids` are history variables: the
      final reports handed to the history file, those of them it took, and the job ids used. */
  datatype Shared = Shared(
    lock: Option<Pid>,
    report: Option<Report>,
    history: Option<seq<Report>>,
    attempted: seq<Report>,
    recorded: seq<Report>,
    ids: set<string>)

  /** One atomic step. An `ok` says whether its file operation succeeds. */
  datatype Act =
    | Acquire(names: seq<string>, id: string)
    | Refuse
    | PersistInitial(ok: bool)
    | Begin(ok: bool)
    | Finish(run: BenchmarkRun, ok: bool)
    | Conclude(ok: bool)
    | ReadHistory(ok: bool)
    | WriteHistory(ok: bool)
    | Release
    | RequestCancel(id: string)
    | Crash

  // ----- the history file -----------------------------------------------------------------

  function StripOutputs(bs: seq<Benchmark>): (r: seq<Benchmark>)
    ensures |r| == |bs|
  {
    seq(|bs|, i requires 0 <= i < |bs| => bs[i].(output := ""))
  }

  /** A report as the history keeps it. */
  function ArchiveOf(r: Report): Report {
    r.(cancellable := false, benchmarks := StripOutputs(r.benchmarks))
  }

  /** The history keeps a report as it is, but for the outputs of its benchmarks and the mark that it can be
      cancelled. */
  lemma ArchivedExactly(r: Report)
    ensures var a := ArchiveOf(r);
      && a.jobId == r.jobId && a.status == r.status && a.persistFailed == r.persistFailed && !a.cancellable
      && |a.benchmarks| == |r.benchmarks|
      && forall i :: 0 <= i < |r.benchmarks| ==>
           a.benchmarks[i] == Benchmark(r.benchmarks[i].name, r.benchmarks[i].status, "")
  {
  }

  function WithoutJob(rs: seq<Report>, id: string): seq<Report> {
    if rs == [] then []
    else if rs[0].jobId == id then WithoutJob(rs[1..], id)
    else [rs[0]] + WithoutJob(rs[1..], id)
  }

  function AtMost<T>(s: seq<T>, n: nat): seq<T> {
    if |s| <= n then s else s[..n]
  }

  /** The history file after `archived` has been put in front. */
  function Appended(rs: seq<Report>, archived: Report): seq<Report> {
    AtMost([archived] + WithoutJob(rs, archived.jobId), MAX_HISTORY_REPORTS)
  }

  /** The last reports of a log, newest first, as many as the history keeps. */
  function NewestFirst(log: seq<Report>): seq<Report> {
    seq(if |log| < MAX_HISTORY_REPORTS then |log| else MAX_HISTORY_REPORTS,
        i requires 0 <= i < |log| => log[|log| - 1 - i])
  }

  function HistoryOf(sh: Shared): seq<Report> {
    match sh.history
    case Some(rs) => rs
    case None => []
  }

  lemma {:induction false} WithoutAbsentJob(rs: seq<Report>, id: string)
    requires forall i :: 0 <= i < |rs| ==> rs[i].jobId != id
    ensures WithoutJob(rs, id) == rs
  {
    if rs != [] {
      WithoutAbsentJob(rs[1..], id);
    }
  }

  /** Reading, prepending and cutting keeps the file in step with the log. */
  lemma AppendedIsNewestFirst(log: seq<Report>, r: Report)
    requires forall i :: 0 <= i < |log| ==> log[i].jobId != r.jobId
    ensures Appended(NewestFirst(log), r) == NewestFirst(log + [r])
  {
    WithoutAbsentJob(NewestFirst(log), r.jobId);
  }

  /** Whatever the file held before, the new report comes first, no other report of the same
      job stays, and nothing else is dropped or reordered except from the end. */
  lemma {:induction false} WithoutJobKeepsTheRest(rs: seq<Report>, id: string)
    ensures forall r :: r in WithoutJob(rs, id) <==> r in rs && r.jobId != id
    ensures forall n :: 0 <= n <= |rs| ==> WithoutJob(rs[..n], id) <= WithoutJob(rs, id)
  {
    if rs != [] {
      WithoutJobKeepsTheRest(rs[1..], id);
      forall n | 0 <= n <= |rs|
        ensures WithoutJob(rs[..n], id) <= WithoutJob(rs, id)
      {
        if n > 0 {
          assert rs[..n][1..] == rs[1..][..n - 1];
        }
      }
    }
  }

  // ----- steps ----------------------------------------------------------------------------

  function InitialReport(names: seq<string>, id: string): Report {
    Report(id, Running, seq(|names|, i requires 0 <= i < |names| => Benchmark(names[i], Pending, "")), false, false)
  }

  /** `persistReportLocked`: the file takes the report, or the report remembers the failure. */
  function Persisted(file: Option<Report>, r: Report, ok: bool): (Option<Report>, Report) {
    if ok then (Some(r.(persistFailed := false)), r.(persistFailed := false))
    else (file, r.(persistFailed := true))
  }

  function WithBenchmark(r: Report, b: Benchmark): Report {
    r.(benchmarks := Replaced(r.benchmarks, b))
  }

  /** How many benchmarks have begun. */
  function Begun(bs: seq<Benchmark>): nat {
    if bs == [] then 0 else Begun(bs[..|bs| - 1]) + (if bs[|bs| - 1].status == Pending then 0 else 1)
  }

  /** Benchmark `k` begins, or began, after cancellation was requested. */
  predicate Doomed(job: Job, k: nat) {
    job.cancelled.Some? && job.cancelled.value <= k
  }

  /** A run of benchmark `k` within its job: the job's context is the run's, so it is cancelled when the
      job was, and from the start when the job was cancelled before the benchmark began. */
  predicate RunMatches(job: Job, k: nat, run: BenchmarkRun) {
    && WellTimed(run)
    && (run.cancelAt.Some? <==> job.cancelled.Some?)
    && (Doomed(job, k) ==> CancelledBy(run, run.start))
  }

  /** The result that benchmark `name` leaves. */
  function ResultOf(name: string, run: BenchmarkRun): Benchmark {
    Benchmark(name, RunStatus(name, run), run.output)
  }

  /** Whether a manager in phase `ph` can take the step. The fresh id is the random one the
      source draws; a crash is always possible. */
  predicate Enabled(p: Pid, sh: Shared, ph: Phase, act: Act) {
    match act
    case Acquire(names, id) => ph.Idle? && sh.lock.None? && names != [] && Distinct(names) && id !in sh.ids
    case Refuse => (ph.Idle? && sh.lock.Some?) || ph.Ready? || ph.Executing?
    case PersistInitial(_) => ph.Acquired?
    case Begin(_) => ph.Ready? && ph.k < |ph.job.names|
    case Finish(run, _) => ph.Executing? && ph.k < |ph.job.names| && RunMatches(ph.job, ph.k, run)
    case Conclude(_) => ph.Ready? && ph.k >= |ph.job.names|
    case ReadHistory(_) => ph.Concluded?
    case WriteHistory(_) => ph.HistoryRead?
    case Release => ph.Archived?
    case RequestCancel(_) => ph.Idle? || ph.Ready? || ph.Executing?
    case Crash => true
  }

  /** The effect of a step on the shared state and on the manager that takes it. */
  function Apply(p: Pid, sh: Shared, ph: Phase, act: Act): (Shared, Phase)
    requires Enabled(p, sh, ph, act)
  {
    match act
    case Acquire(names, id) =>
      (sh.(lock := Some(p), ids := sh.ids + {id}), Acquired(Job(InitialReport(names, id), names, None)))
    case Refuse => (sh, ph)
    case PersistInitial(ok) =>
      var (file, r) := Persisted(sh.report, ph.job.report, ok);
      if ok then (sh.(report := file), Ready(ph.job.(report := r), 0)) else (sh.(lock := None), Idle)
    case Begin(ok) =>
      var (file, r) := Persisted(sh.report, WithBenchmark(ph.job.report, Benchmark(ph.job.names[ph.k], Running, "")), ok);
      (sh.(report := file), Executing(ph.job.(report := r), ph.k))
    case Finish(run, ok) =>
      var (file, r) := Persisted(sh.report, WithBenchmark(ph.job.report, ResultOf(ph.job.names[ph.k], run)), ok);
      (sh.(report := file), Ready(ph.job.(report := r), ph.k + 1))
    case Conclude(ok) =>
      var (file, r) := Persisted(sh.report, ph.job.report.(status := Overall(ph.job.report.benchmarks)), ok);
      (sh.(report := file), Concluded(ph.job.(report := r)))
    case ReadHistory(ok) =>
      if ok then (sh, HistoryRead(ph.job, HistoryOf(sh)))
      else (sh.(attempted := sh.attempted + [ArchiveOf(ph.job.report)]), Archived(ph.job))
    case WriteHistory(ok) =>
      var a := ArchiveOf(ph.job.report);
      var tried := sh.(attempted := sh.attempted + [a]);
      if ok then (tried.(history := Some(Appended(ph.seen, a)), recorded := sh.recorded + [a]), Archived(ph.job))
      else (tried, Archived(ph.job))
    case Release => (sh.(lock := None), Idle)
    case RequestCancel(id) =>
      if !ph.Idle? && ph.job.report.jobId == id then (sh, WithCancel(ph)) else (sh, ph)
    case Crash => (if sh.lock == Some(p) then sh.(lock := None) else sh, Idle)
  }

  function CancelledJob(job: Job): Job {
    if job.cancelled.Some? then job else job.(cancelled := Some(Begun(job.report.benchmarks)))
  }

  function WithCancel(ph: Phase): Phase
    requires ph.Ready? || ph.Executing?
  {
    if ph.Ready? then Ready(CancelledJob(ph.job), ph.k) else Executing(CancelledJob(ph.job), ph.k)
  }

  // ----- the world ------------------------------------------------------------------------

  datatype World = World(procs: map<Pid, Phase>, sh: Shared)

  datatype Step = Step(p: Pid, act: Act)

  predicate CanStep(w: World, s: Step) {
    s.p in w.procs && Enabled(s.p, w.sh, w.procs[s.p], s.act)
  }

  function Next(w: World, s: Step): World
    requires CanStep(w, s)
  {
    var (sh, ph) := Apply(s.p, w.sh, w.procs[s.p], s.act);
    World(w.procs[s.p := ph], sh)
  }

  /** The managers `pids` before anything has happened on this report path. */
  function Start(pids: set<Pid>): World {
    World(map p | p in pids :: Idle, Shared(None, None, None, [], [], {}))
  }

  predicate IsRun(w: World, steps: seq<Step>)
    decreases |steps|
  {
    steps == [] || (CanStep(w, steps[0]) && IsRun(Next(w, steps[0]), steps[1..]))
  }

  function After(w: World, steps: seq<Step>): World
    requires IsRun(w, steps)
    decreases |steps|
  {
    if steps == [] then w else After(Next(w, steps[0]), steps[1..])
  }

  /** `w` can come about by some interleaving of steps of some managers. */
  ghost predicate Reachable(w: World) {
    exists pids: set<Pid>, steps: seq<Step> :: IsRun(Start(pids), steps) && After(Start(pids), steps) == w
  }

  // ----- the invariant ----------------------------------------------------------------------

  predicate HasRecorded(sh: Shared, id: string) {
    exists i :: 0 <= i < |sh.recorded| && sh.recorded[i].jobId == id
  }

  /** No command output is kept, and no reader is told that it may cancel. */
  predicate IsStripped(r: Report) {
    !r.cancellable && forall i :: 0 <= i < |r.benchmarks| ==> r.benchmarks[i].output == ""
  }

  /** A report as a finished job leaves it. */
  predicate IsFinal(r: Report) {
    && r.benchmarks != []
    && Distinct(Names(r.benchmarks))
    && (forall i :: 0 <= i < |r.benchmarks| ==> Terminal(r.benchmarks[i].status))
    && r.status == Overall(r.benchmarks)
  }

  predicate JobOk(sh: Shared, job: Job) {
    job.names != [] && Distinct(job.names) && Names(job.report.benchmarks) == job.names && job.report.jobId in sh.ids
  }

  /** Cancellation came when at most `begun` benchmarks had begun, none that began later has any other
      result than that it was stopped, and none that ended before is reported cancelled. */
  predicate CancelOk(job: Job, begun: nat) {
    && (job.cancelled.Some? ==> job.cancelled.value <= begun)
    && forall i :: 0 <= i < |job.report.benchmarks| ==> ResultFitsCancel(job, i, job.report.benchmarks[i].status)
  }

  predicate ResultFitsCancel(job: Job, i: nat, s: Status) {
    && (Terminal(s) && Doomed(job, i) ==> Stopped(s))
    && (s == Cancelled ==> job.cancelled.Some? && job.cancelled.value <= i + 1)
  }

  /** The report file is about this job, and says what the manager's memory says unless the
      last write failed. */
  predicate FileFollows(sh: Shared, job: Job) {
    && sh.report.Some? && sh.report.value.jobId == job.report.jobId
    && (!job.report.persistFailed ==> sh.report.value == job.report)
  }

  predicate PhaseOk(sh: Shared, ph: Phase) {
    match ph
    case Idle => true
    case Acquired(job) =>
      JobOk(sh, job) && CancelOk(job, 0) && Shape(job.report.benchmarks, 0, false) && job.report.status == Running &&
      !HasRecorded(sh, job.report.jobId)
    case Ready(job, k) =>
      JobOk(sh, job) && CancelOk(job, k) && Shape(job.report.benchmarks, k, false) && job.report.status == Running &&
      !HasRecorded(sh, job.report.jobId) && FileFollows(sh, job)
    case Executing(job, k) =>
      JobOk(sh, job) && CancelOk(job, k + 1) && Shape(job.report.benchmarks, k, true) && job.report.status == Running &&
      !HasRecorded(sh, job.report.jobId) && FileFollows(sh, job)
    case Concluded(job) =>
      JobOk(sh, job) && CancelOk(job, |job.names|) && IsFinal(job.report) && !HasRecorded(sh, job.report.jobId) && FileFollows(sh, job)
    case HistoryRead(job, seen) =>
      JobOk(sh, job) && CancelOk(job, |job.names|) && IsFinal(job.report) && !HasRecorded(sh, job.report.jobId) && FileFollows(sh, job) &&
      seen == HistoryOf(sh)
    case Archived(job) =>
      JobOk(sh, job) && CancelOk(job, |job.names|) && IsFinal(job.report) && FileFollows(sh, job) &&
      sh.attempted != [] && sh.attempted[|sh.attempted| - 1] == ArchiveOf(job.report)
  }

  predicate RecordsDistinct(sh: Shared) {
    forall i, j :: 0 <= i < j < |sh.recorded| ==> sh.recorded[i].jobId != sh.recorded[j].jobId
  }

  predicate RecordsFinal(sh: Shared) {
    forall i :: 0 <= i < |sh.recorded| ==>
      IsFinal(sh.recorded[i]) && IsStripped(sh.recorded[i]) && sh.recorded[i].jobId in sh.ids
  }

  predicate LogOk(sh: Shared) {
    HistoryOf(sh) == NewestFirst(sh.recorded) && RecordsFinal(sh) && RecordsDistinct(sh)
  }

  predicate Inv(w: World) {
    && LogOk(w.sh)
    && (w.sh.lock.Some? ==> w.sh.lock.value in w.procs)
    && (forall p :: p in w.procs ==> (w.procs[p].Idle? <==> w.sh.lock != Some(p)))
    && (forall p :: p in w.procs ==> PhaseOk(w.sh, w.procs[p]))
  }

  lemma ArchiveIsFinal(r: Report)
    requires IsFinal(r)
    ensures IsFinal(ArchiveOf(r))
  {
    var a := ArchiveOf(r).benchmarks;
    assert Names(a) == Names(r.benchmarks);
    assert Statuses(a) == Statuses(r.benchmarks) by {
      assert forall i :: 0 <= i < |a| ==> a[i].status == r.benchmarks[i].status;
    }
    OverallIgnoresOrder(a, r.benchmarks);
  }

  lemma {:induction false} BegunOfShape(bs: seq<Benchmark>, k: nat, under: bool)
    requires Shape(bs, k, under)
    ensures Begun(bs) == k + (if under then 1 else 0)
    decreases |bs|
  {
    if bs != [] {
      var n, begun := |bs| - 1, k + (if under then 1 else 0);
      if begun < |bs| {
        BegunOfShape(bs[..n], k, under);
      } else if under {
        BegunOfShape(bs[..n], k, false);
      } else {
        BegunOfShape(bs[..n], k - 1, false);
      }
    }
  }

  lemma CancelKeepsPhaseOk(sh: Shared, ph: Phase)
    requires PhaseOk(sh, ph) && (ph.Ready? || ph.Executing?)
    ensures PhaseOk(sh, WithCancel(ph))
  {
    BegunOfShape(ph.job.report.benchmarks, ph.k, ph.Executing?);
  }

  /** One step of an active manager keeps its own part of the invariant. */
  lemma ApplyKeepsPhaseOk(p: Pid, sh: Shared, ph: Phase, act: Act)
    requires LogOk(sh) && PhaseOk(sh, ph) && Enabled(p, sh, ph, act)
    requires act.Acquire? || act.PersistInitial? || act.ReadHistory? || act.Refuse? || act.Release? || act.Crash?
    ensures LogOk(Apply(p, sh, ph, act).0) && PhaseOk(Apply(p, sh, ph, act).0, Apply(p, sh, ph, act).1)
  {
    if act.Acquire? {
      assert Names(InitialReport(act.names, act.id).benchmarks) == act.names;
    }
  }

  lemma ConcludeKeepsPhaseOk(p: Pid, sh: Shared, ph: Phase, act: Act)
    requires LogOk(sh) && PhaseOk(sh, ph) && Enabled(p, sh, ph, act) && act.Conclude?
    ensures LogOk(Apply(p, sh, ph, act).0) && PhaseOk(Apply(p, sh, ph, act).0, Apply(p, sh, ph, act).1)
  {
  }

  /** Entry `k` of a job that is at entry `k` becomes `b`, which is then under way or done. */
  lemma ShapeAdvances(bs: seq<Benchmark>, k: nat, b: Benchmark)
    requires k < |bs| && b.name == bs[k].name && Distinct(Names(bs))
    ensures Names(Replaced(bs, b)) == Names(bs)
    ensures Shape(bs, k, false) && b.status == Running ==> Shape(Replaced(bs, b), k, true)
    ensures Shape(bs, k, true) && Terminal(b.status) ==> Shape(Replaced(bs, b), k + 1, false)
  {
    ReplacedAt(bs, b, k);
  }

  /** Entry `k` of a job that is at entry `k` becomes `b`, which is under way or a result that
      cancellation allows. */
  lemma CancelOkAdvances(job: Job, k: nat, under: bool, b: Benchmark)
    requires k < |job.report.benchmarks| && b.name == job.report.benchmarks[k].name
    requires Distinct(Names(job.report.benchmarks)) && CancelOk(job, k + (if under then 1 else 0))
    requires ResultFitsCancel(job, k, b.status)
    ensures CancelOk(job.(report := WithBenchmark(job.report, b)), k + 1)
  {
    ReplacedAt(job.report.benchmarks, b, k);
  }

  /** What a run of benchmark `k` can report, given when its job was cancelled. */
  lemma RunFitsCancel(job: Job, k: nat, run: BenchmarkRun)
    requires k < |job.names| && RunMatches(job, k, run) && CancelOk(job, k + 1)
    ensures Terminal(RunStatus(job.names[k], run)) && ResultFitsCancel(job, k, RunStatus(job.names[k], run))
  {
    StoppedForSureExactly(job.names[k], run);
    assert SameSetup(run, run);
    if RunStatus(job.names[k], run) == Cancelled {
      CancelledOnlyByCancel(job.names[k], run);
    }
  }

  /** The job after a benchmark has begun or ended, and the file after the report was written. */
  lemma PersistedKeepsJobOk(sh: Shared, job: Job, r: Report, ok: bool, begun: nat)
    requires JobOk(sh, job.(report := r)) && CancelOk(job.(report := r), begun) && r.jobId == job.report.jobId
    requires !HasRecorded(sh, r.jobId) && sh.report.Some? && sh.report.value.jobId == r.jobId
    ensures var (file, r') := Persisted(sh.report, r, ok);
      var sh', job' := sh.(report := file), job.(report := r');
      JobOk(sh', job') && CancelOk(job', begun) && !HasRecorded(sh', r'.jobId) && FileFollows(sh', job')
  {
  }

  lemma BenchmarkStepKeepsPhaseOk(p: Pid, sh: Shared, ph: Phase, act: Act)
    requires LogOk(sh) && PhaseOk(sh, ph) && Enabled(p, sh, ph, act)
    requires act.Begin? || act.Finish?
    ensures LogOk(Apply(p, sh, ph, act).0) && PhaseOk(Apply(p, sh, ph, act).0, Apply(p, sh, ph, act).1)
  {
    var bs, name := ph.job.report.benchmarks, ph.job.names[ph.k];
    assert bs[ph.k].name == Names(bs)[ph.k];
    var b := if act.Begin? then Benchmark(name, Running, "") else ResultOf(name, act.run);
    if act.Finish? {
      RunFitsCancel(ph.job, ph.k, act.run);
    }
    ShapeAdvances(bs, ph.k, b);
    CancelOkAdvances(ph.job, ph.k, act.Finish?, b);
    PersistedKeepsJobOk(sh, ph.job, WithBenchmark(ph.job.report, b), act.ok, ph.k + 1);
  }

  /** One more final report in the log, and in the file. */
  lemma RecordingKeepsLogOk(sh: Shared, r: Report)
    requires LogOk(sh) && IsFinal(r) && r.jobId in sh.ids && !HasRecorded(sh, r.jobId)
    ensures var a := ArchiveOf(r);
      LogOk(sh.(history := Some(Appended(HistoryOf(sh), a)), recorded := sh.recorded + [a],
                attempted := sh.attempted + [a]))
  {
    var a := ArchiveOf(r);
    var sh' := sh.(history := Some(Appended(HistoryOf(sh), a)), recorded := sh.recorded + [a],
                   attempted := sh.attempted + [a]);
    assert RecordsFinal(sh') by {
      ArchiveIsFinal(r);
    }
    assert RecordsDistinct(sh');
    AppendedIsNewestFirst(sh.recorded, a);
  }

  lemma WriteHistoryKeepsPhaseOk(p: Pid, sh: Shared, ph: Phase, act: Act)
    requires LogOk(sh) && PhaseOk(sh, ph) && Enabled(p, sh, ph, act) && act.WriteHistory?
    ensures LogOk(Apply(p, sh, ph, act).0) && PhaseOk(Apply(p, sh, ph, act).0, Apply(p, sh, ph, act).1)
  {
    RecordingKeepsLogOk(sh, ph.job.report);
  }

  /** Beginning or finishing a benchmark rewrites its own entry of the list and no other. */
  lemma BenchmarkStepRewritesOneEntry(w: World, s: Step)
    requires Reachable(w) && CanStep(w, s) && (s.act.Begin? || s.act.Finish?)
    ensures var ph := w.procs[s.p]; var bs := ph.job.report.benchmarks;
      && ph.k < |bs|
      && Next(w, s).procs[s.p].job.report.benchmarks ==
         bs[ph.k := if s.act.Begin? then Benchmark(bs[ph.k].name, Running, "")
                    else ResultOf(bs[ph.k].name, s.act.run)]
  {
    ReachableIsOk(w);
    var ph := w.procs[s.p];
    var bs := ph.job.report.benchmarks;
    assert bs[ph.k].name == Names(bs)[ph.k];
    ReplacedAt(bs, if s.act.Begin? then Benchmark(bs[ph.k].name, Running, "") else ResultOf(bs[ph.k].name, s.act.run), ph.k);
  }

  /** Taking and releasing the lock goes with becoming active and idle, and leaves other
      holders alone. */
  lemma ApplyMovesLock(p: Pid, sh: Shared, ph: Phase, act: Act)
    requires Enabled(p, sh, ph, act) && (ph.Idle? <==> sh.lock != Some(p))
    ensures Apply(p, sh, ph, act).1.Idle? <==> Apply(p, sh, ph, act).0.lock != Some(p)
    ensures Apply(p, sh, ph, act).0.lock in {sh.lock, Some(p), None}
    ensures sh.lock.Some? && sh.lock != Some(p) ==> Apply(p, sh, ph, act).0.lock == sh.lock
  {
  }

  lemma StepKeepsPhaseOk(p: Pid, sh: Shared, ph: Phase, act: Act)
    requires LogOk(sh) && PhaseOk(sh, ph) && Enabled(p, sh, ph, act)
    ensures LogOk(Apply(p, sh, ph, act).0) && PhaseOk(Apply(p, sh, ph, act).0, Apply(p, sh, ph, act).1)
  {
    if act.Begin? || act.Finish? {
      BenchmarkStepKeepsPhaseOk(p, sh, ph, act);
    } else if act.WriteHistory? {
      WriteHistoryKeepsPhaseOk(p, sh, ph, act);
    } else if act.Conclude? {
      ConcludeKeepsPhaseOk(p, sh, ph, act);
    } else if act.RequestCancel? {
      if !ph.Idle? {
        CancelKeepsPhaseOk(sh, ph);
      }
    } else {
      ApplyKeepsPhaseOk(p, sh, ph, act);
    }
  }

  lemma NextKeepsInv(w: World, s: Step)
    requires Inv(w) && CanStep(w, s)
    ensures Inv(Next(w, s))
  {
    StepKeepsPhaseOk(s.p, w.sh, w.procs[s.p], s.act);
    ApplyMovesLock(s.p, w.sh, w.procs[s.p], s.act);
  }

  lemma {:induction false} RunKeepsInv(w: World, steps: seq<Step>)
    requires Inv(w) && IsRun(w, steps)
    ensures Inv(After(w, steps))
    decreases |steps|
  {
    if steps != [] {
      NextKeepsInv(w, steps[0]);
      RunKeepsInv(Next(w, steps[0]), steps[1..]);
    }
  }

  lemma ReachableIsOk(w: World)
    requires Reachable(w)
    ensures Inv(w)
  {
    var pids, steps :| IsRun(Start(pids), steps) && After(Start(pids), steps) == w;
    RunKeepsInv(Start(pids), steps);
  }

  // ----- one manager on its own -------------------------------------------------------------

  /** The steps `acts`, taken by one manager with no other moving in between. */
  predicate CanPerform(p: Pid, sh: Shared, ph: Phase, acts: seq<Act>)
    decreases |acts|, 0
  {
    acts == [] ||
    (CanPerform(p, sh, ph, acts[..|acts| - 1]) &&
     var (sh', ph') := Performed(p, sh, ph, acts[..|acts| - 1]);
     Enabled(p, sh', ph', acts[|acts| - 1]))
  }

  function Performed(p: Pid, sh: Shared, ph: Phase, acts: seq<Act>): (Shared, Phase)
    requires CanPerform(p, sh, ph, acts)
    decreases |acts|, 1
  {
    if acts == [] then (sh, ph)
    else
      var (sh', ph') := Performed(p, sh, ph, acts[..|acts| - 1]);
      Apply(p, sh', ph', acts[|acts| - 1])
  }

  lemma PerformedThen(p: Pid, sh: Shared, ph: Phase, acts: seq<Act>, act: Act)
    requires CanPerform(p, sh, ph, acts)
    requires Enabled(p, Performed(p, sh, ph, acts).0, Performed(p, sh, ph, acts).1, act)
    ensures CanPerform(p, sh, ph, acts + [act])
    ensures Performed(p, sh, ph, acts + [act]) ==
            Apply(p, Performed(p, sh, ph, acts).0, Performed(p, sh, ph, acts).1, act)
  {
    assert (acts + [act])[..|acts|] == acts;
  }

  lemma {:induction false} AfterOneMore(w: World, steps: seq<Step>, s: Step)
    requires IsRun(w, steps) && CanStep(After(w, steps), s)
    ensures IsRun(w, steps + [s]) && After(w, steps + [s]) == Next(After(w, steps), s)
    decreases |steps|
  {
    var all := steps + [s];
    if steps == [] {
      assert all == [s] && all[1..] == [];
    } else {
      AfterOneMore(Next(w, steps[0]), steps[1..], s);
      assert all[0] == steps[0] && all[1..] == steps[1..] + [s];
    }
  }

  function WorldWith(w: World, p: Pid, outcome: (Shared, Phase)): World {
    World(w.procs[p := outcome.1], outcome.0)
  }

  /** What a manager does on its own is one of the interleavings, so every guarantee below holds
      before and after each of its methods. */
  lemma {:induction false} PerformedIsReachable(w: World, p: Pid, acts: seq<Act>)
    requires Reachable(w) && p in w.procs && CanPerform(p, w.sh, w.procs[p], acts)
    ensures Reachable(WorldWith(w, p, Performed(p, w.sh, w.procs[p], acts)))
    decreases |acts|
  {
    if acts == [] {
      assert WorldWith(w, p, (w.sh, w.procs[p])) == w;
    } else {
      var before := acts[..|acts| - 1];
      PerformedIsReachable(w, p, before);
      var w' := WorldWith(w, p, Performed(p, w.sh, w.procs[p], before));
      var pids, steps :| IsRun(Start(pids), steps) && After(Start(pids), steps) == w';
      var s := Step(p, acts[|acts| - 1]);
      AfterOneMore(Start(pids), steps, s);
      assert Next(w', s) == WorldWith(w, p, Performed(p, w.sh, w.procs[p], acts));
    }
  }

  // ----- what every interleaving guarantees ---------------------------------------------------

  /** At most one job is active, and a manager has one exactly when it holds the lock. */
  lemma MutualExclusion(w: World, p: Pid, q: Pid)
    requires Reachable(w) && p in w.procs && q in w.procs
    ensures !w.procs[p].Idle? <==> w.sh.lock == Some(p)
    ensures !w.procs[p].Idle? && !w.procs[q].Idle? ==> p == q
  {
    ReachableIsOk(w);
  }

  /** Neither file ever changes except by a step of the manager that holds the lock. */
  lemma FilesChangeOnlyUnderLock(w: World, s: Step)
    requires Reachable(w) && CanStep(w, s)
    requires Next(w, s).sh.report != w.sh.report || Next(w, s).sh.history != w.sh.history
    ensures w.sh.lock == Some(s.p)
  {
    ReachableIsOk(w);
  }

  /** The steps that write the report file. */
  predicate WritesReport(act: Act) {
    act.PersistInitial? || act.Begin? || act.Finish? || act.Conclude?
  }

  /** What each step does to lock and files. A write of the report that succeeds leaves what the manager holds
      in memory, one that fails leaves the file and a mark; the history takes the report in front; the lock
      goes with the start of a job, its end, its failure to start, and a crash. */
  lemma StepOnFiles(w: World, s: Step)
    requires Reachable(w) && CanStep(w, s)
    ensures var w', ph' := Next(w, s), Next(w, s).procs[s.p];
      && (w'.sh.report == if WritesReport(s.act) && s.act.ok then Some(ph'.job.report) else w.sh.report)
      && (WritesReport(s.act) && !ph'.Idle? ==> ph'.job.report.persistFailed == !s.act.ok)
      && (s.act.PersistInitial? ==> ph'.Idle? == !s.act.ok)
      && (if s.act.WriteHistory? && s.act.ok
          then HistoryOf(w'.sh) != [] && HistoryOf(w'.sh)[0] == ArchiveOf(w.procs[s.p].job.report)
          else w'.sh.history == w.sh.history && w'.sh.recorded == w.sh.recorded)
      && (w'.sh.lock ==
          if s.act.Acquire? then Some(s.p)
          else if s.act.Release? || (s.act.PersistInitial? && !s.act.ok) || (s.act.Crash? && w.sh.lock == Some(s.p)) then None
          else w.sh.lock)
  {
    ReachableIsOk(w);
  }

  /** The step a manager takes next on its job. */
  function NextAct(ph: Phase, run: BenchmarkRun, ok: bool): Act
    requires !ph.Idle?
  {
    match ph
    case Acquired(_) => PersistInitial(ok)
    case Ready(job, k) => if k < |job.names| then Begin(ok) else Conclude(ok)
    case Executing(_, _) => Finish(run, ok)
    case Concluded(_) => ReadHistory(ok)
    case HistoryRead(_, _) => WriteHistory(ok)
    case Archived(_) => Release
  }

  /** A manager with a job always has a step to go on with, however its file operations turn out; and it
      may crash at any time. */
  lemma JobCanGoOn(w: World, p: Pid, ok: bool, run: BenchmarkRun)
    requires Reachable(w) && p in w.procs
    ensures CanStep(w, Step(p, Crash)) && Next(w, Step(p, Crash)).procs[p].Idle?
    ensures var ph := w.procs[p];
      ph.Idle? || (ph.Executing? && !RunMatches(ph.job, ph.k, run)) || CanStep(w, Step(p, NextAct(ph, run, ok)))
  {
    ReachableIsOk(w);
  }

  /** A start on an idle manager takes the lock exactly when it is free and is refused exactly when not. One on a
      manager that has a job is refused, and changes nothing. */
  lemma StartsExactlyWhenFree(w: World, p: Pid, names: seq<string>, id: string)
    requires Reachable(w) && p in w.procs && names != [] && Distinct(names) && id !in w.sh.ids
    ensures var free, start := forall q :: q in w.procs ==> w.procs[q].Idle?, Step(p, Acquire(names, id));
      && (w.procs[p].Idle? ==> (CanStep(w, start) <==> free) && (CanStep(w, Step(p, Refuse)) <==> !free))
      && (CanStep(w, start) ==> Next(w, start).procs[p].Acquired? && Next(w, start).sh.lock == Some(p))
      && (CanStep(w, Step(p, Refuse)) ==> !free && Next(w, Step(p, Refuse)) == w)
  {
    ReachableIsOk(w);
  }

  /** No update is lost: the history file is always the newest-first list of the last hundred
      reports it took, each from a different job that ran to its end. */
  lemma HistoryIsNewestFirst(w: World)
    requires Reachable(w)
    ensures HistoryOf(w.sh) == NewestFirst(w.sh.recorded)
    ensures var log := w.sh.recorded;
      && |HistoryOf(w.sh)| == (if |log| < 100 then |log| else 100)
      && forall i :: 0 <= i < |HistoryOf(w.sh)| ==> HistoryOf(w.sh)[i] == log[|log| - 1 - i]
    ensures forall i, j :: 0 <= i < j < |HistoryOf(w.sh)| ==> HistoryOf(w.sh)[i].jobId != HistoryOf(w.sh)[j].jobId
    ensures forall i :: 0 <= i < |HistoryOf(w.sh)| ==> IsFinal(HistoryOf(w.sh)[i]) && IsStripped(HistoryOf(w.sh)[i])
  {
    ReachableIsOk(w);
  }

  predicate HistoryFilesWork(steps: seq<Step>) {
    forall i :: 0 <= i < |steps| ==>
      (steps[i].act.ReadHistory? ==> steps[i].act.ok) && (steps[i].act.WriteHistory? ==> steps[i].act.ok)
  }

  lemma {:induction false} WorkingFilesRecordAll(w: World, steps: seq<Step>)
    requires IsRun(w, steps) && HistoryFilesWork(steps) && w.sh.attempted == w.sh.recorded
    ensures After(w, steps).sh.attempted == After(w, steps).sh.recorded
    decreases |steps|
  {
    if steps != [] {
      assert steps[0] in steps;
      WorkingFilesRecordAll(Next(w, steps[0]), steps[1..]);
    }
  }

  lemma ArchivedJobIsFirst(sh: Shared, ph: Phase)
    requires LogOk(sh) && PhaseOk(sh, ph) && ph.Archived? && sh.attempted == sh.recorded
    ensures HistoryOf(sh) != [] && HistoryOf(sh)[0] == ArchiveOf(ph.job.report)
  {
  }

  /** While the history file can be read and written, it lists the last hundred finished jobs,
      and a manager that is about to release the lock finds its own job first in it. */
  lemma EveryFinishedJobIsInHistory(pids: set<Pid>, steps: seq<Step>)
    requires IsRun(Start(pids), steps) && HistoryFilesWork(steps)
    ensures var w := After(Start(pids), steps);
      && HistoryOf(w.sh) == NewestFirst(w.sh.attempted)
      && forall p :: p in w.procs && w.procs[p].Archived? ==>
           HistoryOf(w.sh) != [] && HistoryOf(w.sh)[0] == ArchiveOf(w.procs[p].job.report)
  {
    RunKeepsInv(Start(pids), steps);
    WorkingFilesRecordAll(Start(pids), steps);
    var w := After(Start(pids), steps);
    forall p | p in w.procs && w.procs[p].Archived?
      ensures HistoryOf(w.sh) != [] && HistoryOf(w.sh)[0] == ArchiveOf(w.procs[p].job.report)
    {
      ArchivedJobIsFirst(w.sh, w.procs[p]);
    }
  }

  /** How far the benchmark list of a manager's job is, and whether one is under way. */
  function Progress(ph: Phase): (nat, bool)
    requires !ph.Idle?
  {
    match ph
    case Acquired(_) => (0, false)
    case Ready(_, k) => (k, false)
    case Executing(_, k) => (k, true)
    case Concluded(job) => (|job.report.benchmarks|, false)
    case HistoryRead(job, _) => (|job.report.benchmarks|, false)
    case Archived(job) => (|job.report.benchmarks|, false)
  }

  /** Results, at most one benchmark under way, then benchmarks not begun, under distinct names;
      a job that has run its list has a result for every entry, and its status is their join. */
  lemma ReportKeepsShape(w: World, p: Pid)
    requires Reachable(w) && p in w.procs && !w.procs[p].Idle?
    ensures var ph := w.procs[p]; var r := ph.job.report;
      && Distinct(Names(r.benchmarks))
      && Shape(r.benchmarks, Progress(ph).0, Progress(ph).1)
      && (r.status == Running <==> ph.Acquired? || ph.Ready? || ph.Executing?)
      && (r.status != Running ==> IsFinal(r))
  {
    ReachableIsOk(w);
  }

  /** What a refused start reports: its own job, or what the report file holds. */
  function RefusalReport(sh: Shared, ph: Phase): Option<Report> {
    if ph.Idle? then sh.report else Some(ph.job.report)
  }

  /** A refused start is told of the very job that holds the lock, unless that job has not yet
      written its first report. */
  lemma RefusalNamesTheHolder(w: World, p: Pid, q: Pid)
    requires Reachable(w) && p in w.procs && q in w.procs
    requires Enabled(p, w.sh, w.procs[p], Refuse)
    requires !w.procs[q].Idle? && !w.procs[q].Acquired?
    ensures RefusalReport(w.sh, w.procs[p]).Some?
    ensures RefusalReport(w.sh, w.procs[p]).value.jobId == w.procs[q].job.report.jobId
  {
    ReachableIsOk(w);
  }

  /** Cancelling reaches only the manager's own job: no file, no lock and no other manager
      changes, and with another job's id nothing changes at all. */
  lemma CancelIsLocal(w: World, s: Step, q: Pid)
    requires Reachable(w) && CanStep(w, s) && s.act.RequestCancel? && q in w.procs
    ensures Next(w, s).sh == w.sh
    ensures Next(w, s).procs[q] != w.procs[q] ==>
              q == s.p && !w.procs[q].Idle? && w.procs[q].job.report.jobId == s.act.id &&
              Next(w, s).procs[q].job == CancelledJob(w.procs[q].job)
  {
  }

  /** Manager `p` has the job with that id, and cancellation of it was requested when `c` of its
      benchmarks had begun. */
  predicate CancelledWith(w: World, p: Pid, id: string, c: nat) {
    p in w.procs && !w.procs[p].Idle? && w.procs[p].job.report.jobId == id && w.procs[p].job.cancelled == Some(c)
  }

  predicate HasJob(w: World, p: Pid, id: string) {
    p in w.procs && !w.procs[p].Idle? && w.procs[p].job.report.jobId == id
  }

  /** A manager goes on with the same job and the same cancellation, or lets go of it, or, idle, takes
      up a job with a new id. */
  lemma ApplyKeepsCancelled(p: Pid, sh: Shared, ph: Phase, act: Act)
    requires Enabled(p, sh, ph, act)
    ensures sh.ids <= Apply(p, sh, ph, act).0.ids
    ensures var ph' := Apply(p, sh, ph, act).1;
      ph'.Idle? ||
      (if ph.Idle? then ph'.job.report.jobId !in sh.ids
       else ph'.job.report.jobId == ph.job.report.jobId &&
            (ph.job.cancelled.Some? ==> ph'.job.cancelled == ph.job.cancelled))
  {
  }

  lemma StepKeepsCancelled(w: World, s: Step, p: Pid, id: string, c: nat)
    requires CanStep(w, s) && p in w.procs && id in w.sh.ids
    requires HasJob(w, p, id) ==> CancelledWith(w, p, id, c)
    ensures id in Next(w, s).sh.ids && (HasJob(Next(w, s), p, id) ==> CancelledWith(Next(w, s), p, id, c))
  {
    ApplyKeepsCancelled(s.p, w.sh, w.procs[s.p], s.act);
    assert Next(w, s).sh == Apply(s.p, w.sh, w.procs[s.p], s.act).0;
    assert Next(w, s).procs[p] == if p == s.p then Apply(s.p, w.sh, w.procs[s.p], s.act).1 else w.procs[p];
  }

  lemma {:induction false} RunKeepsCancelled(w: World, steps: seq<Step>, p: Pid, id: string, c: nat)
    requires Inv(w) && IsRun(w, steps) && p in w.procs && id in w.sh.ids
    requires HasJob(w, p, id) ==> CancelledWith(w, p, id, c)
    ensures Inv(After(w, steps)) && p in After(w, steps).procs
    ensures HasJob(After(w, steps), p, id) ==> CancelledWith(After(w, steps), p, id, c)
    decreases |steps|
  {
    if steps != [] {
      NextKeepsInv(w, steps[0]);
      StepKeepsCancelled(w, steps[0], p, id, c);
      RunKeepsCancelled(Next(w, steps[0]), steps[1..], p, id, c);
    }
  }

  lemma PhaseStopsTheRest(sh: Shared, ph: Phase, c: nat)
    requires PhaseOk(sh, ph) && !ph.Idle? && ph.job.cancelled == Some(c)
    ensures var bs := ph.job.report.benchmarks;
      && (forall i :: c <= i < |bs| && Terminal(bs[i].status) ==> Stopped(bs[i].status))
      && (ph.job.report.status != Running && c < |bs| ==> Rank(ph.job.report.status) >= 1)
  {
    var r := ph.job.report;
    assert forall i :: c <= i < |r.benchmarks| ==> Doomed(ph.job, i);
    if r.status != Running && c < |r.benchmarks| {
      assert r.benchmarks[c] in r.benchmarks;
      OverallIsWorst(r.benchmarks);
    }
  }

  /** Once cancellation is requested, whatever else happens, no benchmark of the job that begins later
      is reported healthy, unhealthy or at its time limit; and if any was still to begin, the job does
      not end healthy. */
  lemma CancelStopsTheRest(w: World, p: Pid, steps: seq<Step>)
    requires Reachable(w) && p in w.procs && (w.procs[p].Ready? || w.procs[p].Executing?)
    requires w.procs[p].job.cancelled.None?
    requires IsRun(Next(w, Step(p, RequestCancel(w.procs[p].job.report.jobId))), steps)
    ensures var job := w.procs[p].job;
      var w' := After(Next(w, Step(p, RequestCancel(job.report.jobId))), steps);
      var c := Begun(job.report.benchmarks);
      HasJob(w', p, job.report.jobId) ==>
        var r := w'.procs[p].job.report;
        && (forall i :: c <= i < |r.benchmarks| && Terminal(r.benchmarks[i].status) ==> Stopped(r.benchmarks[i].status))
        && (r.status != Running && c < |r.benchmarks| ==> Rank(r.status) >= 1)
  {
    ReachableIsOk(w);
    var job := w.procs[p].job;
    var s, c := Step(p, RequestCancel(job.report.jobId)), Begun(job.report.benchmarks);
    NextKeepsInv(w, s);
    RunKeepsCancelled(Next(w, s), steps, p, job.report.jobId, c);
    var w' := After(Next(w, s), steps);
    if HasJob(w', p, job.report.jobId) {
      PhaseStopsTheRest(w'.sh, w'.procs[p], c);
    }
  }

  predicate NeverCancels(steps: seq<Step>, p: Pid, id: string) {
    forall i :: 0 <= i < |steps| ==> steps[i] != Step(p, RequestCancel(id))
  }

  predicate UncancelledIfHeld(w: World, p: Pid, id: string) {
    HasJob(w, p, id) ==> w.procs[p].job.cancelled.None?
  }

  lemma ApplyCancelsOnRequest(p: Pid, sh: Shared, ph: Phase, act: Act)
    requires Enabled(p, sh, ph, act)
    ensures var ph' := Apply(p, sh, ph, act).1;
      !ph'.Idle? && ph'.job.cancelled.Some? ==>
        !ph.Idle? && ph'.job.report.jobId == ph.job.report.jobId &&
        (ph.job.cancelled.Some? || act == RequestCancel(ph.job.report.jobId))
  {
  }

  lemma StepKeepsUncancelled(w: World, s: Step, p: Pid, id: string)
    requires CanStep(w, s) && UncancelledIfHeld(w, p, id) && s != Step(p, RequestCancel(id))
    ensures UncancelledIfHeld(Next(w, s), p, id)
  {
    if p in w.procs {
      ApplyCancelsOnRequest(s.p, w.sh, w.procs[s.p], s.act);
      assert Next(w, s).procs[p] == if p == s.p then Apply(s.p, w.sh, w.procs[s.p], s.act).1 else w.procs[p];
    }
  }

  lemma {:induction false} RunKeepsUncancelled(w: World, steps: seq<Step>, p: Pid, id: string)
    requires Inv(w) && IsRun(w, steps) && NeverCancels(steps, p, id) && UncancelledIfHeld(w, p, id)
    ensures Inv(After(w, steps)) && UncancelledIfHeld(After(w, steps), p, id)
    decreases |steps|
  {
    if steps != [] {
      NextKeepsInv(w, steps[0]);
      StepKeepsUncancelled(w, steps[0], p, id);
      RunKeepsUncancelled(Next(w, steps[0]), steps[1..], p, id);
    }
  }

  lemma UncancelledPhase(sh: Shared, ph: Phase)
    requires PhaseOk(sh, ph) && !ph.Idle? && ph.job.cancelled.None?
    ensures forall i :: 0 <= i < |ph.job.report.benchmarks| ==> ph.job.report.benchmarks[i].status != Cancelled
    ensures ph.job.report.status != Cancelled
  {
    var r := ph.job.report;
    if r.status != Running {
      OverallIsWorst(r.benchmarks);
    }
  }

  /** A job that nobody cancels never reports a benchmark as cancelled, and does not end cancelled. */
  lemma NothingIsCancelledUnasked(pids: set<Pid>, steps: seq<Step>, p: Pid, id: string)
    requires IsRun(Start(pids), steps) && NeverCancels(steps, p, id)
    ensures var w := After(Start(pids), steps);
      HasJob(w, p, id) ==>
        var r := w.procs[p].job.report;
        r.status != Cancelled && forall i :: 0 <= i < |r.benchmarks| ==> r.benchmarks[i].status != Cancelled
  {
    RunKeepsUncancelled(Start(pids), steps, p, id);
    var w := After(Start(pids), steps);
    if HasJob(w, p, id) {
      UncancelledPhase(w.sh, w.procs[p]);
    }
  }

  /** No benchmark that ended before its job was cancelled is reported cancelled. */
  lemma EarlierResultsAreNotCancelled(w: World, p: Pid, i: nat)
    requires Reachable(w) && p in w.procs && !w.procs[p].Idle? && w.procs[p].job.cancelled.Some?
    requires i + 1 < w.procs[p].job.cancelled.value
    ensures i < |w.procs[p].job.report.benchmarks| && w.procs[p].job.report.benchmarks[i].status != Cancelled
  {
    ReachableIsOk(w);
  }

  /** Whatever a crash leaves behind, the lock is free for the next start and both files are
      as they were. */
  lemma CrashFreesTheLock(w: World, s: Step)
    requires Reachable(w) && CanStep(w, s) && s.act.Crash? && w.sh.lock == Some(s.p)
    ensures Next(w, s).sh == w.sh.(lock := None)
    ensures forall q :: q in w.procs ==> Next(w, s).procs[q].Idle?
  {
    ReachableIsOk(w);
  }
}
