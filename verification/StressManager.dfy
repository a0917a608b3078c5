/** The `Manager` of features/stress/manager.go as it runs: its fields, and methods that take the
    protocol's steps one after another. File operations and command runs are parameters that say
    how they turn out. */
module StressManager {
  import opened GoText
  import opened StressReport
  import opened StressBenchmark
  import opened StressJobs

  /** The lock, the report file and the history file of one report path. */
  class JobFiles {
    var lock: Option<Pid>
    var report: Option<Report>
    var history: Option<seq<Report>>
    ghost var attempted: seq<Report>
    ghost var recorded: seq<Report>
    ghost var ids: set<string>

    constructor ()
      ensures View() == Shared(None, None, None, [], [], {})
    {
      lock, report, history := None, None, None;
      attempted, recorded, ids := [], [], {};
    }

    ghost function View(): Shared
      reads this
    {
      Shared(lock, report, history, attempted, recorded, ids)
    }
  }

  datatype StartResult =
    | Started(report: Report)
    | JobsDisabled
    | Busy(current: Option<Report>)
    | NotSelected(reason: SelectError)
    | NotAdmitted
    | LockUnavailable
    | NotPersisted

  /** The report of a job that has just begun. */
  predicate IsFresh(r: Report, id: string) {
    && r.jobId == id && r.status == Running && !r.persistFailed && !r.cancellable
    && forall i :: 0 <= i < |r.benchmarks| ==> r.benchmarks[i].status == Pending && r.benchmarks[i].output == ""
  }

  /** How the benchmarks of a job turn out, and which of its file writes succeed. */
  datatype Outcomes = Outcomes(
    run: nat -> BenchmarkRun,
    beginOk: nat -> bool,
    finishOk: nat -> bool,
    concludeOk: bool,
    readOk: bool,
    writeOk: bool)

  /** The runs are those of this job's benchmarks. */
  ghost predicate OutcomesOf(job: Job, o: Outcomes) {
    forall i: nat :: RunMatches(job, i, o.run(i))
  }

  /** The benchmark steps of the first `n` entries. */
  function BenchmarkActs(n: nat, o: Outcomes): seq<Act> {
    if n == 0 then []
    else BenchmarkActs(n - 1, o) + [Begin(o.beginOk(n - 1))] +
         [Finish(o.run(n - 1), o.finishOk(n - 1))]
  }

  /** The steps of a whole job after it has started. */
  function RunActs(n: nat, o: Outcomes): seq<Act> {
    BenchmarkActs(n, o) + [Conclude(o.concludeOk)] + [ReadHistory(o.readOk)] +
    (if o.readOk then [WriteHistory(o.writeOk)] else []) + [Release]
  }

  /** The scan by which `setBenchmark` and `finishBenchmark` find the entry to rewrite. */
  method ReplaceFirst(bs: seq<Benchmark>, b: Benchmark) returns (r: seq<Benchmark>)
    ensures r == Replaced(bs, b)
  {
    r := bs;
    for i := 0 to |bs|
      invariant r == bs
      invariant forall k :: 0 <= k < i ==> bs[k].name != b.name
    {
      if bs[i].name == b.name {
        ReplacedAtFirst(bs, b, i);
        r := bs[i := b];
        return;
      }
    }
    ReplacedAtFirst(bs, b, |bs|);
  }

  /** The loops of `appendHistoryFile` that strip the report and filter the old list. */
  method Prepend(reports: seq<Report>, report: Report) returns (filtered: seq<Report>)
    ensures filtered == Appended(reports, ArchiveOf(report))
  {
    var benchmarks := report.benchmarks;
    for i := 0 to |benchmarks|
      invariant |benchmarks| == |report.benchmarks|
      invariant forall k :: 0 <= k < i ==> benchmarks[k] == report.benchmarks[k].(output := "")
      invariant forall k :: i <= k < |benchmarks| ==> benchmarks[k] == report.benchmarks[k]
    {
      benchmarks := benchmarks[i := benchmarks[i].(output := "")];
    }
    var archived := report.(cancellable := false, benchmarks := benchmarks);
    assert archived == ArchiveOf(report);
    filtered := [archived];
    ghost var whole := [archived] + WithoutJob(reports, archived.jobId);
    for i := 0 to |reports|
      invariant 1 <= |filtered| < MAX_HISTORY_REPORTS
      invariant filtered + WithoutJob(reports[i..], archived.jobId) == whole
    {
      assert reports[i..][1..] == reports[i + 1..];
      if reports[i].jobId != archived.jobId {
        filtered := filtered + [reports[i]];
      }
      assert filtered + WithoutJob(reports[i + 1..], archived.jobId) == whole;
      if |filtered| == MAX_HISTORY_REPORTS {
        break;
      }
    }
  }

  class Manager {
    const pid: Pid
    const cfg: Config
    const files: JobFiles
    var active: Option<Job>
    var last: Option<Report>
    ghost var phase: Phase

    ghost predicate Valid()
      reads this, files
    {
      && (phase.Idle? <==> active.None?)
      && (active.Some? ==> active.value == phase.job)
      && (phase.Idle? <==> files.lock != Some(pid))
    }

    constructor (pid: Pid, cfg: Config, files: JobFiles)
      requires files.lock != Some(pid)
      ensures Valid() && active.None? && last.None?
      ensures this.pid == pid && this.cfg == cfg && this.files == files
    {
      this.pid, this.cfg, this.files := pid, cfg, files;
      active, last, phase := None, None, Idle;
    }

    /** `persistReportLocked`, for a report that is not yet in `active`. */
    method Persist(r: Report, ok: bool) returns (r': Report)
      modifies files`report
      ensures (files.report, r') == Persisted(old(files.report), r, ok)
    {
      r' := r.(persistFailed := false);
      if ok {
        files.report := Some(r');
      } else {
        r' := r'.(persistFailed := true);
      }
    }

    /** `StartWithOptions`. The last clause says which answer each input has: the tests come in the order
        enabled, no job of its own, request, `admitted`, `lockable`, lock free, `persistOk`, and the first
        that fails decides. `admitted` is the outcome of the timeout, availability and profile
        checks, `lockable` whether the lock file can be opened, `readable` whether the report
        file can be read, `id` the fresh job id. */
    method StartWithOptions(requested: seq<string>, admitted: bool, lockable: bool, readable: bool,
                            id: string, persistOk: bool)
      returns (r: StartResult, ghost acts: seq<Act>)
      requires Valid() && id !in files.ids
      requires phase.Idle? || phase.Ready? || phase.Executing?
      modifies this, files
      ensures Valid()
      ensures CanPerform(pid, old(files.View()), old(phase), acts)
      ensures (files.View(), phase) == Performed(pid, old(files.View()), old(phase), acts)
      ensures var names := if requested == [] then cfg.defaults else requested;
        match r
        case Started(report) =>
          && acts == [Acquire(Names(report.benchmarks), id), PersistInitial(true)]
          && IsSelectionOf(names, Names(report.benchmarks)) && IsFresh(report, id)
          && active.Some? && active.value.report == report && active.value.cancelled.None? && last == Some(report)
          && files.lock == Some(pid) && files.report == Some(report) && files.history == old(files.history)
        case NotPersisted =>
          && (exists sel :: IsSelectionOf(names, sel) && acts == [Acquire(sel, id), PersistInitial(false)])
          && active.None? && files.lock.None? && files.report == old(files.report) && files.history == old(files.history)
          && last == old(last)
        case NotSelected(e) =>
          acts == [] && last == old(last) && SelectionOf(cfg, names, Err(e)) && Explains(cfg, e)
        case Busy(current) =>
          && acts == [Refuse]
          && current == (if old(active).None? && !readable then None else RefusalReport(old(files.View()), old(phase)))
          && last == (if old(active).None? && current.Some? then current else old(last))
        case _ => acts == [] && last == old(last)
      ensures var ready := cfg.enabled && old(active).None? &&
                           Selectable(cfg, if requested == [] then cfg.defaults else requested);
        && (r.JobsDisabled? <==> !cfg.enabled)
        && (r.NotSelected? <==> cfg.enabled && old(active).None? && !ready)
        && (r.NotAdmitted? <==> ready && !admitted)
        && (r.LockUnavailable? <==> ready && admitted && !lockable)
        && (r.Busy? <==> (cfg.enabled && old(active).Some?) || (ready && admitted && lockable && old(files.lock).Some?))
        && (r.NotPersisted? <==> ready && admitted && lockable && old(files.lock).None? && !persistOk)
        && (r.Started? <==> ready && admitted && lockable && old(files.lock).None? && persistOk)
    {
      acts := [];
      if !cfg.enabled {
        return JobsDisabled, acts;
      }
      if active.Some? {
        return Busy(Some(active.value.report)), [Refuse];
      }
      var selected := Select(cfg, requested);
      if selected.Err? {
        return NotSelected(selected.error), acts;
      }
      if !admitted {
        return NotAdmitted, acts;
      }
      if !lockable {
        return LockUnavailable, acts;
      }
      if files.lock.Some? {
        if readable && files.report.Some? {
          last := files.report;
          return Busy(files.report), [Refuse];
        }
        return Busy(None), [Refuse];
      }
      r, acts := Launch(selected.value, id, persistOk);
    }

    /** The end of `StartWithOptions`: the lock is free, and is taken. */
    method Launch(names: seq<string>, id: string, persistOk: bool) returns (r: StartResult, ghost acts: seq<Act>)
      requires Valid() && phase.Idle? && files.lock.None? && id !in files.ids
      requires names != [] && Distinct(names)
      modifies this, files
      ensures Valid()
      ensures acts == [Acquire(names, id), PersistInitial(persistOk)]
      ensures CanPerform(pid, old(files.View()), old(phase), acts)
      ensures (files.View(), phase) == Performed(pid, old(files.View()), old(phase), acts)
      ensures if persistOk then r.Started? && Names(r.report.benchmarks) == names else r.NotPersisted?
      ensures r.Started? ==>
                && active.Some? && active.value.report == r.report && active.value.cancelled.None?
                && last == Some(r.report) && files.lock == Some(pid) && files.report == Some(r.report)
                && IsFresh(r.report, id)
      ensures r.NotPersisted? ==> active.None? && files.lock.None? && files.report == old(files.report) && last == old(last)
      ensures files.history == old(files.history)
    {
      files.lock := Some(pid);
      files.ids := files.ids + {id};
      var report := InitialReport(names, id);
      assert Names(report.benchmarks) == names;
      active := Some(Job(report, names, None));
      phase := Acquired(active.value);
      var persisted := Persist(report, persistOk);
      ghost var sh0, ph0 := old(files.View()), old(phase);
      assert (Shared(files.lock, old(files.report), files.history, files.attempted, files.recorded, files.ids), phase) ==
             Apply(pid, sh0, ph0, Acquire(names, id));
      PerformedThen(pid, sh0, ph0, [], Acquire(names, id));
      assert [] + [Acquire(names, id)] == [Acquire(names, id)];
      PerformedThen(pid, sh0, ph0, [Acquire(names, id)], PersistInitial(persistOk));
      acts := [Acquire(names, id)] + [PersistInitial(persistOk)];
      if !persistOk {
        files.lock := None;
        active, phase := None, Idle;
        return NotPersisted, acts;
      }
      active := Some(Job(persisted, names, None));
      phase := Ready(active.value, 0);
      last := Some(persisted);
      return Started(persisted), acts;
    }

    /** `setBenchmark`, which `run` calls to mark its next benchmark as under way. */
    method SetBenchmark(name: string, ok: bool)
      requires Valid() && phase.Ready? && phase.k < |phase.job.names| && name == phase.job.names[phase.k]
      modifies this, files`report
      ensures Valid()
      ensures (files.View(), phase) == Apply(pid, old(files.View()), old(phase), Begin(ok))
      ensures active.Some? && last == Some(active.value.report)
    {
      var benchmarks := ReplaceFirst(active.value.report.benchmarks, Benchmark(name, Running, ""));
      var report := Persist(active.value.report.(benchmarks := benchmarks), ok);
      active := Some(active.value.(report := report));
      last := Some(report);
      phase := Executing(active.value, phase.k);
    }

    /** `finishBenchmark`, for the result of `run`. */
    method FinishBenchmark(result: Benchmark, ghost run: BenchmarkRun, ok: bool)
      requires Valid() && phase.Executing? && phase.k < |phase.job.names|
      requires result == ResultOf(phase.job.names[phase.k], run) && RunMatches(phase.job, phase.k, run)
      modifies this, files`report
      ensures Valid()
      ensures (files.View(), phase) == Apply(pid, old(files.View()), old(phase), Finish(run, ok))
      ensures active.Some? && last == Some(active.value.report)
    {
      var benchmarks := ReplaceFirst(active.value.report.benchmarks, result);
      var report := Persist(active.value.report.(benchmarks := benchmarks), ok);
      active := Some(active.value.(report := report));
      last := Some(report);
      phase := Ready(active.value, phase.k + 1);
    }

    /** The second half of `appendHistoryFile`, after the file has been read into `seen`. */
    method WriteHistoryFile(report: Report, seen: seq<Report>, ok: bool)
      requires Valid() && phase.HistoryRead? && phase.job.report == report && phase.seen == seen
      modifies this`phase, files`history, files`attempted, files`recorded
      ensures Valid()
      ensures (files.View(), phase) == Apply(pid, old(files.View()), old(phase), WriteHistory(ok))
    {
      var filtered := Prepend(seen, report);
      files.attempted := files.attempted + [ArchiveOf(report)];
      if ok {
        files.history := Some(filtered);
        files.recorded := files.recorded + [ArchiveOf(report)];
      }
      phase := Archived(phase.job);
    }

    /** The body of the loop in `run`: entry `i` is begun, executed and finished. */
    method RunBenchmark(i: nat, o: Outcomes, ghost sh0: Shared, ghost ph0: Phase)
      requires Valid() && phase.Ready? && phase.k == i && i < |phase.job.names| && OutcomesOf(phase.job, o)
      requires CanPerform(pid, sh0, ph0, BenchmarkActs(i, o))
      requires (files.View(), phase) == Performed(pid, sh0, ph0, BenchmarkActs(i, o))
      modifies this, files`report
      ensures Valid() && phase.Ready? && phase.k == i + 1 && phase.job.names == old(phase).job.names
      ensures phase.job.cancelled == old(phase).job.cancelled
      ensures CanPerform(pid, sh0, ph0, BenchmarkActs(i + 1, o))
      ensures (files.View(), phase) == Performed(pid, sh0, ph0, BenchmarkActs(i + 1, o))
    {
      var name := active.value.names[i];
      SetBenchmark(name, o.beginOk(i));
      PerformedThen(pid, sh0, ph0, BenchmarkActs(i, o), Begin(o.beginOk(i)));
      var result := ResultOf(name, o.run(i));
      FinishBenchmark(result, o.run(i), o.finishOk(i));
      PerformedThen(pid, sh0, ph0, BenchmarkActs(i, o) + [Begin(o.beginOk(i))],
                    Finish(o.run(i), o.finishOk(i)));
    }

    /** `run`: the whole list, then the final report, the history entry and the release. */
    method Run(o: Outcomes)
      requires Valid() && phase.Ready? && phase.k == 0 && OutcomesOf(phase.job, o)
      modifies this, files
      ensures Valid() && active.None? && files.lock != Some(pid)
      ensures var acts := RunActs(|old(phase).job.names|, o);
        && CanPerform(pid, old(files.View()), old(phase), acts)
        && (files.View(), phase) == Performed(pid, old(files.View()), old(phase), acts)
    {
      ghost var sh0, ph0 := files.View(), phase;
      var names := active.value.names;
      for i := 0 to |names|
        invariant Valid() && phase.Ready? && phase.k == i && phase.job.names == names
        invariant phase.job.cancelled == ph0.job.cancelled
        invariant CanPerform(pid, sh0, ph0, BenchmarkActs(i, o))
        invariant (files.View(), phase) == Performed(pid, sh0, ph0, BenchmarkActs(i, o))
      {
        RunBenchmark(i, o, sh0, ph0);
      }
      FinishJob(o, sh0, ph0, BenchmarkActs(|names|, o));
    }

    /** The last critical section of `run`. */
    method FinishJob(o: Outcomes, ghost sh0: Shared, ghost ph0: Phase, ghost acts: seq<Act>)
      requires Valid() && phase.Ready? && phase.k == |phase.job.names|
      requires CanPerform(pid, sh0, ph0, acts) && (files.View(), phase) == Performed(pid, sh0, ph0, acts)
      modifies this, files
      ensures Valid() && active.None?
      ensures var all := acts + [Conclude(o.concludeOk)] + [ReadHistory(o.readOk)] +
                         (if o.readOk then [WriteHistory(o.writeOk)] else []) + [Release];
        && CanPerform(pid, sh0, ph0, all)
        && (files.View(), phase) == Performed(pid, sh0, ph0, all)
    {
      var report := ConcludeJob(o.concludeOk, sh0, ph0, acts);
      ArchiveAndRelease(report, o, sh0, ph0, acts + [Conclude(o.concludeOk)]);
    }

    /** The overall status, and the last write of the report file. */
    method ConcludeJob(ok: bool, ghost sh0: Shared, ghost ph0: Phase, ghost acts: seq<Act>) returns (report: Report)
      requires Valid() && phase.Ready? && phase.k == |phase.job.names|
      requires CanPerform(pid, sh0, ph0, acts) && (files.View(), phase) == Performed(pid, sh0, ph0, acts)
      modifies this, files`report
      ensures Valid() && phase.Concluded? && phase.job.report == report
      ensures CanPerform(pid, sh0, ph0, acts + [Conclude(ok)])
      ensures (files.View(), phase) == Performed(pid, sh0, ph0, acts + [Conclude(ok)])
    {
      var status := AggregateReportStatus(active.value.report.benchmarks);
      report := Persist(active.value.report.(status := status), ok);
      active := Some(active.value.(report := report));
      phase := Concluded(active.value);
      PerformedThen(pid, sh0, ph0, acts, Conclude(ok));
    }

    /** The history entry of a concluded job, and the release of its lock. */
    method ArchiveAndRelease(report: Report, o: Outcomes, ghost sh0: Shared, ghost ph0: Phase, ghost acts: seq<Act>)
      requires Valid() && phase.Concluded? && phase.job.report == report
      requires CanPerform(pid, sh0, ph0, acts) && (files.View(), phase) == Performed(pid, sh0, ph0, acts)
      modifies this, files
      ensures Valid() && active.None? && last == Some(report)
      ensures var all := acts + [ReadHistory(o.readOk)] + (if o.readOk then [WriteHistory(o.writeOk)] else []) + [Release];
        && CanPerform(pid, sh0, ph0, all)
        && (files.View(), phase) == Performed(pid, sh0, ph0, all)
    {
      ghost var done := AppendHistoryFile(report, o, sh0, ph0, acts);
      last := Some(report);
      active := None;
      files.lock := None;
      phase := Idle;
      PerformedThen(pid, sh0, ph0, done, Release);
    }

    /** `appendHistoryFile`: read the file, put the report in front, write the file back. */
    method AppendHistoryFile(report: Report, o: Outcomes, ghost sh0: Shared, ghost ph0: Phase, ghost acts: seq<Act>)
      returns (ghost done: seq<Act>)
      requires Valid() && phase.Concluded? && phase.job.report == report
      requires CanPerform(pid, sh0, ph0, acts) && (files.View(), phase) == Performed(pid, sh0, ph0, acts)
      modifies this`phase, files`history, files`attempted, files`recorded
      ensures Valid() && phase.Archived?
      ensures done == acts + [ReadHistory(o.readOk)] + (if o.readOk then [WriteHistory(o.writeOk)] else [])
      ensures CanPerform(pid, sh0, ph0, done) && (files.View(), phase) == Performed(pid, sh0, ph0, done)
    {
      PerformedThen(pid, sh0, ph0, acts, ReadHistory(o.readOk));
      var seen := ReadHistoryFile(report, o.readOk);
      done := acts + [ReadHistory(o.readOk)];
      if seen.Some? {
        done := WriteBack(report, seen.value, o.writeOk, sh0, ph0, done);
      } else {
        assert done + [] == done;
      }
    }

    method WriteBack(report: Report, seen: seq<Report>, ok: bool, ghost sh0: Shared, ghost ph0: Phase, ghost acts: seq<Act>)
      returns (ghost done: seq<Act>)
      requires Valid() && phase.HistoryRead? && phase.job.report == report && phase.seen == seen
      requires CanPerform(pid, sh0, ph0, acts) && (files.View(), phase) == Performed(pid, sh0, ph0, acts)
      modifies this`phase, files`history, files`attempted, files`recorded
      ensures Valid() && phase.Archived?
      ensures done == acts + [WriteHistory(ok)]
      ensures CanPerform(pid, sh0, ph0, done) && (files.View(), phase) == Performed(pid, sh0, ph0, done)
    {
      PerformedThen(pid, sh0, ph0, acts, WriteHistory(ok));
      WriteHistoryFile(report, seen, ok);
      done := acts + [WriteHistory(ok)];
    }

    /** `readHistoryFile`, for `appendHistoryFile`: a missing file reads as an empty list. */
    method ReadHistoryFile(report: Report, ok: bool) returns (seen: Option<seq<Report>>)
      requires Valid() && phase.Concluded? && phase.job.report == report
      modifies this`phase, files`attempted
      ensures Valid()
      ensures (files.View(), phase) == Apply(pid, old(files.View()), old(phase), ReadHistory(ok))
      ensures if ok then phase == HistoryRead(old(phase).job, HistoryOf(files.View())) && seen == Some(phase.seen)
              else phase.Archived? && seen.None?
    {
      if !ok {
        files.attempted := files.attempted + [ArchiveOf(report)];
        phase := Archived(phase.job);
        return None;
      }
      seen := Some(if files.history.Some? then files.history.value else []);
      phase := HistoryRead(phase.job, seen.value);
    }

    /** `Cancel`. */
    method Cancel(id: string) returns (found: bool)
      requires Valid() && (phase.Idle? || phase.Ready? || phase.Executing?)
      modifies this`active, this`phase
      ensures Valid()
      ensures (files.View(), phase) == Apply(pid, old(files.View()), old(phase), RequestCancel(id))
      ensures found <==> old(active).Some? && old(active).value.report.jobId == id
      ensures if found then active.Some? && active.value.cancelled.Some? && active.value.report == old(active).value.report
              else active == old(active)
    {
      if active.None? || active.value.report.jobId != id {
        return false;
      }
      active := Some(CancelledJob(active.value));
      phase := WithCancel(phase);
      return true;
    }
  }
}
