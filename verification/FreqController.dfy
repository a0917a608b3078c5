/** The control loop of features/cpugov/controller.go: samples in, idle machine, actuator. */
module FreqController {
  import opened GoText
  import opened FreqActuator
  import opened IdleMachine
  import opened GoNumbers

  /** Durations and times are integers; a time stamp of 0 is Go's zero time. */
  datatype Config = Config(interval: int, idleThreshold: real, observeWindow: int, nonIdleBreak: int,
                           dryRun: bool, minOverride: nat, npuStale: int)

  datatype Latest = Latest(cpuUsage: real, cpuTs: int, npuTotal: int, npuTs: int, npuKnown: bool)

  const NOTHING_SEEN := Latest(0.0, 0, 0, 0, false)

  function ClassifyCpu(usage: real, ts: int, now: int, stale: int, threshold: real, hasSample: bool): CpuSample {
    if !hasSample || now - ts > stale then CpuUnknown
    else if 100.0 - usage >= threshold then CpuIdle
    else CpuBusy
  }

  function ClassifyNpu(total: int, known: bool, ts: int, now: int, stale: int): NpuState {
    if !known || ts == 0 || now - ts > stale then NpuUnknown
    else if total > 0 then NpuBusy
    else NpuIdle
  }

  /** What the machine is fed at time `now`. */
  function InputOf(cfg: Config, seen: Latest, now: int): TickInput {
    TickInput(now,
              ClassifyCpu(seen.cpuUsage, seen.cpuTs, now, 2 * cfg.interval, cfg.idleThreshold, seen.cpuTs != 0),
              ClassifyNpu(seen.npuTotal, seen.npuKnown, seen.npuTs, now, cfg.npuStale))
  }

  function MachineConfig(cfg: Config): StateConfig {
    StateConfig(cfg.observeWindow, cfg.nonIdleBreak)
  }

  /** The governor with the cores it governs. */
  datatype Sys = Sys(machine: State, active: bool, act: ActState, freq: Freqs, log: Log)

  /** The refresh of the target before the first tick, a control tick (with the cpufreq source's
      availability when the actuator asks again), a shutdown, or a change to the frequencies from
      outside. */
  datatype Event =
    | Startup(env: Env)
    | Control(now: int, seen: Latest, env: Env, stillAvailable: bool)
    | Shutdown(fails: Faults)
    | Drift(freq: Freqs)

  predicate SysOk(s: Sys) {
    s.act.saved.Keys <= s.freq.Keys == s.log.Keys
  }

  predicate EventOk(e: Event, known: set<Core>) {
    match e
    case Control(_, _, env, _) => EnvOk(env, known)
    case Drift(freq) => freq.Keys == known
    case _ => true
  }

  /** Whether the cores should be held down. */
  predicate Desired(cfg: Config, machine: State, t: TickInput, available: bool) {
    machine.state.ConfirmedIdle? && t.npu.NpuIdle? && !cfg.dryRun && available
  }

  function HoldDown(cfg: Config, s: Sys, env: Env): (s': Sys)
    requires SysOk(s) && EnvOk(env, s.freq.Keys)
    ensures SysOk(s') && s'.freq.Keys == s.freq.Keys
  {
    var (a, writes) := Downclocked(cfg.minOverride, s.act, s.freq, env);
    s.(act := a, freq := FreqsAfter(s.freq, writes), log := LogAfter(s.log, writes))
  }

  function LetGo(s: Sys, fails: Faults): (s': Sys)
    requires SysOk(s)
    ensures SysOk(s') && s'.freq.Keys == s.freq.Keys
  {
    var (a, writes) := Restored(s.act, s.freq, fails);
    s.(act := a, freq := FreqsAfter(s.freq, writes), log := LogAfter(s.log, writes), active := a.applied)
  }

  function Acted(cfg: Config, s: Sys, desired: bool, env: Env, stillAvailable: bool): (s': Sys)
    requires SysOk(s) && EnvOk(env, s.freq.Keys)
    ensures SysOk(s') && s'.freq.Keys == s.freq.Keys
  {
    if desired then
      var s2 := HoldDown(cfg, s, env.(available := stillAvailable));
      if s.active then s2 else s2.(active := s2.act.applied)
    else if s.active then LetGo(s, env.fails)
    else s
  }

  function Step(cfg: Config, s: Sys, e: Event): (s': Sys)
    requires SysOk(s) && EventOk(e, s.freq.Keys)
    ensures SysOk(s') && s'.freq.Keys == s.freq.Keys
  {
    match e
    case Startup(env) => s.(act := Refresh(cfg.minOverride, s.act, env))
    case Control(now, seen, env, stillAvailable) =>
      var t := InputOf(cfg, seen, now);
      var s1 := s.(machine := Next(MachineConfig(cfg), s.machine, t));
      Acted(cfg, s1, Desired(cfg, s1.machine, t, env.available), env, stillAvailable)
    case Shutdown(fails) => if s.active then LetGo(s, fails) else s
    case Drift(freq) => s.(freq := freq)
  }

  // ----- the object ---------------------------------------------------------------------------

  datatype Metric = Metric(component: string, name: string, core: string, value: real, timestamp: int)

  predicate IsCpuTotal(m: Metric) {
    m.component == "cpu" && m.name == "usage" && m.core == "total"
  }

  predicate IsProcessTotal(m: Metric) {
    m.component == "npu" && m.name == "process_total"
  }

  function ProcessSum(batch: seq<Metric>): int {
    if batch == [] then 0
    else
      var m := batch[|batch| - 1];
      ProcessSum(batch[..|batch| - 1]) + (if IsProcessTotal(m) then Truncated(m.value) else 0)
  }

  /** The metric that a scan for the latest time stamp ends with. */
  function Freshest(batch: seq<Metric>, p: Metric -> bool): Option<Metric> {
    if batch == [] then None
    else
      var before, m := Freshest(batch[..|batch| - 1], p), batch[|batch| - 1];
      if p(m) && (before.None? || m.timestamp > before.value.timestamp) then Some(m) else before
  }

  /** Metric `i` counts, none that counts is later, and none before it is as late. */
  predicate FirstOfLatest(batch: seq<Metric>, p: Metric -> bool, i: nat) {
    && i < |batch| && p(batch[i])
    && (forall k :: 0 <= k < |batch| && p(batch[k]) ==> batch[k].timestamp <= batch[i].timestamp)
    && (forall k :: 0 <= k < i && p(batch[k]) ==> batch[k].timestamp < batch[i].timestamp)
  }

  predicate IsFreshest(batch: seq<Metric>, p: Metric -> bool, i: nat) {
    FirstOfLatest(batch, p, i) && Freshest(batch, p) == Some(batch[i])
  }

  /** It is the first of those with the latest time stamp, and there is one if any metric counts. */
  lemma {:induction false} FreshestIsFirstOfLatest(batch: seq<Metric>, p: Metric -> bool)
    ensures Freshest(batch, p).None? <==> forall k :: 0 <= k < |batch| ==> !p(batch[k])
    ensures Freshest(batch, p).Some? ==> exists i: nat :: IsFreshest(batch, p, i)
  {
    if batch != [] {
      var n := |batch| - 1;
      var before := batch[..n];
      FreshestIsFirstOfLatest(before, p);
      assert forall k :: 0 <= k < n ==> before[k] == batch[k];
      if Freshest(before, p).Some? {
        var i: nat :| IsFreshest(before, p, i);
        FreshestOfLonger(batch, p, i);
      } else if p(batch[n]) {
        assert IsFreshest(batch, p, n);
      }
    }
  }

  lemma FreshestOfLonger(batch: seq<Metric>, p: Metric -> bool, i: nat)
    requires batch != [] && IsFreshest(batch[..|batch| - 1], p, i)
    ensures var n := |batch| - 1;
            IsFreshest(batch, p, if p(batch[n]) && batch[n].timestamp > batch[i].timestamp then n else i)
  {
    var n := |batch| - 1;
    assert forall k :: 0 <= k < n ==> batch[..n][k] == batch[k];
  }

  /** There is only one such metric, and the scan ends with it. */
  lemma FirstOfLatestIsFreshest(batch: seq<Metric>, p: Metric -> bool, i: nat)
    requires FirstOfLatest(batch, p, i)
    ensures Freshest(batch, p) == Some(batch[i])
  {
    FreshestIsFirstOfLatest(batch, p);
    var k: nat :| IsFreshest(batch, p, k);
    assert batch[k].timestamp == batch[i].timestamp;
  }

  /** Which metrics of a batch are taken: the first of those with the latest time stamp among the CPU totals,
      and among the NPU process counts. */
  lemma TakenExactly(batch: seq<Metric>, i: nat)
    ensures FirstOfLatest(batch, (m: Metric) => m.component == "cpu" && m.name == "usage" && m.core == "total", i) ==>
              Freshest(batch, IsCpuTotal) == Some(batch[i])
    ensures (forall k :: 0 <= k < |batch| ==>
               !(batch[k].component == "cpu" && batch[k].name == "usage" && batch[k].core == "total")) ==>
              Freshest(batch, IsCpuTotal).None?
    ensures FirstOfLatest(batch, (m: Metric) => m.component == "npu" && m.name == "process_total", i) ==>
              Freshest(batch, IsProcessTotal) == Some(batch[i])
    ensures (forall k :: 0 <= k < |batch| ==> !(batch[k].component == "npu" && batch[k].name == "process_total")) ==>
              Freshest(batch, IsProcessTotal).None?
  {
    if FirstOfLatest(batch, IsCpuTotal, i) {
      FirstOfLatestIsFreshest(batch, IsCpuTotal, i);
    }
    if FirstOfLatest(batch, IsProcessTotal, i) {
      FirstOfLatestIsFreshest(batch, IsProcessTotal, i);
    }
    FreshestIsFirstOfLatest(batch, IsCpuTotal);
    FreshestIsFirstOfLatest(batch, IsProcessTotal);
  }

  /** The process counts of a batch are added up, whole parts only. */
  lemma {:induction false} ProcessesAddUp(a: seq<Metric>, b: seq<Metric>, m: Metric)
    ensures ProcessSum([]) == 0 && ProcessSum(a + b) == ProcessSum(a) + ProcessSum(b)
    ensures ProcessSum([m]) == if m.component == "npu" && m.name == "process_total" then Truncated(m.value) else 0
    decreases |b|
  {
    assert [m][..0] == [];
    if b == [] {
      assert a + b == a;
    } else {
      assert (a + b)[..|a + b| - 1] == a + b[..|b| - 1];
      ProcessesAddUp(a, b[..|b| - 1], m);
    }
  }

  class Controller {
    const cfg: Config
    const machine: Machine
    const actuator: Actuator
    var latest: Latest
    var active: bool

    constructor (cfg: Config, src: FreqStore)
      requires src.Valid()
      ensures Valid() && fresh(machine) && fresh(actuator) && actuator.src == src
      ensures View() == Sys(IdleMachine.INITIAL, false, FreqActuator.INITIAL, src.freq, src.log)
      ensures latest == NOTHING_SEEN && this.cfg == cfg
    {
      this.cfg := cfg;
      machine := new Machine(MachineConfig(cfg));
      actuator := new Actuator(src, cfg.minOverride);
      latest, active := NOTHING_SEEN, false;
    }

    ghost predicate Valid()
      reads this, actuator, actuator.src
    {
      && machine.cfg == Effective(MachineConfig(cfg))
      && actuator.minOverride == cfg.minOverride
      && actuator.src.Valid() && actuator.saved.Keys <= actuator.src.freq.Keys
    }

    ghost function View(): Sys
      reads this, machine, actuator, actuator.src
    {
      Sys(machine.View(), active, actuator.View(), actuator.src.freq, actuator.src.log)
    }

    /** `OnCollect`: the freshest CPU total, and the processes summed over the NPUs. */
    method OnCollect(batch: seq<Metric>)
      modifies this`latest
      ensures var cpu, npu := Freshest(batch, IsCpuTotal), Freshest(batch, IsProcessTotal);
        && (latest.cpuUsage, latest.cpuTs) ==
           (if cpu.Some? then (cpu.value.value, cpu.value.timestamp) else (old(latest).cpuUsage, old(latest).cpuTs))
        && (latest.npuTotal, latest.npuTs, latest.npuKnown) ==
           (if npu.Some? then (ProcessSum(batch), npu.value.timestamp, true)
            else (old(latest).npuTotal, old(latest).npuTs, old(latest).npuKnown))
    {
      var cpuUsage, cpuTs, hasCpu, npuTotal, npuTs, hasNpu := 0.0, 0, false, 0, 0, false;
      for k := 0 to |batch|
        invariant hasCpu <==> Freshest(batch[..k], IsCpuTotal).Some?
        invariant hasCpu ==> cpuUsage == Freshest(batch[..k], IsCpuTotal).value.value
        invariant hasCpu ==> cpuTs == Freshest(batch[..k], IsCpuTotal).value.timestamp
        invariant hasNpu <==> Freshest(batch[..k], IsProcessTotal).Some?
        invariant hasNpu ==> npuTs == Freshest(batch[..k], IsProcessTotal).value.timestamp
        invariant npuTotal == ProcessSum(batch[..k])
      {
        var m := batch[k];
        assert batch[..k + 1][..k] == batch[..k];
        if IsCpuTotal(m) {
          if !hasCpu || m.timestamp > cpuTs {
            cpuUsage, cpuTs, hasCpu := m.value, m.timestamp, true;
          }
        } else if IsProcessTotal(m) {
          npuTotal := npuTotal + Truncated(m.value);
          if !hasNpu || m.timestamp > npuTs {
            npuTs, hasNpu := m.timestamp, true;
          }
        }
      }
      assert batch[..|batch|] == batch;
      if hasCpu {
        latest := latest.(cpuUsage := cpuUsage, cpuTs := cpuTs);
      }
      if hasNpu {
        latest := latest.(npuTotal := npuTotal, npuTs := npuTs, npuKnown := true);
      }
    }

    /** What `Run` does before its loop. */
    method Start(env: Env)
      requires Valid()
      modifies actuator
      ensures Valid()
      ensures View() == Step(cfg, old(View()), Startup(env))
    {
      actuator.RefreshTarget(env);
    }

    /** `tick`, after the latest inputs have been collected. */
    method Tick(now: int, env: Env, stillAvailable: bool)
      requires Valid() && EnvOk(env, actuator.src.freq.Keys)
      modifies this`active, machine, actuator, actuator.src
      ensures Valid()
      ensures View() == Step(cfg, old(View()), Control(now, latest, env, stillAvailable))
    {
      var t := InputOf(cfg, latest, now);
      machine.Tick(now, t.cpu, t.npu);
      assert View() == old(View()).(machine := Next(MachineConfig(cfg), old(View()).machine, t));
      var desired := machine.state == ConfirmedIdle && t.npu == NpuIdle && !cfg.dryRun && env.available;
      Actuate(desired, env, stillAvailable);
    }

    /** The part of `tick` that acts on the edge between held and not held. */
    method Actuate(desired: bool, env: Env, stillAvailable: bool)
      requires Valid() && EnvOk(env, actuator.src.freq.Keys)
      modifies this`active, actuator, actuator.src
      ensures Valid()
      ensures View() == Acted(cfg, old(View()), desired, env, stillAvailable)
    {
      if desired && !active {
        Hold(env.(available := stillAvailable));
        active := actuator.applied;
      } else if !desired && active {
        Release(env.fails);
      } else if desired && active {
        Hold(env.(available := stillAvailable));
      }
    }

    method Hold(env: Env)
      requires Valid() && EnvOk(env, actuator.src.freq.Keys)
      modifies actuator, actuator.src
      ensures Valid()
      ensures View() == HoldDown(cfg, old(View()), env)
    {
      var _ := actuator.Downclock(env);
    }

    method Release(fails: Faults)
      requires Valid()
      modifies this`active, actuator, actuator.src
      ensures Valid()
      ensures View() == LetGo(old(View()), fails)
    {
      actuator.Restore(fails);
      active := actuator.applied;
    }

    /** `Controller.Restore`, the shutdown hook. */
    method Restore(fails: Faults)
      requires Valid()
      modifies this`active, actuator, actuator.src
      ensures Valid()
      ensures View() == Step(cfg, old(View()), Shutdown(fails))
    {
      if active {
        Release(fails);
      }
    }
  }
}
