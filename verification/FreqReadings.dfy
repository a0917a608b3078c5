/** What the governor of features/cpugov makes of the readings it is given: when exactly it holds the cores
    down, told on usages, process counts and time stamps. */
module FreqReadings {
  import opened GoText
  import opened FreqActuator
  import opened IdleMachine
  import opened FreqController
  import opened FreqRuns

  // ----- readings -------------------------------------------------------------------------------------------

  /** The CPU usage is known, and sampled no longer ago than two intervals. */
  predicate CpuFresh(cfg: Config, e: Event)
    requires e.Control?
  {
    e.seen.cpuTs != 0 && e.now - e.seen.cpuTs <= 2 * cfg.interval
  }

  predicate ReadsIdle(cfg: Config, e: Event)
    requires e.Control?
  {
    CpuFresh(cfg, e) && 100.0 - e.seen.cpuUsage >= cfg.idleThreshold
  }

  predicate ReadsBusy(cfg: Config, e: Event)
    requires e.Control?
  {
    CpuFresh(cfg, e) && 100.0 - e.seen.cpuUsage < cfg.idleThreshold
  }

  predicate NpuFresh(cfg: Config, e: Event)
    requires e.Control?
  {
    e.seen.npuKnown && e.seen.npuTs != 0 && e.now - e.seen.npuTs <= cfg.npuStale
  }

  predicate SeesProcess(cfg: Config, e: Event)
    requires e.Control?
  {
    NpuFresh(cfg, e) && e.seen.npuTotal > 0
  }

  predicate SeesNoProcess(cfg: Config, e: Event)
    requires e.Control?
  {
    NpuFresh(cfg, e) && e.seen.npuTotal <= 0
  }

  /** Two minutes, in nanoseconds, unless a window is set. */
  function Window(cfg: Config): int {
    if cfg.observeWindow <= 0 then 120_000_000_000 else cfg.observeWindow
  }

  /** Two, unless set. */
  function Break(cfg: Config): int {
    if cfg.nonIdleBreak <= 0 then 2 else cfg.nonIdleBreak
  }

  /** The control ticks among the first `n` events. */
  function Controls(events: seq<Event>, n: nat): (ctl: seq<Event>)
    requires n <= |events|
    ensures forall k :: 0 <= k < |ctl| ==> ctl[k].Control?
  {
    if n == 0 then []
    else Controls(events, n - 1) + (if events[n - 1].Control? then [events[n - 1]] else [])
  }

  predicate AllControl(ctl: seq<Event>) {
    forall k :: 0 <= k < |ctl| ==> ctl[k].Control?
  }

  /** The time since the control tick before; a clock that runs backwards counts nothing. */
  function Since(ctl: seq<Event>, k: nat): int
    requires 0 < k < |ctl| && AllControl(ctl)
  {
    if ctl[k - 1].now < ctl[k].now then ctl[k].now - ctl[k - 1].now else 0
  }

  /** The time that ended in an idle reading, over the ticks after `e` and before `n`. */
  function IdleFor(cfg: Config, ctl: seq<Event>, e: nat, n: nat): int
    requires n <= |ctl| && AllControl(ctl)
  {
    if n <= e + 1 then 0
    else IdleFor(cfg, ctl, e, n - 1) + (if ReadsIdle(cfg, ctl[n - 1]) then Since(ctl, n - 1) else 0)
  }

  /** How many of the ticks from `i` up to `j` have a busy reading. */
  function BusyReadings(cfg: Config, ctl: seq<Event>, i: nat, j: nat): nat
    requires i <= j <= |ctl| && AllControl(ctl)
  {
    if i == j then 0 else BusyReadings(cfg, ctl, i, j - 1) + (if ReadsBusy(cfg, ctl[j - 1]) then 1 else 0)
  }

  predicate NoIdleReading(cfg: Config, ctl: seq<Event>, i: nat, j: nat)
    requires i <= j <= |ctl| && AllControl(ctl)
  {
    forall k :: i <= k < j ==> !ReadsIdle(cfg, ctl[k])
  }

  predicate FewBusyReadings(cfg: Config, ctl: seq<Event>, i: nat, j: nat)
    requires i <= j <= |ctl| && AllControl(ctl)
  {
    NoIdleReading(cfg, ctl, i, j) ==> BusyReadings(cfg, ctl, i, j) < Break(cfg)
  }

  /** After `e` and before `n` no NPU process was seen, and never was the break reached by busy readings
      without an idle one among them. */
  ghost predicate Calm(cfg: Config, ctl: seq<Event>, e: nat, n: nat)
    requires n <= |ctl| && AllControl(ctl)
  {
    && (forall k :: e < k < n ==> !SeesProcess(cfg, ctl[k]))
    && (forall i, j :: e < i <= j <= n ==> FewBusyReadings(cfg, ctl, i, j))
  }

  predicate ReadsIdleAlone(cfg: Config, e: Event)
    requires e.Control?
  {
    ReadsIdle(cfg, e) && !SeesProcess(cfg, e)
  }

  /** At tick `e` the idle clock starts: an idle reading, none before which has been calm up to now. */
  ghost predicate ClockStarts(cfg: Config, ctl: seq<Event>, e: nat)
    requires e < |ctl| && AllControl(ctl)
  {
    ReadsIdleAlone(cfg, ctl[e]) && forall k :: 0 <= k < e && ReadsIdleAlone(cfg, ctl[k]) ==> !Calm(cfg, ctl, k, e)
  }

  /** The idle clock started at `e`, reached the window at `c`, and all was calm from `e` to now. */
  ghost predicate WindowRead(cfg: Config, ctl: seq<Event>, e: nat, c: nat)
    requires AllControl(ctl)
  {
    && e < c < |ctl| && ClockStarts(cfg, ctl, e)
    && Calm(cfg, ctl, e, c + 1) && Calm(cfg, ctl, c, |ctl|)
    && IdleFor(cfg, ctl, e, c) < Window(cfg) <= IdleFor(cfg, ctl, e, c + 1)
  }

  ghost predicate IdleLongEnough(cfg: Config, ctl: seq<Event>)
    requires AllControl(ctl)
  {
    exists e: nat, c: nat :: WindowRead(cfg, ctl, e, c)
  }

  // ----- readings are what the machine is fed -----------------------------------------------------------------

  /** `ticks` are the machine's inputs for the control ticks `ctl`. */
  predicate Feeds(cfg: Config, ctl: seq<Event>, ticks: seq<TickInput>) {
    && AllControl(ctl) && |ticks| == |ctl|
    && forall k :: 0 <= k < |ctl| ==> ticks[k] == InputOf(cfg, ctl[k].seen, ctl[k].now)
  }

  lemma {:induction false} ControlsFeed(cfg: Config, events: seq<Event>, n: nat)
    requires n <= |events|
    ensures Feeds(cfg, Controls(events, n), Inputs(cfg, events, n))
  {
    if n > 0 {
      ControlsFeed(cfg, events, n - 1);
    }
  }

  lemma InputIsReading(cfg: Config, e: Event)
    requires e.Control?
    ensures var t := InputOf(cfg, e.seen, e.now);
      && t.now == e.now
      && (t.cpu.CpuIdle? <==> ReadsIdle(cfg, e)) && (t.cpu.CpuBusy? <==> ReadsBusy(cfg, e))
      && (t.npu.NpuBusy? <==> SeesProcess(cfg, e)) && (t.npu.NpuIdle? <==> SeesNoProcess(cfg, e))
  {
  }

  lemma {:induction false} IdleTimeIsRead(cfg: Config, ctl: seq<Event>, ticks: seq<TickInput>, e: nat, n: nat)
    requires Feeds(cfg, ctl, ticks) && n <= |ctl|
    ensures IdleFor(cfg, ctl, e, n) == IdleTime(ticks, e, n)
  {
    if n > e + 1 {
      IdleTimeIsRead(cfg, ctl, ticks, e, n - 1);
      InputIsReading(cfg, ctl[n - 1]);
    }
  }

  lemma {:induction false} BusyIsRead(cfg: Config, ctl: seq<Event>, ticks: seq<TickInput>, i: nat, j: nat)
    requires Feeds(cfg, ctl, ticks) && i <= j <= |ctl|
    ensures BusyReadings(cfg, ctl, i, j) == BusyCount(ticks, i, j)
    ensures NoIdleReading(cfg, ctl, i, j) <==> NoIdleSample(ticks, i, j)
    decreases j
  {
    if i < j {
      BusyIsRead(cfg, ctl, ticks, i, j - 1);
      InputIsReading(cfg, ctl[j - 1]);
    }
  }

  lemma CalmIsQuiet(cfg: Config, ctl: seq<Event>, ticks: seq<TickInput>, e: nat, n: nat)
    requires Feeds(cfg, ctl, ticks) && n <= |ctl|
    ensures Calm(cfg, ctl, e, n) <==> Quiet(MachineConfig(cfg), ticks, e, n)
  {
    forall k | e < k < n
      ensures SeesProcess(cfg, ctl[k]) <==> ticks[k].npu.NpuBusy?
    {
      InputIsReading(cfg, ctl[k]);
    }
    forall i, j | e < i <= j <= n
      ensures FewBusyReadings(cfg, ctl, i, j) <==> FewBusy(MachineConfig(cfg), ticks, i, j)
    {
      BusyIsRead(cfg, ctl, ticks, i, j);
    }
  }

  lemma ClockStartsIsEntry(cfg: Config, ctl: seq<Event>, ticks: seq<TickInput>, e: nat)
    requires Feeds(cfg, ctl, ticks) && e < |ctl|
    ensures ClockStarts(cfg, ctl, e) <==> EntersObserving(MachineConfig(cfg), ticks, e)
  {
    ObservationBeginsExactly(MachineConfig(cfg), ticks, e);
    InputIsReading(cfg, ctl[e]);
    forall k | 0 <= k < e
      ensures ReadsIdleAlone(cfg, ctl[k]) <==> IdleAlone(ticks[k])
      ensures Calm(cfg, ctl, k, e) <==> Quiet(MachineConfig(cfg), ticks, k, e)
    {
      InputIsReading(cfg, ctl[k]);
      CalmIsQuiet(cfg, ctl, ticks, k, e);
    }
  }

  lemma WindowReadIsBehind(cfg: Config, ctl: seq<Event>, ticks: seq<TickInput>, e: nat, c: nat)
    requires Feeds(cfg, ctl, ticks)
    ensures WindowRead(cfg, ctl, e, c) <==> WindowBehind(MachineConfig(cfg), ticks, e, c, |ticks|)
  {
    if e < c < |ctl| {
      ClockStartsIsEntry(cfg, ctl, ticks, e);
      CalmIsQuiet(cfg, ctl, ticks, e, c + 1);
      CalmIsQuiet(cfg, ctl, ticks, c, |ctl|);
      IdleTimeIsRead(cfg, ctl, ticks, e, c);
      IdleTimeIsRead(cfg, ctl, ticks, e, c + 1);
    }
  }

  /** The machine is confirmed idle exactly when the readings have been idle for long enough. */
  lemma ConfirmedByReadings(cfg: Config, events: seq<Event>, n: nat)
    requires n <= |events|
    ensures FedMachine(cfg, events, n).state.ConfirmedIdle? <==> IdleLongEnough(cfg, Controls(events, n))
  {
    var ctl, ticks := Controls(events, n), Inputs(cfg, events, n);
    ControlsFeed(cfg, events, n);
    ConfirmedExactlyAfterWindow(MachineConfig(cfg), ticks, |ticks|);
    if IdleLongEnough(cfg, ctl) {
      var e: nat, c: nat :| WindowRead(cfg, ctl, e, c);
      WindowReadIsBehind(cfg, ctl, ticks, e, c);
    }
    if IdlenessEarned(MachineConfig(cfg), ticks, |ticks|) {
      var e: nat, c: nat :| WindowBehind(MachineConfig(cfg), ticks, e, c, |ticks|);
      WindowReadIsBehind(cfg, ctl, ticks, e, c);
    }
  }

  // ----- when the cores are held down -------------------------------------------------------------------------

  /** The readings up to event `n` call for holding the cores down. */
  ghost predicate CalledFor(cfg: Config, events: seq<Event>, n: nat)
    requires n < |events| && events[n].Control?
  {
    && IdleLongEnough(cfg, Controls(events, n + 1)) && SeesNoProcess(cfg, events[n])
    && !cfg.dryRun && events[n].env.available
  }

  /** The actuator can begin to hold: cores are listed, and a target is known or can be found. */
  predicate CanBegin(s: Sys, e: Event)
    requires e.Control?
  {
    && e.stillAvailable && e.env.cores.Some?
    && (s.act.target != 0 || (e.env.infoMin.Some? && e.env.infoMin.value != 0))
  }

  /** The frequency to pin to: the override if the hardware allows it, else the hardware minimum. */
  predicate IsTarget(override: nat, lowest: nat, highest: Option<nat>, t: nat) {
    t == (if override != 0 && highest.Some? && lowest <= override <= highest.value then override else lowest)
  }

  /** Which target a look at the hardware finds: none exactly if the hardware or its minimum cannot be read. */
  lemma TargetFoundExactly(override: nat, env: Env)
    ensures var found := Resolve(override, env);
      && (found.None? <==> !env.available || env.infoMin.None? || env.infoMin.value == 0)
      && (found.Some? ==> IsTarget(override, env.infoMin.value, env.infoMax, found.value))
  {
  }

  /** Which target a downclock uses: the one known before, or else the one found now. */
  lemma DownclockTarget(override: nat, a: ActState, freq: Freqs, env: Env)
    requires EnvOk(env, freq.Keys) && env.available
    requires a.target != 0 || (env.infoMin.Some? && env.infoMin.value != 0)
    ensures var t := Downclocked(override, a, freq, env).0.target;
      t != 0 && if a.target != 0 then t == a.target else IsTarget(override, env.infoMin.value, env.infoMax, t)
  {
    TargetFoundExactly(override, env);
  }

  /** A hold that begins and meets no failing write leaves every listed core at the target: the one known
      before, or else the one found now. */
  lemma HoldReachesTarget(cfg: Config, s: Sys, e: Event)
    requires SysOk(s) && EventOk(e, s.freq.Keys) && e.Control? && !s.act.applied && CanBegin(s, e)
    requires forall c, k :: !e.env.fails(c, k)
    ensures var s' := HoldDown(cfg, s, e.env.(available := e.stillAvailable)); var t := s'.act.target;
      && (if s.act.target != 0 then t == s.act.target else IsTarget(cfg.minOverride, e.env.infoMin.value, e.env.infoMax, t))
      && forall c :: c in e.env.cores.value ==> s'.freq[c] == Freq(t, t)
  {
    var env := e.env.(available := e.stillAvailable);
    DownclockTarget(cfg.minOverride, s.act, s.freq, env);
    DownclockOkExactly(cfg.minOverride, s.act, s.freq, env);
    HoldDownPins(cfg, s, env);
  }

  /** Some write that is needed to give the cores back fails. */
  predicate Hindered(s: Sys, fails: Faults)
    requires SysOk(s)
  {
    exists c :: c in s.act.saved &&
                ((s.freq[c].max != s.act.saved[c].max && fails(c, SetMax)) ||
                 (s.freq[c].min != s.act.saved[c].min && fails(c, SetMin)))
  }

  lemma UnpinFailsExactly(f: Freq, sv: Freq, failMin: bool, failMax: bool)
    ensures AllOk(Unpin(f, sv, failMin, failMax)) <==> !(f.max != sv.max && failMax) && !(f.min != sv.min && failMin)
  {
  }

  lemma LetGoUnlessHindered(s: Sys, fails: Faults)
    requires SysOk(s) && s.act.applied
    ensures LetGo(s, fails).active <==> Hindered(s, fails)
  {
    var writes := UnpinAll(s.freq, s.act.saved, fails);
    forall c | c in s.act.saved
      ensures AllOk(writes[c]) <==> !((s.freq[c].max != s.act.saved[c].max && fails(c, SetMax)) ||
                                       (s.freq[c].min != s.act.saved[c].min && fails(c, SetMin)))
    {
      UnpinFailsExactly(s.freq[c], s.act.saved[c], fails(c, SetMin), fails(c, SetMax));
    }
    assert AllWritesOk(writes) <==> forall c :: c in s.act.saved ==> AllOk(writes[c]);
  }

  lemma BeginsIfItCan(cfg: Config, s: Sys, e: Event)
    requires SysOk(s) && EventOk(e, s.freq.Keys) && e.Control? && !s.act.applied
    ensures HoldDown(cfg, s, e.env.(available := e.stillAvailable)).act.applied <==> CanBegin(s, e)
  {
  }

  lemma ControlStep(cfg: Config, s: Sys, e: Event, calledFor: bool)
    requires SysOk(s) && EventOk(e, s.freq.Keys) && e.Control? && Inv(cfg, s)
    requires calledFor <==> Desired(cfg, Step(cfg, s, e).machine, InputOf(cfg, e.seen, e.now), e.env.available)
    ensures Step(cfg, s, e).active <==>
            if calledFor then s.active || CanBegin(s, e) else s.active && Hindered(s, e.env.fails)
  {
    var s1 := s.(machine := Step(cfg, s, e).machine);
    if calledFor {
      if !s.active {
        BeginsIfItCan(cfg, s1, e);
      }
    } else if s.active {
      LetGoUnlessHindered(s1, e.env.fails);
    }
  }

  /** After every control tick of every run: the cores are held down exactly if the readings call for it and
      they were or can be, or, if the readings do not, if they were and a write to give them back fails. */
  lemma HeldExactlyByReadings(cfg: Config, freq0: Freqs, events: seq<Event>, n: nat)
    requires n < |events| && RunOk(freq0, events) && events[n].Control?
    ensures var s := SysAt(cfg, freq0, events, n);
      SysAt(cfg, freq0, events, n + 1).active <==>
        if CalledFor(cfg, events, n) then s.active || CanBegin(s, events[n])
        else s.active && Hindered(s, events[n].env.fails)
  {
    var s, e := SysAt(cfg, freq0, events, n), events[n];
    RunKeepsInv(cfg, freq0, events, n);
    MachineFollowsInputs(cfg, freq0, events, n + 1);
    ConfirmedByReadings(cfg, events, n + 1);
    InputIsReading(cfg, e);
    ControlStep(cfg, s, e, CalledFor(cfg, events, n));
  }

  /** A hold begins only outside dry run, on a fresh reading of no NPU process, and with a window of idle
      readings behind it. */
  lemma HoldBeginsOnReadings(cfg: Config, freq0: Freqs, events: seq<Event>, n: nat)
    requires n < |events| && RunOk(freq0, events) && events[n].Control?
    requires !SysAt(cfg, freq0, events, n).active && SysAt(cfg, freq0, events, n + 1).active
    ensures !cfg.dryRun && SeesNoProcess(cfg, events[n])
    ensures IdleLongEnough(cfg, Controls(events, n + 1))
  {
    HeldExactlyByReadings(cfg, freq0, events, n);
  }

  /** Enough fresh busy readings without an idle one among them end the hold, unless a write fails. */
  lemma BusyReadingsEndHold(cfg: Config, freq0: Freqs, events: seq<Event>, n: nat, i: nat)
    requires n < |events| && RunOk(freq0, events) && events[n].Control?
    requires var ctl := Controls(events, n + 1);
      i <= |ctl| && NoIdleReading(cfg, ctl, i, |ctl|) && BusyReadings(cfg, ctl, i, |ctl|) >= Break(cfg)
    ensures SysAt(cfg, freq0, events, n + 1).active ==>
              SysAt(cfg, freq0, events, n).active && Hindered(SysAt(cfg, freq0, events, n), events[n].env.fails)
  {
    var ctl, ticks := Controls(events, n + 1), Inputs(cfg, events, n + 1);
    ControlsFeed(cfg, events, n + 1);
    BusyIsRead(cfg, ctl, ticks, i, |ctl|);
    LongBusyEnds(MachineConfig(cfg), ticks, i, |ticks|);
    ConfirmedByReadings(cfg, events, n + 1);
    HeldExactlyByReadings(cfg, freq0, events, n);
  }

  /** A window of fresh idle readings that see no NPU process begins a hold, outside dry run, when the
      actuator can begin one. */
  lemma IdleReadingsBeginHold(cfg: Config, freq0: Freqs, events: seq<Event>, n: nat, e: nat)
    requires n < |events| && RunOk(freq0, events) && events[n].Control?
    requires var ctl := Controls(events, n + 1);
      && e < |ctl| && IdleFor(cfg, ctl, e, |ctl|) >= Window(cfg)
      && forall k :: e <= k < |ctl| ==> ReadsIdle(cfg, ctl[k]) && SeesNoProcess(cfg, ctl[k])
    requires !cfg.dryRun && events[n].env.available && CanBegin(SysAt(cfg, freq0, events, n), events[n])
    ensures SysAt(cfg, freq0, events, n + 1).active
  {
    var ctl, ticks := Controls(events, n + 1), Inputs(cfg, events, n + 1);
    ControlsFeed(cfg, events, n + 1);
    forall k | e <= k < |ticks|
      ensures IdleAlone(ticks[k])
    {
      InputIsReading(cfg, ctl[k]);
    }
    IdleTimeIsRead(cfg, ctl, ticks, e, |ctl|);
    LongIdleConfirms(MachineConfig(cfg), ticks, e, |ticks|);
    ConfirmedByReadings(cfg, events, n + 1);
    assert ctl[|ctl| - 1] == events[n];
    HeldExactlyByReadings(cfg, freq0, events, n);
  }
}
