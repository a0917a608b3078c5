/** What the governor guarantees over whole runs: any ticks, any samples, any write failing, any
    frequencies changed from outside between events. */
module FreqRuns {
  import opened GoText
  import opened FreqActuator
  import opened IdleMachine
  import opened FreqController

  predicate RunOk(freq0: Freqs, events: seq<Event>) {
    forall k :: 0 <= k < |events| ==> EventOk(events[k], freq0.Keys) && (k > 0 ==> !events[k].Startup?)
  }

  function Initial(freq0: Freqs): Sys {
    Sys(IdleMachine.INITIAL, false, FreqActuator.INITIAL, freq0, map c | c in freq0 :: [])
  }

  /** The system after the first `n` events, from cores at `freq0`. */
  function SysAt(cfg: Config, freq0: Freqs, events: seq<Event>, n: nat): (s: Sys)
    requires n <= |events| && RunOk(freq0, events)
    ensures SysOk(s) && s.freq.Keys == freq0.Keys
  {
    if n == 0 then Initial(freq0) else Step(cfg, SysAt(cfg, freq0, events, n - 1), events[n - 1])
  }

  // ----- one event ------------------------------------------------------------------------------

  predicate NoWriteEver(log: Log) {
    forall c :: c in log ==> log[c] == []
  }

  predicate Inv(cfg: Config, s: Sys) {
    && (s.active <==> s.act.applied)
    && (!s.act.applied ==> s.act.saved == map[])
    && (s.act.applied ==> s.act.target != 0)
    && (cfg.dryRun ==> !s.act.applied && NoWriteEver(s.log))
  }

  lemma StepKeepsInv(cfg: Config, s: Sys, e: Event)
    requires SysOk(s) && EventOk(e, s.freq.Keys) && Inv(cfg, s)
    ensures Inv(cfg, Step(cfg, s, e))
  {
  }

  lemma DownclockKeepsOriginals(override: nat, a: ActState, freq: Freqs, env: Env)
    requires EnvOk(env, freq.Keys)
    ensures var a' := Downclocked(override, a, freq, env).0;
      && (a.applied ==> a'.applied && a'.saved == a.saved)
      && (!a.applied && a'.applied ==> a'.saved == a.saved + Restricted(freq, Listed(env)))
  {
  }

  lemma LetGoKeepsOriginals(s: Sys, fails: Faults)
    requires SysOk(s)
    ensures LetGo(s, fails).act.applied ==> s.act.applied && LetGo(s, fails).act.saved == s.act.saved
  {
  }

  lemma HoldDownKeepsOriginals(cfg: Config, s: Sys, env: Env)
    requires SysOk(s) && EnvOk(env, s.freq.Keys) && (!s.act.applied ==> s.act.saved == map[])
    ensures var a := HoldDown(cfg, s, env).act;
      && (s.act.applied ==> a.applied && a.saved == s.act.saved)
      && (!s.act.applied && a.applied ==> a.saved == Restricted(s.freq, Listed(env)))
  {
    DownclockKeepsOriginals(cfg.minOverride, s.act, s.freq, env);
    assert map[] + Restricted(s.freq, Listed(env)) == Restricted(s.freq, Listed(env));
  }

  predicate KeepsOriginals(s: Sys, s': Sys, e: Event) {
    && (s.act.applied && s'.act.applied ==> s'.act.saved == s.act.saved)
    && (!s.act.applied && s'.act.applied ==> e.Control? && s'.act.saved == Restricted(s.freq, Listed(e.env)))
  }

  lemma ControlKeepsOriginals(cfg: Config, s: Sys, e: Event)
    requires SysOk(s) && EventOk(e, s.freq.Keys) && Inv(cfg, s) && e.Control?
    ensures KeepsOriginals(s, Step(cfg, s, e), e)
  {
    var s1 := s.(machine := Step(cfg, s, e).machine);
    var env := e.env.(available := e.stillAvailable);
    HoldDownKeepsOriginals(cfg, s1, env);
    LetGoKeepsOriginals(s1, e.env.fails);
    assert Listed(env) == Listed(e.env);
  }

  /** A held governor goes on holding the same originals; one that begins to hold saves what the
      listed cores were at. */
  lemma StepKeepsOriginals(cfg: Config, s: Sys, e: Event)
    requires SysOk(s) && EventOk(e, s.freq.Keys) && Inv(cfg, s)
    ensures KeepsOriginals(s, Step(cfg, s, e), e)
  {
    match e
    case Control(_, _, _, _) => ControlKeepsOriginals(cfg, s, e);
    case Shutdown(fails) => LetGoKeepsOriginals(s, fails);
    case _ =>
  }

  lemma PinReaches(f: Freq, t: nat, failMin: bool, failMax: bool)
    ensures AllOk(Pin(f, t, failMin, failMax)) ==> FreqAfter(f, Pin(f, t, failMin, failMax)) == Freq(t, t)
  {
  }

  lemma UnpinReaches(f: Freq, sv: Freq, failMin: bool, failMax: bool)
    ensures AllOk(Unpin(f, sv, failMin, failMax)) ==> FreqAfter(f, Unpin(f, sv, failMin, failMax)) == sv
  {
  }

  /** A restore that ends ok leaves every saved core at its original pair, and any other core, such as
      one that appeared after the hold began, where it is. */
  lemma LetGoRestores(s: Sys, fails: Faults)
    requires SysOk(s) && s.act.applied && !LetGo(s, fails).act.applied
    ensures forall c :: c in s.act.saved ==> LetGo(s, fails).freq[c] == s.act.saved[c]
    ensures forall c :: c in s.freq && c !in s.act.saved ==> LetGo(s, fails).freq[c] == s.freq[c]
  {
    var writes := UnpinAll(s.freq, s.act.saved, fails);
    forall c | c in s.act.saved
      ensures LetGo(s, fails).freq[c] == s.act.saved[c]
    {
      assert AllOk(writes[c]);
      UnpinReaches(s.freq[c], s.act.saved[c], fails(c, SetMin), fails(c, SetMax));
    }
  }

  lemma StepRestores(cfg: Config, s: Sys, e: Event)
    requires SysOk(s) && EventOk(e, s.freq.Keys) && Inv(cfg, s)
    requires s.act.applied && !Step(cfg, s, e).act.applied
    ensures forall c :: c in s.act.saved ==> Step(cfg, s, e).freq[c] == s.act.saved[c]
  {
    if e.Shutdown? {
      LetGoRestores(s, e.fails);
    } else {
      LetGoRestores(s.(machine := Step(cfg, s, e).machine), e.env.fails);
    }
  }

  /** A downclock that ends ok leaves every listed core at the target, whatever has happened to
      the cores since the last one. */
  lemma HoldDownPins(cfg: Config, s: Sys, env: Env)
    requires SysOk(s) && EnvOk(env, s.freq.Keys)
    ensures var s' := HoldDown(cfg, s, env);
      s'.act.ok ==>
        (s'.act.applied && s'.act.target != 0 && env.cores.Some? &&
         forall c :: c in Listed(env) ==> s'.freq[c] == Freq(s'.act.target, s'.act.target))
  {
    var s' := HoldDown(cfg, s, env);
    if s'.act.ok {
      var t := s'.act.target;
      var writes := PinAll(s.freq, Listed(env), t, env.fails);
      forall c | c in Listed(env)
        ensures s'.freq[c] == Freq(t, t)
      {
        assert AllOk(writes[c]);
        PinReaches(s.freq[c], t, env.fails(c, SetMin), env.fails(c, SetMax));
      }
    }
  }

  // ----- whole runs: what is held and given back --------------------------------------------------

  lemma {:induction false} RunKeepsInv(cfg: Config, freq0: Freqs, events: seq<Event>, n: nat)
    requires n <= |events| && RunOk(freq0, events)
    ensures Inv(cfg, SysAt(cfg, freq0, events, n))
  {
    if n > 0 {
      RunKeepsInv(cfg, freq0, events, n - 1);
      StepKeepsInv(cfg, SysAt(cfg, freq0, events, n - 1), events[n - 1]);
    }
  }

  /** The actuator's fields before the run and after each event. */
  function ActTrace(cfg: Config, freq0: Freqs, events: seq<Event>): (acts: seq<ActState>)
    requires RunOk(freq0, events)
    ensures |acts| == |events| + 1
    ensures forall n :: 0 <= n <= |events| ==> acts[n] == SysAt(cfg, freq0, events, n).act
  {
    seq(|events| + 1, n requires 0 <= n <= |events| => SysAt(cfg, freq0, events, n).act)
  }

  /** Event `i` begins to hold the cores down, and they are held from then on through `j`, however
      often restores fail and downclocks resume in between. */
  predicate HeldFrom(acts: seq<ActState>, i: nat, j: nat) {
    i < j < |acts| && !acts[i].applied && forall k :: i < k <= j ==> acts[k].applied
  }

  lemma OneEventKeepsOriginals(cfg: Config, freq0: Freqs, events: seq<Event>, n: nat)
    requires n < |events| && RunOk(freq0, events)
    ensures var acts := ActTrace(cfg, freq0, events);
      && (acts[n].applied && acts[n + 1].applied ==> acts[n + 1].saved == acts[n].saved)
      && (!acts[n].applied && acts[n + 1].applied ==>
            events[n].Control? &&
            acts[n + 1].saved == Restricted(SysAt(cfg, freq0, events, n).freq, Listed(events[n].env)))
  {
    RunKeepsInv(cfg, freq0, events, n);
    StepKeepsOriginals(cfg, SysAt(cfg, freq0, events, n), events[n]);
  }

  lemma {:induction false} SavedWhileHeld(acts: seq<ActState>, i: nat, j: nat)
    requires HeldFrom(acts, i, j)
    requires forall k :: i < k < j && acts[k].applied && acts[k + 1].applied ==> acts[k + 1].saved == acts[k].saved
    ensures acts[j].saved == acts[i + 1].saved
    decreases j
  {
    if j > i + 1 {
      SavedWhileHeld(acts, i, j - 1);
      assert acts[j - 1 + 1].saved == acts[j - 1].saved;
    }
  }

  /** All that time the saved pairs are those the listed cores had just before event `i`. */
  lemma OriginalsStaySaved(cfg: Config, freq0: Freqs, events: seq<Event>, i: nat, j: nat)
    requires RunOk(freq0, events) && HeldFrom(ActTrace(cfg, freq0, events), i, j)
    ensures events[i].Control?
    ensures SysAt(cfg, freq0, events, j).act.saved ==
            Restricted(SysAt(cfg, freq0, events, i).freq, Listed(events[i].env))
  {
    var acts := ActTrace(cfg, freq0, events);
    forall k | i < k < j && acts[k].applied && acts[k + 1].applied
      ensures acts[k + 1].saved == acts[k].saved
    {
      OneEventKeepsOriginals(cfg, freq0, events, k);
    }
    SavedWhileHeld(acts, i, j);
    OneEventKeepsOriginals(cfg, freq0, events, i);
  }

  /** When at last the cores are let go, each of them has again exactly the pair it had just
      before the hold began. */
  lemma LettingGoGivesBack(cfg: Config, freq0: Freqs, events: seq<Event>, i: nat, j: nat)
    requires j < |events| && RunOk(freq0, events) && HeldFrom(ActTrace(cfg, freq0, events), i, j)
    ensures events[i].Control?
    ensures !SysAt(cfg, freq0, events, j + 1).act.applied ==>
              forall c :: c in Listed(events[i].env) && c in freq0 ==>
                SysAt(cfg, freq0, events, j + 1).freq[c] == SysAt(cfg, freq0, events, i).freq[c]
  {
    OriginalsStaySaved(cfg, freq0, events, i, j);
    RunKeepsInv(cfg, freq0, events, j);
    var s := SysAt(cfg, freq0, events, j);
    if !SysAt(cfg, freq0, events, j + 1).act.applied {
      StepRestores(cfg, s, events[j]);
      forall c | c in Listed(events[i].env) && c in freq0
        ensures SysAt(cfg, freq0, events, j + 1).freq[c] == SysAt(cfg, freq0, events, i).freq[c]
      {
        assert c in s.act.saved;
      }
    }
  }

  /** `active` always says what the actuator holds. */
  lemma {:induction false} ActiveIsApplied(cfg: Config, freq0: Freqs, events: seq<Event>, n: nat)
    requires n <= |events| && RunOk(freq0, events)
    ensures SysAt(cfg, freq0, events, n).active == SysAt(cfg, freq0, events, n).act.applied
  {
    RunKeepsInv(cfg, freq0, events, n);
  }

  /** In dry run nothing is ever held and no write is ever attempted. */
  lemma {:induction false} DryRunNeverWrites(cfg: Config, freq0: Freqs, events: seq<Event>, n: nat)
    requires n <= |events| && RunOk(freq0, events) && cfg.dryRun
    ensures !SysAt(cfg, freq0, events, n).active
    ensures NoWriteEver(SysAt(cfg, freq0, events, n).log)
  {
    RunKeepsInv(cfg, freq0, events, n);
  }

  // ----- whole runs: min <= max at every write ------------------------------------------------------

  predicate Ordered(f: Freq) {
    f.min <= f.max
  }

  predicate LogOrdered(log: Log) {
    forall c :: c in log ==> forall i :: 0 <= i < |log[c]| ==> Ordered(log[c][i].after)
  }

  /** Every target that can be resolved during the run is within `cap`. */
  predicate TargetsWithin(cfg: Config, events: seq<Event>, cap: nat) {
    forall k :: 0 <= k < |events| && (events[k].Control? || events[k].Startup?) ==> EnvWithin(cfg, events[k].env, cap)
  }

  predicate EnvWithin(cfg: Config, env: Env, cap: nat) {
    forall available :: var t := Resolve(cfg.minOverride, env.(available := available)); t.Some? ==> t.value <= cap
  }

  predicate NoDrift(events: seq<Event>) {
    forall k :: 0 <= k < |events| ==> !events[k].Drift?
  }

  /** Each core and each saved pair leaves room for the target. */
  predicate CoreOrdered(f: Freq, t: nat) {
    Ordered(f) && t <= f.max
  }

  predicate SavedOrdered(f: Freq, sv: Freq, t: nat) {
    CoreOrdered(sv, t) && f.min <= sv.max
  }

  ghost predicate OrderInv(s: Sys, cap: nat) {
    && s.act.target <= cap
    && (forall c :: c in s.freq ==> CoreOrdered(s.freq[c], if s.act.target == 0 then cap else s.act.target))
    && (forall c :: c in s.act.saved && c in s.freq ==> SavedOrdered(s.freq[c], s.act.saved[c], s.act.target))
    && LogOrdered(s.log)
  }

  predicate AttemptsOrdered(ws: Attempts) {
    forall i :: 0 <= i < |AsSeq(ws)| ==> Ordered(AsSeq(ws)[i].after)
  }

  lemma PinStaysOrdered(f: Freq, t: nat, failMin: bool, failMax: bool)
    requires CoreOrdered(f, t)
    ensures AttemptsOrdered(Pin(f, t, failMin, failMax))
    ensures CoreOrdered(FreqAfter(f, Pin(f, t, failMin, failMax)), t)
    ensures forall sv :: SavedOrdered(f, sv, t) ==> SavedOrdered(FreqAfter(f, Pin(f, t, failMin, failMax)), sv, t)
  {
  }

  lemma UnpinStaysOrdered(f: Freq, sv: Freq, t: nat, failMin: bool, failMax: bool)
    requires CoreOrdered(f, t) && SavedOrdered(f, sv, t)
    ensures AttemptsOrdered(Unpin(f, sv, failMin, failMax))
    ensures CoreOrdered(FreqAfter(f, Unpin(f, sv, failMin, failMax)), t)
    ensures SavedOrdered(FreqAfter(f, Unpin(f, sv, failMin, failMax)), sv, t)
  {
  }

  lemma LogStaysOrdered(log: Log, writes: Writes)
    requires LogOrdered(log) && forall c :: c in writes ==> AttemptsOrdered(writes[c])
    ensures LogOrdered(LogAfter(log, writes))
  {
    forall c | c in log
      ensures forall i :: 0 <= i < |LogAfter(log, writes)[c]| ==> Ordered(LogAfter(log, writes)[c][i].after)
    {
      if c in writes {
        assert AttemptsOrdered(writes[c]);
      }
    }
  }

  lemma PinAllStaysOrdered(freq: Freqs, saved: Freqs, log: Log, cores: set<Core>, t: nat, fails: Faults)
    requires cores <= freq.Keys && LogOrdered(log)
    requires forall c :: c in freq ==> CoreOrdered(freq[c], t)
    requires forall c :: c in saved && c in freq ==> SavedOrdered(freq[c], saved[c], t)
    ensures var writes := PinAll(freq, cores, t, fails);
      && LogOrdered(LogAfter(log, writes))
      && (forall c :: c in freq ==> CoreOrdered(FreqsAfter(freq, writes)[c], t))
      && (forall c :: c in saved && c in freq ==> SavedOrdered(FreqsAfter(freq, writes)[c], saved[c], t))
  {
    var writes := PinAll(freq, cores, t, fails);
    forall c | c in writes
      ensures AttemptsOrdered(writes[c]) && CoreOrdered(FreqAfter(freq[c], writes[c]), t)
      ensures c in saved ==> SavedOrdered(FreqAfter(freq[c], writes[c]), saved[c], t)
    {
      PinStaysOrdered(freq[c], t, fails(c, SetMin), fails(c, SetMax));
    }
    LogStaysOrdered(log, writes);
  }

  /** The fields as `Downclock` finds them once it has looked for a target. */
  function Refreshed(cfg: Config, a: ActState, env: Env): ActState {
    if env.available && a.target == 0 then Refresh(cfg.minOverride, a, env) else a
  }

  lemma RefreshStaysOrdered(cfg: Config, s: Sys, env: Env, cap: nat)
    requires Inv(cfg, s) && OrderInv(s, cap) && EnvWithin(cfg, env, cap)
    ensures OrderInv(s.(act := Refreshed(cfg, s.act, env)), cap)
    ensures var a := Refreshed(cfg, s.act, env);
      a.applied == s.act.applied && a.saved == s.act.saved && (s.act.applied ==> a == s.act)
  {
    assert env.(available := env.available) == env;
  }

  lemma PinningStaysOrdered(cfg: Config, s: Sys, env: Env, cap: nat)
    requires SysOk(s) && EnvOk(env, s.freq.Keys) && Inv(cfg, s) && OrderInv(s, cap) && EnvWithin(cfg, env, cap)
    requires ReachesCores(Refreshed(cfg, s.act, env), env)
    ensures OrderInv(HoldDown(cfg, s, env), cap)
  {
    var t := Refreshed(cfg, s.act, env).target;
    RefreshStaysOrdered(cfg, s, env, cap);
    DownclockKeepsOriginals(cfg.minOverride, s.act, s.freq, env);
    if s.act.applied {
      PinAllStaysOrdered(s.freq, s.act.saved, s.log, Listed(env), t, env.fails);
    } else {
      var saved := Restricted(s.freq, Listed(env));
      assert map[] + saved == saved;
      PinAllStaysOrdered(s.freq, saved, s.log, Listed(env), t, env.fails);
    }
  }

  lemma HoldDownStaysOrdered(cfg: Config, s: Sys, env: Env, cap: nat)
    requires SysOk(s) && EnvOk(env, s.freq.Keys) && Inv(cfg, s)
    requires OrderInv(s, cap) && EnvWithin(cfg, env, cap)
    ensures OrderInv(HoldDown(cfg, s, env), cap)
  {
    if ReachesCores(Refreshed(cfg, s.act, env), env) {
      PinningStaysOrdered(cfg, s, env, cap);
    } else {
      RefreshStaysOrdered(cfg, s, env, cap);
      NoWrites(s.freq, s.log);
      assert HoldDown(cfg, s, env).freq == s.freq && HoldDown(cfg, s, env).log == s.log;
    }
  }

  lemma LetGoStaysOrdered(s: Sys, fails: Faults, cap: nat)
    requires SysOk(s) && OrderInv(s, cap) && (s.act.applied ==> s.act.target != 0)
    ensures OrderInv(LetGo(s, fails), cap)
  {
    if s.act.applied {
      var t := s.act.target;
      var writes := UnpinAll(s.freq, s.act.saved, fails);
      forall c | c in writes
        ensures AttemptsOrdered(writes[c]) && CoreOrdered(FreqAfter(s.freq[c], writes[c]), t)
        ensures SavedOrdered(FreqAfter(s.freq[c], writes[c]), s.act.saved[c], t)
      {
        UnpinStaysOrdered(s.freq[c], s.act.saved[c], t, fails(c, SetMin), fails(c, SetMax));
      }
      LogStaysOrdered(s.log, writes);
    }
  }

  lemma StepStaysOrdered(cfg: Config, s: Sys, e: Event, cap: nat)
    requires SysOk(s) && EventOk(e, s.freq.Keys) && Inv(cfg, s) && OrderInv(s, cap)
    requires !e.Drift? && (e.Startup? ==> s.act.target == 0)
    requires e.Control? || e.Startup? ==> EnvWithin(cfg, e.env, cap)
    ensures OrderInv(Step(cfg, s, e), cap)
  {
    if e.Startup? {
      assert e.env.(available := e.env.available) == e.env;
    } else if e.Shutdown? {
      LetGoStaysOrdered(s, e.fails, cap);
    } else {
      var s1 := s.(machine := Step(cfg, s, e).machine);
      var env := e.env.(available := e.stillAvailable);
      assert EnvWithin(cfg, env, cap) by {
        forall available
          ensures var t := Resolve(cfg.minOverride, env.(available := available)); t.Some? ==> t.value <= cap
        {
          assert env.(available := available) == e.env.(available := available);
        }
      }
      HoldDownStaysOrdered(cfg, s1, env, cap);
      LetGoStaysOrdered(s1, e.env.fails, cap);
    }
  }

  /** Over any run of downclocks and restores, with any writes failing and no change from outside,
      every single write leaves its core with min <= max, as long as no target exceeds a core's
      ceiling. The default target, the hardware minimum, never does. */
  lemma {:induction false} EveryWriteKeepsOrder(cfg: Config, freq0: Freqs, events: seq<Event>, n: nat, cap: nat)
    requires n <= |events| && RunOk(freq0, events) && NoDrift(events) && TargetsWithin(cfg, events, cap)
    requires forall c :: c in freq0 ==> Ordered(freq0[c]) && cap <= freq0[c].max
    ensures OrderInv(SysAt(cfg, freq0, events, n), cap)
    ensures LogOrdered(SysAt(cfg, freq0, events, n).log)
  {
    if n > 0 {
      EveryWriteKeepsOrder(cfg, freq0, events, n - 1, cap);
      RunKeepsInv(cfg, freq0, events, n - 1);
      StepStaysOrdered(cfg, SysAt(cfg, freq0, events, n - 1), events[n - 1], cap);
    }
  }

  /** A first downclock to `t` keeps every core ordered at every write, whatever fails, exactly when
      `t` is within every core's present ceiling: an override above one breaks it. */
  lemma OrderKeptExactlyWithinCeilings(freq: Freqs, cores: set<Core>, t: nat)
    requires cores <= freq.Keys && forall c :: c in cores ==> Ordered(freq[c])
    ensures (forall fails: Faults, c :: c in cores ==> AttemptsOrdered(PinAll(freq, cores, t, fails)[c]))
            <==> (forall c :: c in cores ==> t <= freq[c].max)
  {
    if forall c :: c in cores ==> t <= freq[c].max {
      forall fails: Faults, c | c in cores
        ensures AttemptsOrdered(PinAll(freq, cores, t, fails)[c])
      {
        PinStaysOrdered(freq[c], t, fails(c, SetMin), fails(c, SetMax));
      }
    } else {
      var c :| c in cores && t > freq[c].max;
      var none: Faults := (c, k) => false;
      var ws := AsSeq(PinAll(freq, cores, t, none)[c]);
      assert ws[0].after == Freq(t, freq[c].max);
    }
  }

  /** A restore keeps every saved core ordered at every write, whatever fails, exactly when no core's
      present floor is above its saved ceiling. */
  lemma RestoreKeepsOrderExactly(freq: Freqs, saved: Freqs)
    requires saved.Keys <= freq.Keys && forall c :: c in saved ==> Ordered(freq[c]) && Ordered(saved[c])
    ensures (forall fails: Faults, c :: c in saved ==> AttemptsOrdered(UnpinAll(freq, saved, fails)[c]))
            <==> (forall c :: c in saved ==> freq[c].min <= saved[c].max)
  {
    if forall c :: c in saved ==> freq[c].min <= saved[c].max {
      forall fails: Faults, c | c in saved
        ensures AttemptsOrdered(UnpinAll(freq, saved, fails)[c])
      {
        UnpinOrdered(freq[c], saved[c], fails(c, SetMin), fails(c, SetMax));
      }
    } else {
      var c :| c in saved && freq[c].min > saved[c].max;
      var none: Faults := (c, k) => false;
      var ws := AsSeq(UnpinAll(freq, saved, none)[c]);
      assert ws[0].after == Freq(freq[c].min, saved[c].max);
    }
  }

  lemma UnpinOrdered(f: Freq, sv: Freq, failMin: bool, failMax: bool)
    requires Ordered(f) && Ordered(sv) && f.min <= sv.max
    ensures AttemptsOrdered(Unpin(f, sv, failMin, failMax))
  {
  }

  // One core whose ceiling is within the hardware limits, and a governor that comes to hold it down.

  const CAPPED: Freqs := map["0" := Freq(1000, 1500)]

  function GovernorConfig(override: nat): Config {
    Config(10, 97.0, 1, 2, false, override, 10)
  }

  function IdleEnv(): Env {
    Env(true, Some(1000), Some(3000), Some(["0"]), (c, k) => false)
  }

  function IdleTick(now: int): Event {
    Control(now, Latest(0.0, now, 0, now, true), IdleEnv(), true)
  }

  const HOLD: seq<Event> := [Startup(IdleEnv()), IdleTick(1), IdleTick(3)]

  lemma HoldEventsOk(more: seq<Event>)
    requires forall k :: 0 <= k < |more| ==> EventOk(more[k], CAPPED.Keys) && !more[k].Startup?
    ensures EnvOk(IdleEnv(), CAPPED.Keys) && Listed(IdleEnv()) == {"0"} && RunOk(CAPPED, HOLD + more)
  {
    assert ["0"][..0] == [];
    assert CoreSet(["0"]) == {"0"};
  }

  predicate Observed(s: Sys, t: nat) {
    && s.machine == State(Observing, 0, 0, Some(1)) && !s.active
    && s.act == FreqActuator.INITIAL.(target := t) && s.freq == CAPPED && s.log == map["0" := []]
  }

  /** The first two events resolve the target and begin an observation. */
  lemma HoldObserved(override: nat, t: nat, more: seq<Event>)
    requires RunOk(CAPPED, HOLD + more) && Resolve(override, IdleEnv()) == Some(t)
    ensures Observed(SysAt(GovernorConfig(override), CAPPED, HOLD + more, 2), t)
  {
    var cfg, events := GovernorConfig(override), HOLD + more;
    assert SysAt(cfg, CAPPED, events, 0) == Initial(CAPPED);
    assert events[0] == HOLD[0] && events[1] == HOLD[1];
    assert SysAt(cfg, CAPPED, events, 1) == Step(cfg, Initial(CAPPED), events[0]);
  }

  lemma TickConfirms(cfg: Config, s: Sys, t: nat)
    requires cfg == GovernorConfig(cfg.minOverride) && Observed(s, t)
    ensures SysOk(s) && EventOk(IdleTick(3), s.freq.Keys)
    ensures var s1 := s.(machine := State(ConfirmedIdle, 0, 0, Some(3)));
      var s2 := HoldDown(cfg, s1, IdleEnv());
      Step(cfg, s, IdleTick(3)) == s2.(active := s2.act.applied)
  {
    HoldEventsOk([]);
    assert InputOf(cfg, IdleTick(3).seen, 3) == TickInput(3, CpuIdle, NpuIdle);
    assert IdleEnv().(available := true) == IdleEnv();
  }

  /** The third event pins the core to the target. */
  predicate Held(s: Sys, t: nat) {
    && s.active && s.act == ActState(t, CAPPED, true, true)
    && s.freq == map["0" := Freq(t, t)]
    && s.log == map["0" := AsSeq(Pin(CAPPED["0"], t, false, false))]
  }

  lemma HoldPins(override: nat, t: nat, more: seq<Event>)
    requires RunOk(CAPPED, HOLD + more) && Resolve(override, IdleEnv()) == Some(t)
    ensures Held(SysAt(GovernorConfig(override), CAPPED, HOLD + more, 3), t)
  {
    var cfg := GovernorConfig(override);
    HoldObserved(override, t, more);
    var s := SysAt(cfg, CAPPED, HOLD + more, 2);
    TickConfirms(cfg, s, t);
    HoldEventsOk([]);
    assert (HOLD + more)[2] == IdleTick(3);
    PinnedFromCapped(cfg, s.(machine := State(ConfirmedIdle, 0, 0, Some(3))), t);
  }

  lemma PinnedFromCapped(cfg: Config, s: Sys, t: nat)
    requires s.act == FreqActuator.INITIAL.(target := t) && s.freq == CAPPED && s.log == map["0" := []] && t != 0
    requires SysOk(s) && EnvOk(IdleEnv(), s.freq.Keys) && Listed(IdleEnv()) == {"0"}
    ensures var s' := HoldDown(cfg, s, IdleEnv());
      && s'.act == ActState(t, CAPPED, true, true)
      && s'.freq == map["0" := Freq(t, t)]
      && s'.log == map["0" := AsSeq(Pin(CAPPED["0"], t, false, false))]
  {
    var writes := PinAll(CAPPED, {"0"}, t, IdleEnv().fails);
    assert writes == map["0" := Pin(CAPPED["0"], t, false, false)];
    assert map[] + Restricted(CAPPED, {"0"}) == CAPPED;
    assert s.log["0"] + AsSeq(writes["0"]) == AsSeq(writes["0"]);
  }

  /** Write `i` to the core leaves its floor above its ceiling. */
  predicate LeavesAt(log: Log, i: nat, f: Freq) {
    "0" in log && i < |log["0"]| && log["0"][i].after == f
  }

  /** An override within the hardware limits and above the core's ceiling: the first write of the first
      downclock breaks the order, and no write fails. */
  lemma OverrideBreaksOrder()
    ensures RunOk(CAPPED, HOLD) && NoDrift(HOLD)
    ensures var log := SysAt(GovernorConfig(2000), CAPPED, HOLD, 3).log; LeavesAt(log, 0, Freq(2000, 1500)) && !LogOrdered(log)
  {
    HoldEventsOk([]);
    assert HOLD + [] == HOLD;
    HoldPins(2000, 2000, []);
  }

  /** Something else moves the held core above its old ceiling, and the daemon stops. */
  const RAISED: Freqs := map["0" := Freq(1800, 2000)]

  function StopEvents(): seq<Event> {
    [Drift(RAISED), Shutdown((c, k) => false)]
  }

  lemma ReleaseRaised(s: Sys, fails: Faults)
    requires Held(s, 1000) && SysOk(s.(freq := RAISED)) && !fails("0", SetMax) && !fails("0", SetMin)
    ensures LeavesAt(LetGo(s.(freq := RAISED), fails).log, 1, Freq(1800, 1500))
  {
    var writes := UnpinAll(RAISED, CAPPED, fails);
    assert s.log["0"] == [Write(SetMax, 1000, true, Freq(1000, 1000))];
    assert AsSeq(writes["0"])[0].after == Freq(1800, 1500);
  }

  lemma LastTwoEvents(cfg: Config, events: seq<Event>)
    requires |events| == 5 && RunOk(CAPPED, events) && events[3] == Drift(RAISED) && events[4].Shutdown?
    requires SysAt(cfg, CAPPED, events, 3).active
    ensures SysAt(cfg, CAPPED, events, 5) ==
            LetGo(SysAt(cfg, CAPPED, events, 3).(freq := RAISED), events[4].fails)
  {
    assert SysAt(cfg, CAPPED, events, 4) == SysAt(cfg, CAPPED, events, 3).(freq := RAISED);
  }

  /** With the default target, and no write failing: the first write of the restore breaks the order. */
  lemma RestoreBreaksOrder()
    ensures RunOk(CAPPED, HOLD + StopEvents()) && Ordered(RAISED["0"])
    ensures var log := SysAt(GovernorConfig(0), CAPPED, HOLD + StopEvents(), 5).log;
      LeavesAt(log, 1, Freq(1800, 1500)) && !LogOrdered(log)
  {
    var cfg, events := GovernorConfig(0), HOLD + StopEvents();
    HoldEventsOk(StopEvents());
    HoldPins(0, 1000, StopEvents());
    assert events[3] == Drift(RAISED) && events[4] == StopEvents()[1];
    LastTwoEvents(cfg, events);
    ReleaseRaised(SysAt(cfg, CAPPED, events, 3), events[4].fails);
  }

  // ----- whole runs: why a hold begins ----------------------------------------------------------------

  /** The machine inputs of the first `n` events. */
  function Inputs(cfg: Config, events: seq<Event>, n: nat): seq<TickInput>
    requires n <= |events|
  {
    if n == 0 then []
    else Inputs(cfg, events, n - 1) +
         (if events[n - 1].Control? then [InputOf(cfg, events[n - 1].seen, events[n - 1].now)] else [])
  }

  lemma {:induction false} StateAtPrefix(cfg: StateConfig, ticks: seq<TickInput>, t: TickInput, n: nat)
    requires n <= |ticks|
    ensures StateAt(cfg, ticks + [t], n) == StateAt(cfg, ticks, n)
  {
    if n > 0 {
      StateAtPrefix(cfg, ticks, t, n - 1);
    }
  }

  /** The machine after the inputs of the first `n` events. */
  function FedMachine(cfg: Config, events: seq<Event>, n: nat): State
    requires n <= |events|
  {
    StateAt(MachineConfig(cfg), Inputs(cfg, events, n), |Inputs(cfg, events, n)|)
  }

  lemma OneMoreInput(cfg: Config, events: seq<Event>, n: nat)
    requires n < |events|
    ensures FedMachine(cfg, events, n + 1) ==
            if events[n].Control?
            then Next(MachineConfig(cfg), FedMachine(cfg, events, n), InputOf(cfg, events[n].seen, events[n].now))
            else FedMachine(cfg, events, n)
  {
    var ticks := Inputs(cfg, events, n);
    if events[n].Control? {
      StateAtPrefix(MachineConfig(cfg), ticks, InputOf(cfg, events[n].seen, events[n].now), |ticks|);
    } else {
      assert Inputs(cfg, events, n + 1) == ticks;
    }
  }

  lemma StepMovesMachine(cfg: Config, s: Sys, e: Event)
    requires SysOk(s) && EventOk(e, s.freq.Keys)
    ensures Step(cfg, s, e).machine ==
            if e.Control? then Next(MachineConfig(cfg), s.machine, InputOf(cfg, e.seen, e.now)) else s.machine
  {
  }

  lemma {:induction false} MachineFollowsInputs(cfg: Config, freq0: Freqs, events: seq<Event>, n: nat)
    requires n <= |events| && RunOk(freq0, events)
    ensures SysAt(cfg, freq0, events, n).machine == FedMachine(cfg, events, n)
  {
    if n > 0 {
      MachineFollowsInputs(cfg, freq0, events, n - 1);
      OneMoreInput(cfg, events, n - 1);
      StepMovesMachine(cfg, SysAt(cfg, freq0, events, n - 1), events[n - 1]);
    }
  }

  lemma StepBeginsHold(cfg: Config, s: Sys, e: Event)
    requires SysOk(s) && EventOk(e, s.freq.Keys)
    requires !s.active && Step(cfg, s, e).active
    ensures e.Control?
    ensures Desired(cfg, Step(cfg, s, e).machine, InputOf(cfg, e.seen, e.now), e.env.available)
  {
  }

  /** A hold begins only outside dry run, on a fresh reading of no NPU process, and with a whole
      observation window of quiet idle time behind it. */
  lemma HoldBeginsOnlyWhenIdle(cfg: Config, freq0: Freqs, events: seq<Event>, n: nat)
    requires n < |events| && RunOk(freq0, events)
    requires !SysAt(cfg, freq0, events, n).active && SysAt(cfg, freq0, events, n + 1).active
    ensures !cfg.dryRun && events[n].Control?
    ensures var e := events[n];
      e.seen.npuKnown && e.seen.npuTotal <= 0 && e.seen.npuTs != 0 && e.now - e.seen.npuTs <= cfg.npuStale
    ensures var ticks := Inputs(cfg, events, n + 1);
      IdlenessEarned(MachineConfig(cfg), ticks, |ticks|)
  {
    StepBeginsHold(cfg, SysAt(cfg, freq0, events, n), events[n]);
    MachineFollowsInputs(cfg, freq0, events, n + 1);
    var ticks := Inputs(cfg, events, n + 1);
    ConfirmedExactlyAfterWindow(MachineConfig(cfg), ticks, |ticks|);
  }

  /** A control tick that sees an NPU process on a fresh reading lets go, or has tried to: if the
      cores are still held after it, some write failed. */
  lemma {:induction false} BusyNpuLetsGo(cfg: Config, freq0: Freqs, events: seq<Event>, n: nat)
    requires n < |events| && RunOk(freq0, events) && events[n].Control?
    requires InputOf(cfg, events[n].seen, events[n].now).npu.NpuBusy?
    ensures SysAt(cfg, freq0, events, n + 1).active ==>
              exists c :: c in SysAt(cfg, freq0, events, n).act.saved &&
                          (events[n].env.fails(c, SetMin) || events[n].env.fails(c, SetMax))
  {
    RunKeepsInv(cfg, freq0, events, n);
    var s := SysAt(cfg, freq0, events, n);
    var e := events[n];
    if SysAt(cfg, freq0, events, n + 1).active {
      var s1 := s.(machine := Next(MachineConfig(cfg), s.machine, InputOf(cfg, e.seen, e.now)));
      assert SysAt(cfg, freq0, events, n + 1) == LetGo(s1, e.env.fails);
      var writes := UnpinAll(s1.freq, s1.act.saved, e.env.fails);
      assert !AllWritesOk(writes);
      var c :| c in writes && !AllOk(writes[c]);
    }
  }
}
