/** The idle state machine of features/cpugov/state.go. Times and durations are integers
    (nanoseconds). */
module IdleMachine {
  import opened GoText

  datatype CpuState = Active | Observing | ConfirmedIdle

  datatype NpuState = NpuIdle | NpuBusy | NpuUnknown

  datatype CpuSample = CpuIdle | CpuBusy | CpuUnknown

  datatype StateConfig = StateConfig(observeWindow: int, nonIdleBreak: int)

  const DEFAULT_BREAK := 2
  const DEFAULT_WINDOW := 120 * 1_000_000_000

  /** The settings `newMachine` works with. */
  function Effective(cfg: StateConfig): (c: StateConfig)
    ensures c.observeWindow > 0 && c.nonIdleBreak > 0
  {
    StateConfig(if cfg.observeWindow <= 0 then DEFAULT_WINDOW else cfg.observeWindow,
                if cfg.nonIdleBreak <= 0 then DEFAULT_BREAK else cfg.nonIdleBreak)
  }

  datatype TickInput = TickInput(now: int, cpu: CpuSample, npu: NpuState)

  /** The fields of the machine; `last` is the clock of the previous tick, if there was one. */
  datatype State = State(state: CpuState, streak: int, idleElapsed: int, last: Option<int>)

  const INITIAL := State(Active, 0, 0, None)

  function Elapsed(last: Option<int>, now: int): nat {
    if last.Some? && last.value < now then now - last.value else 0
  }

  /** One control interval. */
  function Next(cfg: StateConfig, s: State, t: TickInput): State {
    var last := Some(t.now);
    if t.npu.NpuBusy? then State(Active, 0, 0, last)
    else
      match (s.state, t.cpu)
      case (Active, CpuIdle) => State(Observing, 0, 0, last)
      case (Observing, CpuIdle) =>
        var idle := s.idleElapsed + Elapsed(s.last, t.now);
        if idle >= Effective(cfg).observeWindow then State(ConfirmedIdle, 0, 0, last)
        else State(Observing, 0, idle, last)
      case (ConfirmedIdle, CpuIdle) => s.(streak := 0, last := last)
      case (Active, _) => s.(last := last)
      case (_, CpuBusy) =>
        if s.streak + 1 >= Effective(cfg).nonIdleBreak then State(Active, 0, 0, last)
        else s.(streak := s.streak + 1, last := last)
      case (_, CpuUnknown) => s.(last := last)
  }

  class Machine {
    const cfg: StateConfig
    var state: CpuState
    var streak: int
    var idleElapsed: int
    var lastNow: int
    var hasLast: bool

    ghost predicate Valid() {
      cfg == Effective(cfg)
    }

    constructor (cfg: StateConfig)
      ensures Valid() && View() == INITIAL && this.cfg == Effective(cfg)
    {
      this.cfg := Effective(cfg);
      state, streak, idleElapsed, lastNow, hasLast := Active, 0, 0, 0, false;
    }

    ghost function View(): State
      reads this
    {
      State(state, streak, idleElapsed, if hasLast then Some(lastNow) else None)
    }

    method Enter(s: CpuState)
      modifies this
      ensures View() == old(View()).(state := s, streak := 0, idleElapsed := 0)
    {
      state, streak, idleElapsed := s, 0, 0;
    }

    /** `machine.Tick`. */
    method Tick(now: int, cpu: CpuSample, npu: NpuState)
      requires Valid()
      modifies this
      ensures View() == Next(cfg, old(View()), TickInput(now, cpu, npu))
    {
      var delta := 0;
      if hasLast {
        delta := now - lastNow;
        if delta < 0 {
          delta := 0;
        }
      }
      if npu == NpuBusy {
        Enter(Active);
        lastNow, hasLast := now, true;
        return;
      }
      match state {
        case Active =>
          if cpu == CpuIdle {
            Enter(Observing);
          }
        case Observing =>
          match cpu {
            case CpuIdle =>
              streak := 0;
              idleElapsed := idleElapsed + delta;
              if idleElapsed >= cfg.observeWindow {
                Enter(ConfirmedIdle);
              }
            case CpuBusy =>
              streak := streak + 1;
              if streak >= cfg.nonIdleBreak {
                Enter(Active);
              }
            case CpuUnknown =>
          }
        case ConfirmedIdle =>
          match cpu {
            case CpuIdle =>
              streak := 0;
            case CpuBusy =>
              streak := streak + 1;
              if streak >= cfg.nonIdleBreak {
                Enter(Active);
              }
            case CpuUnknown =>
          }
      }
      lastNow, hasLast := now, true;
    }
  }

  // ----- runs ---------------------------------------------------------------------------------

  /** The machine after the first `n` ticks. */
  function StateAt(cfg: StateConfig, ticks: seq<TickInput>, n: nat): State
    requires n <= |ticks|
  {
    if n == 0 then INITIAL else Next(cfg, StateAt(cfg, ticks, n - 1), ticks[n - 1])
  }

  /** Tick `e` starts an observation. */
  predicate EntersObserving(cfg: StateConfig, ticks: seq<TickInput>, e: nat)
    requires e < |ticks|
  {
    StateAt(cfg, ticks, e).state.Active? && StateAt(cfg, ticks, e + 1).state.Observing?
  }

  /** Tick `c` confirms idleness. */
  predicate Confirms(cfg: StateConfig, ticks: seq<TickInput>, c: nat)
    requires c < |ticks|
  {
    StateAt(cfg, ticks, c).state.Observing? && StateAt(cfg, ticks, c + 1).state.ConfirmedIdle?
  }

  /** The time between tick `k` and the one before it; a clock that runs backwards counts nothing. */
  function Gap(ticks: seq<TickInput>, k: nat): nat
    requires 0 < k < |ticks|
  {
    if ticks[k - 1].now < ticks[k].now then ticks[k].now - ticks[k - 1].now else 0
  }

  /** The time that ended in an idle sample, over the ticks after `e` and before `n`. */
  function IdleTime(ticks: seq<TickInput>, e: nat, n: nat): nat
    requires n <= |ticks|
  {
    if n <= e + 1 then 0
    else IdleTime(ticks, e, n - 1) + (if ticks[n - 1].cpu.CpuIdle? then Gap(ticks, n - 1) else 0)
  }

  /** How many of the ticks from `i` up to `j` are busy samples. */
  function BusyCount(ticks: seq<TickInput>, i: nat, j: nat): nat
    requires i <= j <= |ticks|
  {
    if i == j then 0 else BusyCount(ticks, i, j - 1) + (if ticks[j - 1].cpu.CpuBusy? then 1 else 0)
  }

  predicate NoIdleSample(ticks: seq<TickInput>, i: nat, j: nat)
    requires i <= j <= |ticks|
  {
    forall k :: i <= k < j ==> !ticks[k].cpu.CpuIdle?
  }

  predicate FewBusy(cfg: StateConfig, ticks: seq<TickInput>, i: nat, j: nat)
    requires i <= j <= |ticks|
  {
    NoIdleSample(ticks, i, j) ==> BusyCount(ticks, i, j) < Effective(cfg).nonIdleBreak
  }

  /** After `e` and before `n` the NPU was never seen busy, and never were there `nonIdleBreak`
      busy samples without an idle one between them. */
  ghost predicate Quiet(cfg: StateConfig, ticks: seq<TickInput>, e: nat, n: nat)
    requires n <= |ticks|
  {
    && (forall k :: e < k < n ==> !ticks[k].npu.NpuBusy?)
    && (forall i, j :: e < i <= j <= n ==> FewBusy(cfg, ticks, i, j))
  }

  /** The busy samples after `e` and before `n` since the last idle one. */
  function BusyStreak(ticks: seq<TickInput>, e: nat, n: nat): nat
    requires n <= |ticks|
  {
    if n <= e + 1 || ticks[n - 1].cpu.CpuIdle? then 0
    else BusyStreak(ticks, e, n - 1) + (if ticks[n - 1].cpu.CpuBusy? then 1 else 0)
  }

  /** The streak is the longest idle-free stretch's busy count among those that end at `n`. */
  lemma {:induction false} StreakIsWorstWindow(ticks: seq<TickInput>, e: nat, n: nat)
    requires e < n <= |ticks|
    ensures forall i :: e < i <= n && NoIdleSample(ticks, i, n) ==> BusyCount(ticks, i, n) <= BusyStreak(ticks, e, n)
    ensures exists i :: e < i <= n && NoIdleSample(ticks, i, n) && BusyCount(ticks, i, n) == BusyStreak(ticks, e, n)
    decreases n
  {
    if n == e + 1 || ticks[n - 1].cpu.CpuIdle? {
      assert NoIdleSample(ticks, n, n) && BusyCount(ticks, n, n) == BusyStreak(ticks, e, n);
    } else {
      StreakIsWorstWindow(ticks, e, n - 1);
      var i :| e < i <= n - 1 && NoIdleSample(ticks, i, n - 1) &&
               BusyCount(ticks, i, n - 1) == BusyStreak(ticks, e, n - 1);
      assert NoIdleSample(ticks, i, n) && BusyCount(ticks, i, n) == BusyStreak(ticks, e, n);
      forall i | e < i <= n && NoIdleSample(ticks, i, n)
        ensures BusyCount(ticks, i, n) <= BusyStreak(ticks, e, n)
      {
        if i < n {
          assert NoIdleSample(ticks, i, n - 1);
        }
      }
    }
  }

  /** Staying quiet for one more tick is a matter of that tick and of the streak it leaves. */
  /** Idle time is only kept while observing, and busy samples are only counted while not active. */
  lemma {:induction false} CountersRest(cfg: StateConfig, ticks: seq<TickInput>, n: nat)
    requires n <= |ticks|
    ensures var s := StateAt(cfg, ticks, n);
      && (s.state != Observing ==> s.idleElapsed == 0) && (s.state == Active ==> s.streak == 0)
      && s.last == if n == 0 then None else Some(ticks[n - 1].now)
  {
    if n > 0 {
      CountersRest(cfg, ticks, n - 1);
    }
  }

  lemma QuietOneMore(cfg: StateConfig, ticks: seq<TickInput>, e: nat, n: nat)
    requires e < n < |ticks|
    ensures Quiet(cfg, ticks, e, n + 1) <==>
            Quiet(cfg, ticks, e, n) && !ticks[n].npu.NpuBusy? &&
            BusyStreak(ticks, e, n + 1) < Effective(cfg).nonIdleBreak
  {
    StreakIsWorstWindow(ticks, e, n + 1);
    if Quiet(cfg, ticks, e, n + 1) {
      var i :| e < i <= n + 1 && NoIdleSample(ticks, i, n + 1) &&
               BusyCount(ticks, i, n + 1) == BusyStreak(ticks, e, n + 1);
      assert FewBusy(cfg, ticks, i, n + 1);
    }
  }

  lemma QuietAtEntry(cfg: StateConfig, ticks: seq<TickInput>, e: nat)
    requires e < |ticks|
    ensures Quiet(cfg, ticks, e, e + 1)
  {
    forall i, j | e < i <= j <= e + 1
      ensures FewBusy(cfg, ticks, i, j)
    {
      assert i == j;
    }
  }

  ghost predicate StaysIn(cfg: StateConfig, ticks: seq<TickInput>, s: CpuState, e: nat, n: nat)
    requires e < n <= |ticks|
  {
    forall k :: e < k <= n ==> StateAt(cfg, ticks, k).state == s
  }

  /** An observation goes on exactly while it is quiet and the idle time is short of the window;
      the machine's counters are then what they stand for. */
  lemma {:induction false} ObservationGoesOn(cfg: StateConfig, ticks: seq<TickInput>, e: nat, n: nat)
    requires e < n <= |ticks| && EntersObserving(cfg, ticks, e)
    ensures StaysIn(cfg, ticks, Observing, e, n) <==>
            Quiet(cfg, ticks, e, n) && IdleTime(ticks, e, n) < Effective(cfg).observeWindow
    ensures StaysIn(cfg, ticks, Observing, e, n) ==>
              StateAt(cfg, ticks, n) ==
              State(Observing, BusyStreak(ticks, e, n), IdleTime(ticks, e, n), Some(ticks[n - 1].now))
    ensures StaysIn(cfg, ticks, Observing, e, n) ==> BusyStreak(ticks, e, n) < Effective(cfg).nonIdleBreak
    decreases n
  {
    if n == e + 1 {
      QuietAtEntry(cfg, ticks, e);
    } else {
      ObservationGoesOn(cfg, ticks, e, n - 1);
      QuietOneMore(cfg, ticks, e, n - 1);
      assert StaysIn(cfg, ticks, Observing, e, n) <==>
             StaysIn(cfg, ticks, Observing, e, n - 1) && StateAt(cfg, ticks, n).state.Observing?;
    }
  }

  /** A confirmation holds exactly while it is quiet. */
  lemma {:induction false} ConfirmationHolds(cfg: StateConfig, ticks: seq<TickInput>, c: nat, n: nat)
    requires c < n <= |ticks| && Confirms(cfg, ticks, c)
    ensures StaysIn(cfg, ticks, ConfirmedIdle, c, n) <==> Quiet(cfg, ticks, c, n)
    ensures StaysIn(cfg, ticks, ConfirmedIdle, c, n) ==>
              StateAt(cfg, ticks, n).streak == BusyStreak(ticks, c, n) < Effective(cfg).nonIdleBreak
    decreases n
  {
    if n == c + 1 {
      QuietAtEntry(cfg, ticks, c);
    } else {
      ConfirmationHolds(cfg, ticks, c, n - 1);
      QuietOneMore(cfg, ticks, c, n - 1);
      assert StaysIn(cfg, ticks, ConfirmedIdle, c, n) <==>
             StaysIn(cfg, ticks, ConfirmedIdle, c, n - 1) && StateAt(cfg, ticks, n).state.ConfirmedIdle?;
    }
  }

  /** When an observation that began at `e` ends in a confirmation at `c`: exactly at the first
      idle sample that completes the window, if everything since `e` was quiet. */
  lemma ConfirmsExactlyAtWindow(cfg: StateConfig, ticks: seq<TickInput>, e: nat, c: nat)
    requires e < c < |ticks| && EntersObserving(cfg, ticks, e)
    ensures StaysIn(cfg, ticks, Observing, e, c) && Confirms(cfg, ticks, c) <==>
            Quiet(cfg, ticks, e, c + 1) &&
            IdleTime(ticks, e, c) < Effective(cfg).observeWindow <= IdleTime(ticks, e, c + 1)
  {
    ObservationGoesOn(cfg, ticks, e, c);
    QuietOneMore(cfg, ticks, e, c);
    if StaysIn(cfg, ticks, Observing, e, c) {
      assert StateAt(cfg, ticks, c + 1) == Next(cfg, StateAt(cfg, ticks, c), ticks[c]);
    }
  }

  lemma {:induction false} ObservingHasEntry(cfg: StateConfig, ticks: seq<TickInput>, n: nat) returns (e: nat)
    requires n <= |ticks| && StateAt(cfg, ticks, n).state.Observing?
    ensures e < n && EntersObserving(cfg, ticks, e) && StaysIn(cfg, ticks, Observing, e, n)
    decreases n
  {
    if StateAt(cfg, ticks, n - 1).state.Observing? {
      e := ObservingHasEntry(cfg, ticks, n - 1);
    } else {
      e := n - 1;
    }
  }

  lemma {:induction false} ConfirmedHasEntry(cfg: StateConfig, ticks: seq<TickInput>, n: nat) returns (c: nat)
    requires n <= |ticks| && StateAt(cfg, ticks, n).state.ConfirmedIdle?
    ensures c < n && Confirms(cfg, ticks, c) && StaysIn(cfg, ticks, ConfirmedIdle, c, n)
    decreases n
  {
    if StateAt(cfg, ticks, n - 1).state.ConfirmedIdle? {
      c := ConfirmedHasEntry(cfg, ticks, n - 1);
    } else {
      c := n - 1;
    }
  }

  /** An idle sample while the NPU is not seen busy. */
  predicate IdleAlone(t: TickInput) {
    t.cpu.CpuIdle? && !t.npu.NpuBusy?
  }

  /** After such a sample the machine is not active as long as it stays quiet. */
  lemma {:induction false} QuietStaysAway(cfg: StateConfig, ticks: seq<TickInput>, e: nat, n: nat)
    requires e < n <= |ticks| && IdleAlone(ticks[e]) && Quiet(cfg, ticks, e, n)
    ensures !StateAt(cfg, ticks, n).state.Active? && StateAt(cfg, ticks, n).streak == BusyStreak(ticks, e, n)
    decreases n
  {
    if n > e + 1 {
      QuietOneMore(cfg, ticks, e, n - 1);
      QuietStaysAway(cfg, ticks, e, n - 1);
    }
  }

  lemma {:induction false} AwayHasIdleSample(cfg: StateConfig, ticks: seq<TickInput>, n: nat) returns (e: nat)
    requires n <= |ticks| && !StateAt(cfg, ticks, n).state.Active?
    ensures e < n && IdleAlone(ticks[e]) && Quiet(cfg, ticks, e, n)
    ensures StateAt(cfg, ticks, n).streak == BusyStreak(ticks, e, n) < Effective(cfg).nonIdleBreak
    decreases n
  {
    if StateAt(cfg, ticks, n - 1).state.Active? {
      e := n - 1;
      QuietAtEntry(cfg, ticks, e);
    } else {
      e := AwayHasIdleSample(cfg, ticks, n - 1);
      QuietOneMore(cfg, ticks, e, n - 1);
    }
  }

  /** Which samples begin an observation: an idle one with no busy NPU, after which none such has been
      quiet up to now. */
  lemma ObservationBeginsExactly(cfg: StateConfig, ticks: seq<TickInput>, e: nat)
    requires e < |ticks|
    ensures EntersObserving(cfg, ticks, e) <==>
            IdleAlone(ticks[e]) && forall k :: 0 <= k < e && IdleAlone(ticks[k]) ==> !Quiet(cfg, ticks, k, e)
  {
    if !StateAt(cfg, ticks, e).state.Active? {
      var k := AwayHasIdleSample(cfg, ticks, e);
    } else {
      forall k | 0 <= k < e && IdleAlone(ticks[k])
        ensures !Quiet(cfg, ticks, k, e)
      {
        if Quiet(cfg, ticks, k, e) {
          QuietStaysAway(cfg, ticks, k, e);
        }
      }
    }
  }

  lemma {:induction false} IdleGoesOn(cfg: StateConfig, ticks: seq<TickInput>, e: nat, n: nat)
    requires e < n <= |ticks| && forall k :: e <= k < n ==> IdleAlone(ticks[k])
    ensures var s := StateAt(cfg, ticks, n);
      s.last == Some(ticks[n - 1].now) &&
      (s.state.ConfirmedIdle? ||
       (s.state.Observing? && IdleTime(ticks, e, n) <= s.idleElapsed < Effective(cfg).observeWindow))
    decreases n
  {
    if n > e + 1 {
      IdleGoesOn(cfg, ticks, e, n - 1);
    } else {
      ObservingIsShortOfWindow(cfg, ticks, n);
    }
  }

  lemma {:induction false} ObservingIsShortOfWindow(cfg: StateConfig, ticks: seq<TickInput>, n: nat)
    requires n <= |ticks|
    ensures StateAt(cfg, ticks, n).state.Observing? ==> 0 <= StateAt(cfg, ticks, n).idleElapsed < Effective(cfg).observeWindow
  {
    if n > 0 {
      ObservingIsShortOfWindow(cfg, ticks, n - 1);
    }
  }

  /** A window of idle samples, with no busy NPU, is enough from any state. */
  lemma LongIdleConfirms(cfg: StateConfig, ticks: seq<TickInput>, e: nat, n: nat)
    requires e < n <= |ticks| && forall k :: e <= k < n ==> IdleAlone(ticks[k])
    requires IdleTime(ticks, e, n) >= Effective(cfg).observeWindow
    ensures StateAt(cfg, ticks, n).state.ConfirmedIdle?
  {
    IdleGoesOn(cfg, ticks, e, n);
  }

  /** Enough busy samples with no idle one among them end any state. */
  lemma LongBusyEnds(cfg: StateConfig, ticks: seq<TickInput>, i: nat, n: nat)
    requires i <= n <= |ticks| && NoIdleSample(ticks, i, n) && BusyCount(ticks, i, n) >= Effective(cfg).nonIdleBreak
    ensures StateAt(cfg, ticks, n).state.Active?
  {
    forall e: nat | e < i
      ensures !Quiet(cfg, ticks, e, n)
    {
      assert !FewBusy(cfg, ticks, i, n);
    }
    if !StateAt(cfg, ticks, n).state.Active? {
      var e := AwayHasIdleSample(cfg, ticks, n);
    }
  }

  /** The history behind a confirmed idle machine: an observation that began at tick `e`, was
      quiet and collected a whole window of idle time up to tick `c`, and quiet ever since. */
  ghost predicate WindowBehind(cfg: StateConfig, ticks: seq<TickInput>, e: nat, c: nat, n: nat)
    requires n <= |ticks|
  {
    && e < c < n
    && EntersObserving(cfg, ticks, e)
    && Quiet(cfg, ticks, e, c + 1)
    && IdleTime(ticks, e, c) < Effective(cfg).observeWindow <= IdleTime(ticks, e, c + 1)
    && Quiet(cfg, ticks, c, n)
  }

  ghost predicate IdlenessEarned(cfg: StateConfig, ticks: seq<TickInput>, n: nat)
    requires n <= |ticks|
  {
    exists e: nat, c: nat :: WindowBehind(cfg, ticks, e, c, n)
  }

  /** The machine is confirmed idle exactly when such a history lies behind it. */
  lemma ConfirmedExactlyAfterWindow(cfg: StateConfig, ticks: seq<TickInput>, n: nat)
    requires n <= |ticks|
    ensures StateAt(cfg, ticks, n).state.ConfirmedIdle? <==> IdlenessEarned(cfg, ticks, n)
  {
    if StateAt(cfg, ticks, n).state.ConfirmedIdle? {
      var c := ConfirmedHasEntry(cfg, ticks, n);
      var e := ObservingHasEntry(cfg, ticks, c);
      ConfirmsExactlyAtWindow(cfg, ticks, e, c);
      ConfirmationHolds(cfg, ticks, c, n);
      assert WindowBehind(cfg, ticks, e, c, n);
    }
    if e: nat, c: nat :| WindowBehind(cfg, ticks, e, c, n) {
      ConfirmsExactlyAtWindow(cfg, ticks, e, c);
      ConfirmationHolds(cfg, ticks, c, n);
    }
  }

  predicate Monotone(ticks: seq<TickInput>) {
    forall k :: 0 < k < |ticks| ==> ticks[k - 1].now <= ticks[k].now
  }

  lemma {:induction false} IdleTimeFitsInClock(ticks: seq<TickInput>, e: nat, n: nat)
    requires e < n <= |ticks| && Monotone(ticks)
    ensures IdleTime(ticks, e, n) <= ticks[n - 1].now - ticks[e].now
    decreases n
  {
    if n > e + 1 {
      IdleTimeFitsInClock(ticks, e, n - 1);
    }
  }

  /** On a clock that never runs back, idleness is confirmed no sooner than the window after the
      observation began. */
  lemma NeverConfirmedEarly(cfg: StateConfig, ticks: seq<TickInput>, n: nat)
    requires n <= |ticks| && Monotone(ticks) && StateAt(cfg, ticks, n).state.ConfirmedIdle?
    ensures exists e: nat, c: nat :: WindowBehind(cfg, ticks, e, c, n) &&
                           ticks[c].now - ticks[e].now >= Effective(cfg).observeWindow
  {
    ConfirmedExactlyAfterWindow(cfg, ticks, n);
    var e: nat, c: nat :| WindowBehind(cfg, ticks, e, c, n);
    IdleTimeFitsInClock(ticks, e, c + 1);
    assert WindowBehind(cfg, ticks, e, c, n) && ticks[c].now - ticks[e].now >= Effective(cfg).observeWindow;
  }

  /** An NPU seen busy ends any state at once, however short the busy streak is. */
  lemma BusyNpuOverrides(cfg: StateConfig, ticks: seq<TickInput>, n: nat)
    requires n < |ticks| && ticks[n].npu.NpuBusy?
    ensures forall m :: n < m <= |ticks| && StateAt(cfg, ticks, m).state.ConfirmedIdle? ==>
              exists e: nat, c: nat :: e > n && WindowBehind(cfg, ticks, e, c, m)
  {
    forall m | n < m <= |ticks| && StateAt(cfg, ticks, m).state.ConfirmedIdle?
      ensures exists e: nat, c: nat :: e > n && WindowBehind(cfg, ticks, e, c, m)
    {
      ConfirmedExactlyAfterWindow(cfg, ticks, m);
      var e: nat, c: nat :| WindowBehind(cfg, ticks, e, c, m);
      assert StateAt(cfg, ticks, n + 1).state.Active?;
      assert WindowBehind(cfg, ticks, e, c, m) && e > n;
    }
  }
}
