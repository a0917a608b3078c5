/** The frequency actuator of features/cpugov/actuator.go over an abstract cpufreq store: every
    core has a (min, max) pair, every write may fail and then changes nothing, reads succeed. */
module FreqActuator {
  import opened GoText

  type Core = string

  datatype Freq = Freq(min: nat, max: nat)

  datatype WriteKind = SetMin | SetMax

  /** One attempted write, and the pair the core holds after it. */
  datatype Write = Write(kind: WriteKind, value: nat, ok: bool, after: Freq)

  function Attempt(f: Freq, kind: WriteKind, value: nat, fails: bool): Write {
    Write(kind, value, !fails,
          if fails then f else if kind.SetMin? then f.(min := value) else f.(max := value))
  }

  /** The writes to one core in one call: none, one, or two in order. */
  datatype Attempts = Nothing | One(w: Write) | Two(w1: Write, w2: Write)

  function AsSeq(ws: Attempts): seq<Write> {
    match ws
    case Nothing => []
    case One(w) => [w]
    case Two(w1, w2) => [w1, w2]
  }

  function FreqAfter(f: Freq, ws: Attempts): Freq {
    match ws
    case Nothing => f
    case One(w) => w.after
    case Two(_, w2) => w2.after
  }

  predicate AllOk(ws: Attempts) {
    match ws
    case Nothing => true
    case One(w) => w.ok
    case Two(w1, w2) => w1.ok && w2.ok
  }

  /** `first`, and then `second` unless `first` failed. */
  function Then(first: Option<Write>, second: Option<Write>): Attempts {
    match (first, second)
    case (None, None) => Nothing
    case (None, Some(w)) => One(w)
    case (Some(w), None) => One(w)
    case (Some(w1), Some(w2)) => if w1.ok then Two(w1, w2) else One(w1)
  }

  /** A write is attempted only if it would change something. */
  function AttemptMin(f: Freq, value: nat, fails: bool): Option<Write> {
    if f.min == value then None else Some(Attempt(f, SetMin, value, fails))
  }

  function AttemptMax(f: Freq, value: nat, fails: bool): Option<Write> {
    if f.max == value then None else Some(Attempt(f, SetMax, value, fails))
  }

  /** The writes that pin a core at `f` to `t`: the floor, then the ceiling. */
  function Pin(f: Freq, t: nat, failMin: bool, failMax: bool): Attempts {
    Then(AttemptMin(f, t, failMin), AttemptMax(f.(min := t), t, failMax))
  }

  /** The writes that bring a core at `f` back to `sv`: the ceiling, then the floor. */
  function Unpin(f: Freq, sv: Freq, failMin: bool, failMax: bool): Attempts {
    Then(AttemptMax(f, sv.max, failMax), AttemptMin(f.(max := sv.max), sv.min, failMin))
  }

  type Faults = (Core, WriteKind) -> bool

  /** What the cpufreq source answers during one call: whether it is available, the hardware
      limits, the cores it lists, and which writes fail. */
  datatype Env = Env(available: bool, infoMin: Option<nat>, infoMax: Option<nat>,
                     cores: Option<seq<Core>>, fails: Faults)

  type Freqs = map<Core, Freq>
  type Log = map<Core, seq<Write>>
  type Writes = map<Core, Attempts>

  datatype ActState = ActState(target: nat, saved: Freqs, applied: bool, ok: bool)

  const INITIAL := ActState(0, map[], false, false)

  /** What pinning a core attempts: nothing that is already so; the floor first; and nothing more once a write
      has failed, which changes nothing. */
  lemma PinExactly(f: Freq, t: nat, failMin: bool, failMax: bool)
    ensures var lowered, pinned := Freq(t, f.max), Freq(t, t);
      var floor := if f.min == t then [] else [Write(SetMin, t, !failMin, if failMin then f else lowered)];
      var ceiling := if f.max == t then [] else [Write(SetMax, t, !failMax, if failMax then lowered else pinned)];
      var stops := f.min != t && failMin;
      && AsSeq(Pin(f, t, failMin, failMax)) == floor + (if stops then [] else ceiling)
      && FreqAfter(f, Pin(f, t, failMin, failMax)) ==
         Freq(if stops then f.min else t, if stops || failMax then f.max else t)
  {
  }

  /** The same for giving a core back, with the ceiling first. */
  lemma UnpinExactly(f: Freq, sv: Freq, failMin: bool, failMax: bool)
    ensures var raised := Freq(f.min, sv.max);
      var ceiling := if f.max == sv.max then [] else [Write(SetMax, sv.max, !failMax, if failMax then f else raised)];
      var floor := if f.min == sv.min then [] else [Write(SetMin, sv.min, !failMin, if failMin then raised else sv)];
      var stops := f.max != sv.max && failMax;
      && AsSeq(Unpin(f, sv, failMin, failMax)) == ceiling + (if stops then [] else floor)
      && FreqAfter(f, Unpin(f, sv, failMin, failMax)) ==
         Freq(if stops || failMin then f.min else sv.min, if stops then f.max else sv.max)
  {
  }

  predicate ListedOnce(cores: seq<Core>) {
    forall i, j :: 0 <= i < j < |cores| ==> cores[i] != cores[j]
  }

  /** A listed core is listed once and has its frequency files. */
  predicate EnvOk(env: Env, known: set<Core>) {
    env.cores.Some? ==> ListedOnce(env.cores.value) && CoreSet(env.cores.value) <= known
  }

  function CoreSet(cores: seq<Core>): (s: set<Core>)
    ensures forall c :: c in s <==> c in cores
  {
    if cores == [] then {} else CoreSet(cores[..|cores| - 1]) + {cores[|cores| - 1]}
  }

  function Listed(env: Env): set<Core> {
    if env.cores.Some? then CoreSet(env.cores.value) else {}
  }

  /** The target a refresh resolves to: the hardware minimum, or an override within limits. */
  function Resolve(override: nat, env: Env): Option<nat> {
    if !env.available || env.infoMin.None? || env.infoMin.value == 0 then None
    else if override == 0 || env.infoMax.None? then env.infoMin
    else if override < env.infoMin.value || override > env.infoMax.value then env.infoMin
    else Some(override)
  }

  function Refresh(override: nat, a: ActState, env: Env): ActState {
    match Resolve(override, env)
    case Some(t) => a.(target := t)
    case None => a.(ok := false)
  }

  function PinAll(freq: Freqs, cores: set<Core>, t: nat, fails: Faults): Writes
    requires cores <= freq.Keys
  {
    map c | c in cores :: Pin(freq[c], t, fails(c, SetMin), fails(c, SetMax))
  }

  function UnpinAll(freq: Freqs, saved: Freqs, fails: Faults): Writes
    requires saved.Keys <= freq.Keys
  {
    map c | c in saved :: Unpin(freq[c], saved[c], fails(c, SetMin), fails(c, SetMax))
  }

  function FreqsAfter(freq: Freqs, writes: Writes): Freqs {
    map c | c in freq :: if c in writes then FreqAfter(freq[c], writes[c]) else freq[c]
  }

  function LogAfter(log: Log, writes: Writes): Log {
    map c | c in log :: if c in writes then log[c] + AsSeq(writes[c]) else log[c]
  }

  predicate AllWritesOk(writes: Writes) {
    forall c :: c in writes ==> AllOk(writes[c])
  }

  function Restricted(freq: Freqs, cores: set<Core>): Freqs {
    map c | c in freq && c in cores :: freq[c]
  }

  /** Whether a downclock gets as far as the cores, once its target has been refreshed. */
  predicate ReachesCores(a: ActState, env: Env) {
    env.available && a.target != 0 && env.cores.Some?
  }

  /** `Downclock`: the new fields and the writes attempted. */
  function Downclocked(override: nat, a: ActState, freq: Freqs, env: Env): (ActState, Writes)
    requires EnvOk(env, freq.Keys)
  {
    var a1 := if env.available && a.target == 0 then Refresh(override, a, env) else a;
    if !ReachesCores(a1, env) then (a1.(ok := false), map[])
    else
      var writes := PinAll(freq, Listed(env), a1.target, env.fails);
      (a1.(saved := if a1.applied then a1.saved else a1.saved + Restricted(freq, Listed(env)),
           applied := true,
           ok := AllWritesOk(writes)),
       writes)
  }

  /** `Restore`. */
  function Restored(a: ActState, freq: Freqs, fails: Faults): (ActState, Writes)
    requires a.saved.Keys <= freq.Keys
  {
    if !a.applied then (a, map[])
    else
      var writes := UnpinAll(freq, a.saved, fails);
      (if AllWritesOk(writes) then a.(saved := map[], applied := false, ok := true) else a.(ok := false),
       writes)
  }

  /** No write that core `c` needs to reach `goal` fails. */
  predicate GetsTo(f: Freq, goal: Freq, fails: Faults, c: Core) {
    (f.min == goal.min || !fails(c, SetMin)) && (f.max == goal.max || !fails(c, SetMax))
  }

  predicate AllGetTo(freq: Freqs, cores: seq<Core>, t: nat, fails: Faults)
    requires CoreSet(cores) <= freq.Keys
  {
    forall c :: c in cores ==> GetsTo(freq[c], Freq(t, t), fails, c)
  }

  lemma PinAllOkExactly(freq: Freqs, cores: seq<Core>, t: nat, fails: Faults)
    requires CoreSet(cores) <= freq.Keys
    ensures AllWritesOk(PinAll(freq, CoreSet(cores), t, fails)) <==> AllGetTo(freq, cores, t, fails)
  {
    var writes := PinAll(freq, CoreSet(cores), t, fails);
    forall c | c in cores
      ensures AllOk(writes[c]) <==> GetsTo(freq[c], Freq(t, t), fails, c)
    {
    }
    assert AllWritesOk(writes) <==> forall c :: c in cores ==> AllOk(writes[c]);
  }

  /** When a downclock reports success, and what becomes of the saved pairs. */
  lemma DownclockOkExactly(override: nat, a: ActState, freq: Freqs, env: Env)
    requires EnvOk(env, freq.Keys)
    ensures var a' := Downclocked(override, a, freq, env).0;
      var begins := env.available && a'.target != 0 && env.cores.Some?;
      && (a'.applied <==> a.applied || begins)
      && (a'.ok <==> begins && AllGetTo(freq, env.cores.value, a'.target, env.fails))
      && (a.applied || !begins ==> a'.saved == a.saved)
      && (!a.applied && begins ==> a'.saved == a.saved + Restricted(freq, Listed(env)))
  {
    if env.cores.Some? {
      PinAllOkExactly(freq, env.cores.value, Downclocked(override, a, freq, env).0.target, env.fails);
    }
  }

  /** When a restore reports success, and that the saved pairs are kept until it does. */
  lemma RestoreOkExactly(a: ActState, freq: Freqs, fails: Faults)
    requires a.saved.Keys <= freq.Keys
    ensures var a' := Restored(a, freq, fails).0;
      var all := forall c :: c in a.saved ==> GetsTo(freq[c], a.saved[c], fails, c);
      if !a.applied then a' == a
      else a'.target == a.target && a'.ok == all && a'.applied == !all && a'.saved == if all then map[] else a.saved
  {
    var writes := UnpinAll(freq, a.saved, fails);
    forall c | c in a.saved
      ensures AllOk(writes[c]) <==> GetsTo(freq[c], a.saved[c], fails, c)
    {
    }
    assert AllWritesOk(writes) <==> forall c :: c in a.saved ==> AllOk(writes[c]);
  }

  // ----- the object -----------------------------------------------------------------------------

  class FreqStore {
    var freq: Freqs
    ghost var log: Log

    ghost predicate Valid()
      reads this
    {
      log.Keys == freq.Keys
    }

    constructor (freq: Freqs)
      ensures Valid() && this.freq == freq && forall c :: c in log ==> log[c] == []
    {
      this.freq := freq;
      log := map c | c in freq :: [];
    }

    /** `SetMinFreq` and `SetMaxFreq`. */
    method Set(c: Core, kind: WriteKind, value: nat, fails: bool) returns (err: bool)
      requires Valid() && c in freq
      modifies this
      ensures Valid() && err == fails
      ensures var w := Attempt(old(freq[c]), kind, value, fails);
        freq == old(freq)[c := w.after] && log == old(log)[c := old(log[c]) + [w]]
    {
      log := log[c := log[c] + [Attempt(freq[c], kind, value, fails)]];
      if !fails {
        match kind {
          case SetMin => freq := freq[c := freq[c].(min := value)];
          case SetMax => freq := freq[c := freq[c].(max := value)];
        }
      }
      return fails;
    }
  }

  class Actuator {
    const src: FreqStore
    const minOverride: nat
    var target: nat
    var saved: Freqs
    var applied: bool
    var ok: bool

    constructor (src: FreqStore, minOverride: nat)
      ensures View() == INITIAL && this.src == src && this.minOverride == minOverride
    {
      this.src, this.minOverride := src, minOverride;
      target, saved, applied, ok := 0, map[], false, false;
    }

    ghost function View(): ActState
      reads this
    {
      ActState(target, saved, applied, ok)
    }

    method RefreshTarget(env: Env)
      modifies this
      ensures View() == Refresh(minOverride, old(View()), env)
    {
      if !env.available {
        ok := false;
        return;
      }
      if env.infoMin.None? || env.infoMin.value == 0 {
        ok := false;
        return;
      }
      var infoMin := env.infoMin.value;
      var t := infoMin;
      if minOverride > 0 {
        if env.infoMax.None? {
          t := infoMin;
        } else if minOverride < infoMin || minOverride > env.infoMax.value {
          t := infoMin;
        } else {
          t := minOverride;
        }
      }
      target := t;
    }

    /** The loop body of `Downclock`. */
    method PinCore(c: Core, t: nat, fails: Faults) returns (coreOk: bool)
      requires src.Valid() && c in src.freq
      modifies src
      ensures src.Valid()
      ensures var ws := Pin(old(src.freq[c]), t, fails(c, SetMin), fails(c, SetMax));
        && src.freq == old(src.freq)[c := FreqAfter(old(src.freq[c]), ws)]
        && src.log == old(src.log)[c := old(src.log[c]) + AsSeq(ws)]
        && coreOk == AllOk(ws)
    {
      ghost var log0, done: seq<Write> := src.log[c], [];
      if src.freq[c].min != t {
        done := [Attempt(src.freq[c], SetMin, t, fails(c, SetMin))];
        var err := src.Set(c, SetMin, t, fails(c, SetMin));
        if err {
          return false;
        }
      }
      assert src.log[c] == log0 + done;
      if src.freq[c].max != t {
        ghost var w := Attempt(src.freq[c], SetMax, t, fails(c, SetMax));
        assert (log0 + done) + [w] == log0 + (done + [w]);
        done := done + [w];
        var err := src.Set(c, SetMax, t, fails(c, SetMax));
        assert done == AsSeq(Pin(old(src.freq[c]), t, fails(c, SetMin), fails(c, SetMax)));
        assert src.log == old(src.log)[c := log0 + done];
        if err {
          return false;
        }
      }
      assert src.log[c] == log0 + done;
      assert src.log == old(src.log)[c := log0 + done];
      return true;
    }

    method Downclock(env: Env) returns (err: bool)
      requires src.Valid() && EnvOk(env, src.freq.Keys)
      modifies this, src
      ensures src.Valid()
      ensures var (a, writes) := Downclocked(minOverride, old(View()), old(src.freq), env);
        View() == a && src.freq == FreqsAfter(old(src.freq), writes) && src.log == LogAfter(old(src.log), writes)
      ensures err <==> env.available && target != 0 && env.cores.None?
    {
      NoWrites(src.freq, src.log);
      if !env.available {
        ok := false;
        return false;
      }
      if target == 0 {
        RefreshTarget(env);
      }
      if target == 0 {
        ok := false;
        return false;
      }
      if env.cores.None? {
        ok := false;
        return true;
      }
      var cores := env.cores.value;
      if !applied {
        SaveOriginals(cores);
      }
      ok := PinCores(cores, target, env.fails);
      return false;
    }

    /** What `Downclock` does on the way from not applied to applied. */
    method SaveOriginals(cores: seq<Core>)
      requires CoreSet(cores) <= src.freq.Keys
      modifies this`saved, this`applied
      ensures applied && saved == old(saved) + Restricted(src.freq, CoreSet(cores))
    {
      saved := saved + map c | c in cores :: src.freq[c];
      assert (map c | c in cores :: src.freq[c]) == Restricted(src.freq, CoreSet(cores));
      applied := true;
    }

    /** The loop of `Downclock` over the listed cores. */
    method PinCores(cores: seq<Core>, t: nat, fails: Faults) returns (allOk: bool)
      requires src.Valid() && ListedOnce(cores) && CoreSet(cores) <= src.freq.Keys
      modifies src
      ensures src.Valid()
      ensures var writes := PinAll(old(src.freq), CoreSet(cores), t, fails);
        && src.freq == FreqsAfter(old(src.freq), writes)
        && src.log == LogAfter(old(src.log), writes)
        && allOk == AllWritesOk(writes)
    {
      allOk := true;
      ghost var freq0, log0 := src.freq, src.log;
      ghost var writes := PinAll(freq0, CoreSet(cores), t, fails);
      NoneWritten(freq0, log0, writes);
      ghost var done: set<Core> := {};
      for i := 0 to |cores|
        invariant src.Valid() && done <= writes.Keys
        invariant forall k :: 0 <= k < |cores| ==> (cores[k] in done <==> k < i)
        invariant src.freq == FreqsWith(freq0, writes, done)
        invariant src.log == LogWith(log0, writes, done)
        invariant allOk == OkIn(writes, done)
      {
        var c := cores[i];
        OneMoreWritten(freq0, log0, writes, done, c);
        var coreOk := PinCore(c, t, fails);
        if !coreOk {
          allOk := false;
        }
        done := done + {c};
      }
      assert done == writes.Keys;
      AllWritten(freq0, log0, writes);
    }

    /** The loop body of `Restore`. */
    method UnpinCore(c: Core, sv: Freq, fails: Faults) returns (coreOk: bool)
      requires src.Valid() && c in src.freq
      modifies src
      ensures src.Valid()
      ensures var ws := Unpin(old(src.freq[c]), sv, fails(c, SetMin), fails(c, SetMax));
        && src.freq == old(src.freq)[c := FreqAfter(old(src.freq[c]), ws)]
        && src.log == old(src.log)[c := old(src.log[c]) + AsSeq(ws)]
        && coreOk == AllOk(ws)
    {
      ghost var log0, done: seq<Write> := src.log[c], [];
      if src.freq[c].max != sv.max {
        done := [Attempt(src.freq[c], SetMax, sv.max, fails(c, SetMax))];
        var err := src.Set(c, SetMax, sv.max, fails(c, SetMax));
        if err {
          return false;
        }
      }
      assert src.log[c] == log0 + done;
      if src.freq[c].min != sv.min {
        ghost var w := Attempt(src.freq[c], SetMin, sv.min, fails(c, SetMin));
        assert (log0 + done) + [w] == log0 + (done + [w]);
        done := done + [w];
        var err := src.Set(c, SetMin, sv.min, fails(c, SetMin));
        assert done == AsSeq(Unpin(old(src.freq[c]), sv, fails(c, SetMin), fails(c, SetMax)));
        assert src.log == old(src.log)[c := log0 + done];
        if err {
          return false;
        }
      }
      assert src.log[c] == log0 + done;
      assert src.log == old(src.log)[c := log0 + done];
      return true;
    }

    /** `Restore`; the saved cores are visited in an order that does not matter. */
    method Restore(fails: Faults)
      requires src.Valid() && saved.Keys <= src.freq.Keys
      modifies this, src
      ensures src.Valid()
      ensures var (a, writes) := Restored(old(View()), old(src.freq), fails);
        View() == a && src.freq == FreqsAfter(old(src.freq), writes) && src.log == LogAfter(old(src.log), writes)
    {
      NoWrites(src.freq, src.log);
      if !applied {
        return;
      }
      ok := UnpinCores(fails);
      if ok {
        saved := map[];
        applied := false;
      }
    }

    /** The loop of `Restore` over the saved cores. */
    method UnpinCores(fails: Faults) returns (allOk: bool)
      requires src.Valid() && saved.Keys <= src.freq.Keys
      modifies src
      ensures src.Valid()
      ensures var writes := UnpinAll(old(src.freq), saved, fails);
        && src.freq == FreqsAfter(old(src.freq), writes)
        && src.log == LogAfter(old(src.log), writes)
        && allOk == AllWritesOk(writes)
    {
      ghost var freq0, log0 := src.freq, src.log;
      ghost var writes := UnpinAll(freq0, saved, fails);
      NoneWritten(freq0, log0, writes);
      allOk := true;
      var todo := saved.Keys;
      while todo != {}
        invariant src.Valid() && todo <= saved.Keys
        invariant src.freq == FreqsWith(freq0, writes, saved.Keys - todo)
        invariant src.log == LogWith(log0, writes, saved.Keys - todo)
        invariant allOk == OkIn(writes, saved.Keys - todo)
        decreases todo
      {
        var c :| c in todo;
        assert saved.Keys - (todo - {c}) == saved.Keys - todo + {c};
        OneMoreWritten(freq0, log0, writes, saved.Keys - todo, c);
        var coreOk := UnpinCore(c, saved[c], fails);
        if !coreOk {
          allOk := false;
        }
        todo := todo - {c};
      }
      assert saved.Keys - todo == writes.Keys;
      AllWritten(freq0, log0, writes);
    }
  }

  lemma NoWrites(freq: Freqs, log: Log)
    ensures FreqsAfter(freq, map[]) == freq && LogAfter(log, map[]) == log
  {
  }

  /** The store when the cores in `done` have had their writes and the others have not. */
  function FreqsWith(freq0: Freqs, writes: Writes, done: set<Core>): Freqs
    requires done <= writes.Keys
  {
    map c | c in freq0 :: if c in done then FreqAfter(freq0[c], writes[c]) else freq0[c]
  }

  function LogWith(log0: Log, writes: Writes, done: set<Core>): Log
    requires done <= writes.Keys
  {
    map c | c in log0 :: if c in done then log0[c] + AsSeq(writes[c]) else log0[c]
  }

  predicate OkIn(writes: Writes, done: set<Core>)
    requires done <= writes.Keys
  {
    forall c :: c in done ==> AllOk(writes[c])
  }

  lemma NoneWritten(freq0: Freqs, log0: Log, writes: Writes)
    ensures FreqsWith(freq0, writes, {}) == freq0 && LogWith(log0, writes, {}) == log0 && OkIn(writes, {})
  {
  }

  lemma OneMoreWritten(freq0: Freqs, log0: Log, writes: Writes, done: set<Core>, c: Core)
    requires c in writes && c in freq0 && c in log0 && c !in done && done <= writes.Keys
    ensures FreqsWith(freq0, writes, done)[c] == freq0[c]
    ensures FreqsWith(freq0, writes, done + {c}) == FreqsWith(freq0, writes, done)[c := FreqAfter(freq0[c], writes[c])]
    ensures LogWith(log0, writes, done + {c}) ==
            LogWith(log0, writes, done)[c := LogWith(log0, writes, done)[c] + AsSeq(writes[c])]
    ensures OkIn(writes, done + {c}) == (OkIn(writes, done) && AllOk(writes[c]))
  {
  }

  lemma AllWritten(freq0: Freqs, log0: Log, writes: Writes)
    ensures FreqsWith(freq0, writes, writes.Keys) == FreqsAfter(freq0, writes)
    ensures LogWith(log0, writes, writes.Keys) == LogAfter(log0, writes)
    ensures OkIn(writes, writes.Keys) == AllWritesOk(writes)
  {
  }
}
