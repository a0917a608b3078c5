/** The boost reconciler of features/nputurbo/controller.go and actuator.go: cards are boosted one
    by one, but only all of them together can be brought back. */
module TurboController {
  import opened GoText
  import opened TurboFormula

  const FIXED_CURRENT_MHZ := 1800

  datatype Config = Config(maxFreqMhz: int, stepMhz: int, dryRun: bool, restoreOnShutdown: bool)

  datatype SlowCard = SlowCard(id: int, score: real)

  datatype BoostRow = BoostRow(id: int, b: int, wouldBoost: bool)

  datatype Command = Inject(id: int, freq: int) | Clean

  /** Which commands fail during one call; a command that fails changes nothing. */
  type Faults = Command -> bool

  type Targets = map<int, int>

  // ----- what is wanted -----------------------------------------------------------------------

  function RowOf(cfg: Config, card: SlowCard): BoostRow {
    match ComputeTargetB(FIXED_CURRENT_MHZ, card.score, cfg.maxFreqMhz, cfg.stepMhz)
    case Some(b) => BoostRow(card.id, b, true)
    case None => BoostRow(card.id, 0, false)
  }

  /** The target of the last row that wants a boost for the card. */
  function Wanted(rows: seq<BoostRow>): Targets {
    if rows == [] then map[]
    else
      var before, r := Wanted(rows[..|rows| - 1]), rows[|rows| - 1];
      if r.wouldBoost then before[r.id := r.b] else before
  }

  predicate Wants(rows: seq<BoostRow>, i: nat, id: int)
    requires i < |rows|
  {
    rows[i].wouldBoost && rows[i].id == id
  }

  /** A card is wanted exactly when some row wants it, at the target of the last such row. */
  lemma {:induction false} WantedIsLastBoost(rows: seq<BoostRow>, id: int)
    ensures id in Wanted(rows) <==> exists i :: 0 <= i < |rows| && Wants(rows, i, id)
    ensures forall i :: 0 <= i < |rows| && Wants(rows, i, id) && (forall k :: i < k < |rows| ==> !Wants(rows, k, id)) ==>
              id in Wanted(rows) && Wanted(rows)[id] == rows[i].b
  {
    if rows != [] {
      var before, last := rows[..|rows| - 1], |rows| - 1;
      WantedIsLastBoost(before, id);
      assert forall i :: 0 <= i < last ==> (Wants(before, i, id) <==> Wants(rows, i, id));
      if Wants(rows, last, id) {
        assert id in Wanted(rows);
      } else {
        assert id in Wanted(rows) <==> id in Wanted(before);
      }
    }
  }

  function RowsOf(cfg: Config, cards: seq<SlowCard>): seq<BoostRow> {
    seq(|cards|, i requires 0 <= i < |cards| => RowOf(cfg, cards[i]))
  }

  function DesiredOf(cfg: Config, cards: seq<SlowCard>): Targets {
    Wanted(RowsOf(cfg, cards))
  }

  /** Every target is above the fixed base and within the maximum. */
  predicate TargetsInRange(cfg: Config, t: Targets) {
    forall id :: id in t ==> FIXED_CURRENT_MHZ < t[id] <= cfg.maxFreqMhz
  }

  lemma {:induction false} WantedInRange(cfg: Config, rows: seq<BoostRow>)
    requires forall i :: 0 <= i < |rows| && rows[i].wouldBoost ==> FIXED_CURRENT_MHZ < rows[i].b <= cfg.maxFreqMhz
    ensures TargetsInRange(cfg, Wanted(rows))
  {
    if rows != [] {
      WantedInRange(cfg, rows[..|rows| - 1]);
    }
  }

  lemma DesiredInRange(cfg: Config, cards: seq<SlowCard>)
    ensures TargetsInRange(cfg, DesiredOf(cfg, cards))
  {
    WantedInRange(cfg, RowsOf(cfg, cards));
  }

  // ----- one reconciliation -------------------------------------------------------------------

  /** The cards as the hardware has them, the actuator's memory of them, and every command issued. */
  datatype State = State(applied: Targets, hardware: Targets, issued: multiset<Command>)

  const INITIAL := State(map[], map[], multiset{})

  /** Some boosted card is no longer wanted. */
  predicate SomeRecovered(applied: Targets, desired: Targets) {
    exists id :: id in applied && id !in desired
  }

  /** `LastApplied`: 0 stands for not boosted. */
  function LastApplied(applied: Targets, id: int): int {
    if id in applied then applied[id] else 0
  }

  /** The cards a tick injects: all wanted ones after a clean, else the new and changed ones. */
  function ToInject(applied: Targets, desired: Targets): set<int> {
    if SomeRecovered(applied, desired) then desired.Keys
    else set id | id in desired && LastApplied(applied, id) != desired[id]
  }

  /** `t` with the injected targets that did not fail. */
  function Injected(t: Targets, desired: Targets, ids: set<int>, fails: Faults): Targets
    requires ids <= desired.Keys
  {
    t + map id | id in ids && !fails(Inject(id, desired[id])) :: desired[id]
  }

  function InjectCommands(desired: Targets, ids: set<int>): set<Command>
    requires ids <= desired.Keys
  {
    set id | id in ids :: Inject(id, desired[id])
  }

  function Commands(applied: Targets, desired: Targets): set<Command> {
    InjectCommands(desired, ToInject(applied, desired)) +
    (if SomeRecovered(applied, desired) then {Clean} else {})
  }

  function Cleaned(t: Targets, fails: Faults): Targets {
    if fails(Clean) then t else map[]
  }

  // What the hardware makes of the commands it is given, one after the other.

  datatype Issued = Issued(command: Command, ok: bool)

  function EffectOf(cards: Targets, i: Issued): Targets {
    if !i.ok then cards
    else
      match i.command
      case Inject(id, freq) => cards[id := freq]
      case Clean => map[]
  }

  function Effect(cards: Targets, log: seq<Issued>): Targets {
    if log == [] then cards else EffectOf(Effect(cards, log[..|log| - 1]), log[|log| - 1])
  }

  ghost function Pick(ids: set<int>): (id: int)
    requires ids != {}
    ensures id in ids
  {
    EmptyOrNot(ids);
    var id :| id in ids;
    id
  }

  /** The injections of the cards in `ids`, in some order. */
  ghost function InjectLog(desired: Targets, ids: set<int>, fails: Faults): seq<Issued>
    requires ids <= desired.Keys
  {
    if ids == {} then []
    else
      var id := Pick(ids);
      var c := Inject(id, desired[id]);
      InjectLog(desired, ids - {id}, fails) + [Issued(c, !fails(c))]
  }

  /** The commands of one reconciliation: the clean, if any, comes first. */
  ghost function TickLog(applied: Targets, desired: Targets, fails: Faults): seq<Issued> {
    (if SomeRecovered(applied, desired) then [Issued(Clean, !fails(Clean))] else []) +
    InjectLog(desired, ToInject(applied, desired), fails)
  }

  lemma {:induction false} EffectConcat(cards: Targets, a: seq<Issued>, b: seq<Issued>)
    ensures Effect(cards, a + b) == Effect(Effect(cards, a), b)
  {
    if b == [] {
      assert a + b == a;
    } else {
      assert (a + b)[..|a + b| - 1] == a + b[..|b| - 1];
      EffectConcat(cards, a, b[..|b| - 1]);
    }
  }

  /** One by one, the injections give what they give together. */
  lemma {:induction false} EffectOfInjects(cards: Targets, desired: Targets, ids: set<int>, fails: Faults)
    requires ids <= desired.Keys
    ensures Effect(cards, InjectLog(desired, ids, fails)) == Injected(cards, desired, ids, fails)
  {
    if ids != {} {
      var id := Pick(ids);
      var log := InjectLog(desired, ids, fails);
      EffectOfInjects(cards, desired, ids - {id}, fails);
      assert log[..|log| - 1] == InjectLog(desired, ids - {id}, fails);
      assert ids - {id} + {id} == ids;
      InjectedOneMore(cards, desired, ids - {id}, id, fails);
    }
  }

  /** The targets on the cards, by the commands' effect, are those that the reconciler counts on. */
  lemma EffectOfTick(cards: Targets, applied: Targets, desired: Targets, fails: Faults)
    ensures Effect(cards, TickLog(applied, desired, fails)) ==
            Injected(if SomeRecovered(applied, desired) then Cleaned(cards, fails) else cards,
                     desired, ToInject(applied, desired), fails)
  {
    var first: seq<Issued> := if SomeRecovered(applied, desired) then [Issued(Clean, !fails(Clean))] else [];
    EffectConcat(cards, first, InjectLog(desired, ToInject(applied, desired), fails));
    if SomeRecovered(applied, desired) {
      assert first[..0] == [];
    }
    EffectOfInjects(Effect(cards, first), desired, ToInject(applied, desired), fails);
  }

  ghost function Reconciled(s: State, desired: Targets, fails: Faults): State {
    State(Injected(if SomeRecovered(s.applied, desired) then Cleaned(s.applied, fails) else s.applied,
                   desired, ToInject(s.applied, desired), fails),
          Effect(s.hardware, TickLog(s.applied, desired, fails)),
          s.issued + multiset(Commands(s.applied, desired)))
  }

  lemma ReconciledByClean(s: State, desired: Targets, fails: Faults)
    requires SomeRecovered(s.applied, desired)
    ensures Reconciled(s, desired, fails) ==
            State(Injected(Cleaned(s.applied, fails), desired, desired.Keys, fails),
                  Injected(Cleaned(s.hardware, fails), desired, desired.Keys, fails),
                  s.issued + multiset{Clean} + multiset(InjectCommands(desired, desired.Keys)))
  {
    EffectOfTick(s.hardware, s.applied, desired, fails);
    var injects := InjectCommands(desired, desired.Keys);
    assert Commands(s.applied, desired) == injects + {Clean};
    OneMoreCommand(injects, Clean);
    Regrouped(s.issued, multiset(injects), multiset{Clean});
  }

  lemma OneMoreCommand(commands: set<Command>, c: Command)
    requires c !in commands
    ensures multiset(commands + {c}) == multiset(commands) + multiset{c}
  {
  }

  lemma Regrouped(a: multiset<Command>, b: multiset<Command>, c: multiset<Command>)
    ensures a + (b + c) == a + c + b
  {
  }

  lemma ReconciledWithoutClean(s: State, desired: Targets, fails: Faults)
    requires !SomeRecovered(s.applied, desired)
    ensures var ids := ToInject(s.applied, desired);
      Reconciled(s, desired, fails) ==
      State(Injected(s.applied, desired, ids, fails), Injected(s.hardware, desired, ids, fails),
            s.issued + multiset(InjectCommands(desired, ids)))
  {
    EffectOfTick(s.hardware, s.applied, desired, fails);
    var injects := InjectCommands(desired, ToInject(s.applied, desired));
    assert injects + {} == injects;
  }

  /** A control tick, with the slow cards if they could be fetched and parsed, or a shutdown. */
  datatype Event = Control(cards: Option<seq<SlowCard>>, fails: Faults) | Shutdown(fails: Faults)

  ghost function Step(cfg: Config, s: State, e: Event): State {
    match e
    case Control(None, _) => s
    case Control(Some(cards), fails) =>
      if cfg.dryRun then s else Reconciled(s, DesiredOf(cfg, cards), fails)
    case Shutdown(fails) =>
      if !cfg.restoreOnShutdown then s
      else State(Cleaned(s.applied, fails), EffectOf(s.hardware, Issued(Clean, !fails(Clean))), s.issued + multiset{Clean})
  }

  // ----- the objects ----------------------------------------------------------------------------

  /** The command runner and the cards behind it. */
  class Hardware {
    var cards: Targets
    ghost var issued: multiset<Command>
    ghost var lastOk: bool

    constructor ()
      ensures cards == map[] && issued == multiset{} && lastOk
    {
      cards, issued, lastOk := map[], multiset{}, true;
    }

    /** `SetFreq` and `Clean` of the source. */
    method Exec(c: Command, fails: bool) returns (err: bool)
      modifies this
      ensures err == fails && lastOk == !fails && issued == old(issued) + multiset{c}
      ensures cards == if fails then old(cards) else match c case Inject(id, freq) => old(cards)[id := freq] case Clean => map[]
    {
      issued := issued + multiset{c};
      lastOk := !fails;
      if !fails {
        match c {
          case Inject(id, freq) => cards := cards[id := freq];
          case Clean => cards := map[];
        }
      }
      return fails;
    }
  }

  class Actuator {
    const src: Hardware
    var lastApplied: Targets
    var ok: bool

    constructor (src: Hardware)
      requires src.lastOk
      ensures lastApplied == map[] && Valid() && this.src == src
    {
      this.src := src;
      lastApplied, ok := map[], true;
    }

    /** `ok` tells how the last command went. */
    ghost predicate Valid()
      reads this, src
    {
      ok == src.lastOk
    }

    ghost function View(): State
      reads this, src
    {
      State(lastApplied, src.cards, src.issued)
    }

    method Boost(id: int, target: int, fails: bool) returns (err: bool)
      modifies this, src
      ensures Valid() && err == fails
      ensures lastApplied == if fails then old(lastApplied) else old(lastApplied)[id := target]
      ensures src.cards == if fails then old(src.cards) else old(src.cards)[id := target]
      ensures src.issued == old(src.issued) + multiset{Inject(id, target)}
    {
      err := src.Exec(Inject(id, target), fails);
      if err {
        ok := false;
        return;
      }
      lastApplied := lastApplied[id := target];
      ok := true;
    }

    method RestoreAll(fails: bool) returns (err: bool)
      modifies this, src
      ensures Valid() && err == fails
      ensures lastApplied == if fails then old(lastApplied) else map[]
      ensures src.cards == if fails then old(src.cards) else map[]
      ensures src.issued == old(src.issued) + multiset{Clean}
    {
      err := src.Exec(Clean, fails);
      if err {
        ok := false;
        return;
      }
      lastApplied := map[];
      ok := true;
    }

    /** The loops of `tick` that inject, over the cards of `ids`; their order does not matter. */
    method InjectAll(desired: Targets, ids: set<int>, fails: Faults)
      requires Valid() && ids <= desired.Keys
      modifies this, src
      ensures Valid()
      ensures lastApplied == Injected(old(lastApplied), desired, ids, fails)
      ensures src.cards == Injected(old(src.cards), desired, ids, fails)
      ensures src.issued == old(src.issued) + multiset(InjectCommands(desired, ids))
    {
      ghost var s0 := View();
      var todo := ids;
      InjectedNone(s0, desired, fails);
      while todo != {}
        invariant Valid() && todo <= ids
        invariant lastApplied == Injected(s0.applied, desired, ids - todo, fails)
        invariant src.cards == Injected(s0.hardware, desired, ids - todo, fails)
        invariant src.issued == s0.issued + multiset(InjectCommands(desired, ids - todo))
        decreases todo
      {
        EmptyOrNot(todo);
        var id :| id in todo;
        assert ids - (todo - {id}) == ids - todo + {id};
        InjectedOneMore(s0.applied, desired, ids - todo, id, fails);
        InjectedOneMore(s0.hardware, desired, ids - todo, id, fails);
        var _ := Boost(id, desired[id], fails(Inject(id, desired[id])));
        todo := todo - {id};
      }
      assert ids - todo == ids;
    }
  }

  lemma EmptyOrNot(ids: set<int>)
    ensures ids == {} || exists id :: id in ids
  {
    if forall id :: id !in ids {
      assert ids == {};
    }
  }

  lemma InjectedNone(s: State, desired: Targets, fails: Faults)
    ensures Injected(s.applied, desired, {}, fails) == s.applied
    ensures Injected(s.hardware, desired, {}, fails) == s.hardware
    ensures multiset(InjectCommands(desired, {})) == multiset{}
  {
    assert InjectCommands(desired, {}) == {};
  }

  lemma InjectedOneMore(t: Targets, desired: Targets, done: set<int>, id: int, fails: Faults)
    requires done <= desired.Keys && id in desired && id !in done
    ensures var b := desired[id];
      Injected(t, desired, done + {id}, fails) ==
      if fails(Inject(id, b)) then Injected(t, desired, done, fails) else Injected(t, desired, done, fails)[id := b]
    ensures multiset(InjectCommands(desired, done + {id})) ==
            multiset(InjectCommands(desired, done)) + multiset{Inject(id, desired[id])}
  {
    assert InjectCommands(desired, done + {id}) == InjectCommands(desired, done) + {Inject(id, desired[id])};
    assert Inject(id, desired[id]) !in InjectCommands(desired, done);
  }

  class Controller {
    const cfg: Config
    const actuator: Actuator

    constructor (cfg: Config, actuator: Actuator)
      ensures this.cfg == cfg && this.actuator == actuator
    {
      this.cfg, this.actuator := cfg, actuator;
    }

    /** The loop of `planBoosts`. */
    method PlanBoosts(cards: seq<SlowCard>) returns (rows: seq<BoostRow>)
      ensures rows == RowsOf(cfg, cards)
    {
      rows := [];
      for i := 0 to |cards|
        invariant rows == RowsOf(cfg, cards[..i])
      {
        var b := ComputeTargetB(FIXED_CURRENT_MHZ, cards[i].score, cfg.maxFreqMhz, cfg.stepMhz);
        rows := rows + [if b.Some? then BoostRow(cards[i].id, b.value, true) else BoostRow(cards[i].id, 0, false)];
      }
      assert cards[..|cards|] == cards;
    }

    /** The loop of `tick` that turns the plan into a map. */
    method Collect(rows: seq<BoostRow>) returns (desired: Targets)
      ensures desired == Wanted(rows)
    {
      desired := map[];
      for i := 0 to |rows|
        invariant desired == Wanted(rows[..i])
      {
        assert rows[..i + 1][..i] == rows[..i];
        if rows[i].wouldBoost {
          desired := desired[rows[i].id := rows[i].b];
        }
      }
      assert rows[..|rows|] == rows;
    }

    /** `tick`. */
    method Tick(cards: Option<seq<SlowCard>>, fails: Faults)
      requires actuator.Valid()
      modifies actuator, actuator.src
      ensures actuator.Valid()
      ensures actuator.View() == Step(cfg, old(actuator.View()), Control(cards, fails))
    {
      if cards.None? {
        return;
      }
      var rows := PlanBoosts(cards.value);
      var desired := Collect(rows);
      if cfg.dryRun {
        return;
      }
      Reconcile(desired, fails);
    }

    method Reconcile(desired: Targets, fails: Faults)
      requires actuator.Valid()
      modifies actuator, actuator.src
      ensures actuator.Valid()
      ensures actuator.View() == Reconciled(old(actuator.View()), desired, fails)
    {
      var current := actuator.lastApplied;
      var recoveredCount := |set id | id in current && id !in desired|;
      RecoveredCounts(current, desired);
      if recoveredCount > 0 && |current| > 0 {
        ReconciledByClean(actuator.View(), desired, fails);
        var _ := actuator.RestoreAll(fails(Clean));
        actuator.InjectAll(desired, desired.Keys, fails);
      } else {
        ReconciledWithoutClean(actuator.View(), desired, fails);
        var changed := set id | id in desired && LastApplied(current, id) != desired[id];
        actuator.InjectAll(desired, changed, fails);
      }
    }

    /** `Restore`, the shutdown hook. */
    method Restore(fails: Faults)
      requires actuator.Valid()
      modifies actuator, actuator.src
      ensures actuator.Valid()
      ensures actuator.View() == Step(cfg, old(actuator.View()), Shutdown(fails))
    {
      if !cfg.restoreOnShutdown {
        return;
      }
      var _ := actuator.RestoreAll(fails(Clean));
    }
  }

  lemma RecoveredCounts(applied: Targets, desired: Targets)
    ensures |set id | id in applied && id !in desired| > 0 <==> SomeRecovered(applied, desired)
    ensures SomeRecovered(applied, desired) ==> |applied| > 0
  {
    var gone := set id | id in applied && id !in desired;
    if SomeRecovered(applied, desired) {
      var id :| id in applied && id !in desired;
      assert id in gone;
      assert |applied| == |applied.Keys| && id in applied.Keys;
    } else {
      forall id | id in applied
        ensures id !in gone
      {
        assert id in desired;
      }
    }
  }

  // ----- whole runs -----------------------------------------------------------------------------

  ghost function After(cfg: Config, s: State, events: seq<Event>): State
    decreases |events|
  {
    if events == [] then s
    else Step(cfg, After(cfg, s, events[..|events| - 1]), events[|events| - 1])
  }

  lemma StepKeepsMatch(cfg: Config, s: State, e: Event)
    requires s.applied == s.hardware
    ensures Step(cfg, s, e).applied == Step(cfg, s, e).hardware
  {
    if e.Control? && e.cards.Some? {
      EffectOfTick(s.hardware, s.applied, DesiredOf(cfg, e.cards.value), e.fails);
    }
  }

  lemma StepStaysInRange(cfg: Config, s: State, e: Event)
    requires TargetsInRange(cfg, s.applied)
    ensures TargetsInRange(cfg, Step(cfg, s, e).applied)
  {
    if e.Control? && e.cards.Some? && !cfg.dryRun {
      var desired := DesiredOf(cfg, e.cards.value);
      DesiredInRange(cfg, e.cards.value);
      var start := if SomeRecovered(s.applied, desired) then Cleaned(s.applied, e.fails) else s.applied;
      InjectedInRange(cfg, start, desired, ToInject(s.applied, desired), e.fails);
    }
  }

  lemma InjectedInRange(cfg: Config, t: Targets, desired: Targets, ids: set<int>, fails: Faults)
    requires ids <= desired.Keys && TargetsInRange(cfg, t) && TargetsInRange(cfg, desired)
    ensures TargetsInRange(cfg, Injected(t, desired, ids, fails))
  {
  }

  /** Whatever commands fail, the actuator's memory is what the commands issued so far have made of
      the hardware, and every boosted card is above the fixed base and within the maximum. */
  lemma {:induction false} MemoryMatchesHardware(cfg: Config, events: seq<Event>)
    ensures var s := After(cfg, INITIAL, events); s.applied == s.hardware && TargetsInRange(cfg, s.applied)
  {
    if events != [] {
      var before := events[..|events| - 1];
      MemoryMatchesHardware(cfg, before);
      StepKeepsMatch(cfg, After(cfg, INITIAL, before), events[|events| - 1]);
      StepStaysInRange(cfg, After(cfg, INITIAL, before), events[|events| - 1]);
    }
  }

  predicate AllSucceed(fails: Faults, commands: set<Command>) {
    forall c :: c in commands ==> !fails(c)
  }

  /** From any state at all, one reconciliation without failures brings exactly the wanted cards to
      exactly the wanted targets, on the hardware too if the memory was right. */
  lemma ReconcileConverges(s: State, desired: Targets, fails: Faults)
    requires AllSucceed(fails, Commands(s.applied, desired))
    requires forall id :: id in desired ==> desired[id] != 0
    ensures Reconciled(s, desired, fails).applied == desired
    ensures s.applied == s.hardware ==> Reconciled(s, desired, fails).hardware == desired
  {
    var ids := ToInject(s.applied, desired);
    EffectOfTick(s.hardware, s.applied, desired, fails);
    forall id | id in ids
      ensures !fails(Inject(id, desired[id]))
    {
      assert Inject(id, desired[id]) in InjectCommands(desired, ids);
    }
    if SomeRecovered(s.applied, desired) {
      assert Clean in Commands(s.applied, desired);
      assert map[] + desired == desired;
    } else {
      InjectedReaches(s.applied, desired, fails);
    }
  }

  lemma InjectedReaches(t: Targets, desired: Targets, fails: Faults)
    requires !SomeRecovered(t, desired) && forall id :: id in desired ==> desired[id] != 0
    requires forall id :: id in ToInject(t, desired) ==> !fails(Inject(id, desired[id]))
    ensures Injected(t, desired, ToInject(t, desired), fails) == desired
  {
    var r := Injected(t, desired, ToInject(t, desired), fails);
    forall id | id in desired
      ensures id in r && r[id] == desired[id]
    {
      assert id in ToInject(t, desired) <==> LastApplied(t, id) != desired[id];
    }
    forall id | id in r
      ensures id in desired
    {
      assert id in t ==> id in desired;
    }
    assert r == desired;
  }

  /** What is already as wanted needs no command. */
  lemma SettledNeedsNoCommand(s: State, desired: Targets, fails: Faults)
    requires s.applied == desired
    ensures Commands(s.applied, desired) == {}
    ensures Reconciled(s, desired, fails) == s
  {
    assert ToInject(s.applied, desired) == {};
    assert InjectCommands(desired, {}) == {};
    assert Commands(s.applied, desired) == {};
    InjectedNone(s, desired, fails);
  }

  /** After a tick without failures the same list of slow cards causes no further command. */
  lemma TickSettles(cfg: Config, s: State, cards: seq<SlowCard>, fails: Faults, later: Faults)
    requires !cfg.dryRun && AllSucceed(fails, Commands(s.applied, DesiredOf(cfg, cards)))
    ensures var s' := Step(cfg, s, Control(Some(cards), fails));
      s'.applied == DesiredOf(cfg, cards) && Step(cfg, s', Control(Some(cards), later)) == s'
  {
    var desired := DesiredOf(cfg, cards);
    DesiredInRange(cfg, cards);
    ReconcileConverges(s, desired, fails);
    SettledNeedsNoCommand(Reconciled(s, desired, fails), desired, later);
  }

  /** A card of that score, at the fixed base, is to be brought to `b`: the multiple of the step nearest to
      the rounded product of base and score, or the maximum if that is less. */
  ghost predicate Deserves(cfg: Config, score: real, b: int) {
    score > 1.0 && cfg.maxFreqMhz > 1800 && exists v, m :: DeservesVia(cfg, score, b, v, m)
  }

  predicate DeservesVia(cfg: Config, score: real, b: int, v: int, m: int) {
    && IsRounded(v, 1800.0 * score) && IsNearestStep(m, v, cfg.stepMhz) && m > 1800
    && b == (if m <= cfg.maxFreqMhz then m else cfg.maxFreqMhz)
  }

  lemma RowIsDeserved(cfg: Config, card: SlowCard)
    ensures var r := RowOf(cfg, card);
      && r.id == card.id && (r.wouldBoost || r.b == 0)
      && forall b :: Deserves(cfg, card.score, b) <==> r.wouldBoost && b == r.b
  {
    if card.score > 1.0 {
      var v, m := SomeNearestStep(1800.0 * card.score, cfg.stepMhz);
      TargetExactly(1800, card.score, cfg.maxFreqMhz, cfg.stepMhz, v, m);
      forall b
        ensures Deserves(cfg, card.score, b) <==> RowOf(cfg, card).wouldBoost && b == RowOf(cfg, card).b
      {
        if Deserves(cfg, card.score, b) {
          var v', m' :| DeservesVia(cfg, card.score, b, v', m');
          TargetExactly(1800, card.score, cfg.maxFreqMhz, cfg.stepMhz, v', m');
        }
        if RowOf(cfg, card).wouldBoost && b == RowOf(cfg, card).b {
          assert DeservesVia(cfg, card.score, b, v, m);
        }
      }
    } else {
      assert ComputeTargetB(FIXED_CURRENT_MHZ, card.score, cfg.maxFreqMhz, cfg.stepMhz).None?;
    }
  }

  /** Entry `i` of the list is the last that gives the card a target, and it is `b`. */
  ghost predicate LastDeserved(cfg: Config, cards: seq<SlowCard>, id: int, b: int, i: nat) {
    && i < |cards| && cards[i].id == id && Deserves(cfg, cards[i].score, b)
    && forall k, c :: i < k < |cards| && cards[k].id == id ==> !Deserves(cfg, cards[k].score, c)
  }

  lemma {:induction false} WantedIsDeserved(cfg: Config, cards: seq<SlowCard>, id: int, b: int)
    ensures id in DesiredOf(cfg, cards) && DesiredOf(cfg, cards)[id] == b <==>
            exists i: nat :: LastDeserved(cfg, cards, id, b, i)
  {
    var rows := RowsOf(cfg, cards);
    forall i | 0 <= i < |cards|
      ensures rows[i].id == cards[i].id
      ensures forall c :: Deserves(cfg, cards[i].score, c) <==> rows[i].wouldBoost && c == rows[i].b
    {
      RowIsDeserved(cfg, cards[i]);
    }
    WantedIsLastBoost(rows, id);
    if i: nat :| LastDeserved(cfg, cards, id, b, i) {
      assert Wants(rows, i, id);
      forall k | i < k < |rows|
        ensures !Wants(rows, k, id)
      {
        assert cards[k].id != id || !Deserves(cfg, cards[k].score, rows[k].b);
      }
    }
    if id in DesiredOf(cfg, cards) && DesiredOf(cfg, cards)[id] == b {
      var i := LastWant(rows, id);
      assert LastDeserved(cfg, cards, id, b, i);
    }
  }

  lemma {:induction false} LastWant(rows: seq<BoostRow>, id: int) returns (i: nat)
    requires exists k :: 0 <= k < |rows| && Wants(rows, k, id)
    ensures i < |rows| && Wants(rows, i, id) && forall k :: i < k < |rows| ==> !Wants(rows, k, id)
  {
    var last := |rows| - 1;
    if Wants(rows, last, id) {
      i := last;
    } else {
      assert forall k :: 0 <= k < last ==> (Wants(rows[..last], k, id) <==> Wants(rows, k, id));
      i := LastWant(rows[..last], id);
    }
  }

  /** After a tick without failures, outside dry run, exactly the cards on the list whose score deserves a
      target are boosted, each to the one its last deserving entry gives. */
  lemma TickBoostsTheDeserving(cfg: Config, s: State, cards: seq<SlowCard>, fails: Faults, id: int, b: int)
    requires !cfg.dryRun && s.applied == s.hardware && forall c :: !fails(c)
    ensures var s' := Step(cfg, s, Control(Some(cards), fails));
      && s'.applied == s'.hardware
      && (id in s'.hardware && s'.hardware[id] == b <==> exists i: nat :: LastDeserved(cfg, cards, id, b, i))
  {
    DesiredInRange(cfg, cards);
    ReconcileConverges(s, DesiredOf(cfg, cards), fails);
    WantedIsDeserved(cfg, cards, id, b);
  }

  /** Clean is issued exactly when some boosted card left the wanted set; without it, no boost is
      lost, and nothing but new and changed cards is touched. */
  lemma CleanOnlyAfterRecovery(s: State, desired: Targets, fails: Faults)
    ensures Clean in Commands(s.applied, desired) <==> exists id :: id in s.applied && id !in desired
    ensures Clean !in Commands(s.applied, desired) ==>
              s.applied.Keys <= Reconciled(s, desired, fails).applied.Keys &&
              forall id, b :: Inject(id, b) in Commands(s.applied, desired) ==> id !in s.applied || s.applied[id] != b
  {
  }

  /** A failed clean leaves a recovered card boosted and remembered, so the next tick with the
      same list cleans again. */
  lemma FailedCleanIsRetried(s: State, desired: Targets, fails: Faults)
    requires SomeRecovered(s.applied, desired) && fails(Clean)
    ensures Clean in Commands(Reconciled(s, desired, fails).applied, desired)
  {
    var id :| id in s.applied && id !in desired;
    assert id in Reconciled(s, desired, fails).applied;
  }

  predicate HasShutdown(events: seq<Event>) {
    exists i :: 0 <= i < |events| && events[i].Shutdown?
  }

  lemma HasShutdownOneMore(events: seq<Event>)
    requires events != []
    ensures HasShutdown(events) <==> HasShutdown(events[..|events| - 1]) || events[|events| - 1].Shutdown?
  {
    var before := events[..|events| - 1];
    assert forall i :: 0 <= i < |before| ==> before[i] == events[i];
    if HasShutdown(before) {
      var i :| 0 <= i < |before| && before[i].Shutdown?;
      assert events[i].Shutdown?;
    }
  }

  /** Dry run issues no command in a run exactly when the run holds no shutdown or the shutdown hook
      is configured off; it never boosts a card, and its only command is Clean. */
  lemma {:induction false} DryRunIssuesNothingExactly(cfg: Config, events: seq<Event>)
    requires cfg.dryRun
    ensures var s := After(cfg, INITIAL, events);
      && s.applied == s.hardware == map[]
      && (forall c :: c in s.issued ==> c == Clean)
      && (s.issued == multiset{} <==> !cfg.restoreOnShutdown || !HasShutdown(events))
  {
    if events != [] {
      DryRunIssuesNothingExactly(cfg, events[..|events| - 1]);
      HasShutdownOneMore(events);
      if events[|events| - 1].Shutdown? && cfg.restoreOnShutdown {
        assert Clean in After(cfg, INITIAL, events).issued;
      }
    }
  }

  /** The shutdown hook does not ask for dry run: with both settings on, a run that only starts and
      stops executes the clean command. */
  lemma DryRunCleansAtShutdown(cfg: Config, fails: Faults)
    requires cfg.dryRun && cfg.restoreOnShutdown
    ensures After(cfg, INITIAL, [Shutdown(fails)]).issued == multiset{Clean}
  {
    var events := [Shutdown(fails)];
    assert events[..0] == [];
    assert After(cfg, INITIAL, events) == Step(cfg, After(cfg, INITIAL, events[..0]), events[0]);
  }
}
