/** What a subscription of features/faultsub/subscription.go makes its subscriber believe: over a run of
    cycles, each event of which is dispatched before the next, the events that are passed on, and
    whether replaying them gives the faults the detector holds active. */
module FaultHearing {
  import opened FaultDetector
  import opened FaultRuns
  import opened FaultSeverity
  import opened Subscriptions

  /** The clock when the window is checked and when the fire is recorded. */
  datatype Reading = Reading(asked: int, noted: int)

  /** The manager after the events have been offered to the subscription. */
  function Offered(st: State, s: Subscription, events: seq<Event>, clock: seq<Reading>): State
    requires |clock| == |events|
  {
    if events == [] then st
    else
      var n := |events| - 1;
      Next(Offered(st, s, events[..n], clock[..n]), Offer(s, events[n], clock[n].asked, clock[n].noted))
  }

  /** The events that are passed on. */
  function Heard(st: State, s: Subscription, events: seq<Event>, clock: seq<Reading>): seq<Event>
    requires |clock| == |events|
  {
    if events == [] then []
    else
      var n := |events| - 1;
      Heard(st, s, events[..n], clock[..n]) +
      (if OutcomeOf(Offered(st, s, events[..n], clock[..n]), s, events[n], clock[n].asked).Fires? then [events[n]] else [])
  }

  predicate ReadingsForward(clock: seq<Reading>) {
    && (forall k :: 0 <= k < |clock| ==> clock[k].asked <= clock[k].noted)
    && (forall k, l :: 0 <= k < l < |clock| ==> clock[k].noted <= clock[l].asked)
  }

  /** The lists of the subscription admit the fault of the device. */
  predicate Wants(s: Subscription, npu: string, t: FaultType) {
    && (s.types != [] ==> t in s.types)
    && (s.components != [] ==> "npu" in s.components)
    && (s.npuIds != [] ==> npu in s.npuIds)
  }

  /** A subscription that has just been added. */
  ghost predicate JustAdded(st: State, s: Subscription) {
    Filed(st) && Live(st, s) && s.id in st.debounce && st.debounce[s.id] == map[]
  }

  ghost predicate CycleStamped(rules: Rules, c: Cycle) {
    exists now: int :: WellStamped(rules, c.metrics, now, c.events)
  }

  /** Cycles of a new detector, with their events stamped as the detector stamps them. */
  ghost predicate IsStampedRun(rules: Rules, cycles: seq<Cycle>) {
    IsRun(rules, cycles) && forall k :: 0 <= k < |cycles| ==> CycleStamped(rules, cycles[k])
  }

  predicate IsNpuEvent(e: Event) {
    e.component == "npu" && (e.recovered ==> e.severity == Warning)
  }

  lemma {:induction false} EventsAreNpu(rules: Rules, cycles: seq<Cycle>)
    requires IsStampedRun(rules, cycles)
    ensures forall i :: 0 <= i < |AllEvents(cycles)| ==> IsNpuEvent(AllEvents(cycles)[i])
  {
    if cycles != [] {
      var n := |cycles| - 1;
      EventsAreNpu(rules, cycles[..n]);
      assert CycleStamped(rules, cycles[n]);
    }
  }

  /** What the subscriber believes is what the detector holds active of what the lists admit. */
  ghost predicate Right(s: Subscription, heard: seq<Event>, active: Faults) {
    forall npu, t :: (npu, t) in Replay(heard) <==> IsActive(active, npu, t) && Wants(s, npu, t)
  }

  /** A run that the subscription hears from its first cycle on, and the clock meanwhile. */
  ghost predicate Listens(s: Subscription, rules: Rules, cycles: seq<Cycle>, st: State, clock: seq<Reading>) {
    IsStampedRun(rules, cycles) && JustAdded(st, s) && |clock| == |AllEvents(cycles)| && ReadingsForward(clock)
  }

  /** In every run, at every pace of the clock. */
  ghost predicate AlwaysRight(s: Subscription) {
    forall rules, cycles, st, clock :: Listens(s, rules, cycles, st, clock) ==>
      Right(s, Heard(st, s, AllEvents(cycles), clock), Current(cycles))
  }

  // ----- what is heard with room between repeats ----------------------------------------------------------

  /** Events about one fault of one device never come within the window of one another. */
  predicate Spaced(s: Subscription, events: seq<Event>, clock: seq<Reading>)
    requires |clock| == |events|
  {
    s.debounceMs <= 0 ||
    forall i, j :: 0 <= i < j < |events| && KeyOf(events[i]) == KeyOf(events[j]) ==>
      clock[j].asked - clock[i].noted >= s.debounceMs * NANOS_PER_MILLI
  }

  /** The time was noted for an event with that key. */
  predicate NotedFor(events: seq<Event>, clock: seq<Reading>, key: string, time: int)
    requires |clock| == |events|
  {
    exists i :: 0 <= i < |events| && RepeatKey(events[i]) == key && clock[i].noted == time
  }

  ghost predicate TableNoted(st: State, id: string, events: seq<Event>, clock: seq<Reading>)
    requires |clock| == |events|
  {
    id in st.debounce && forall key :: key in st.debounce[id] ==> NotedFor(events, clock, key, st.debounce[id][key])
  }

  lemma NotedForLonger(events: seq<Event>, clock: seq<Reading>, n: nat, key: string, time: int)
    requires |clock| == |events| == n + 1 && NotedFor(events[..n], clock[..n], key, time)
    ensures NotedFor(events, clock, key, time)
  {
    var i :| 0 <= i < n && RepeatKey(events[..n][i]) == key && clock[..n][i].noted == time;
    assert RepeatKey(events[i]) == key && clock[i].noted == time;
  }

  lemma {:induction false} TableIsNoted(st: State, s: Subscription, events: seq<Event>, clock: seq<Reading>)
    requires |clock| == |events| && JustAdded(st, s)
    ensures TableNoted(Offered(st, s, events, clock), s.id, events, clock)
  {
    if events != [] {
      var n := |events| - 1;
      TableIsNoted(st, s, events[..n], clock[..n]);
      var before, after := Offered(st, s, events[..n], clock[..n]), Offered(st, s, events, clock);
      forall key | key in after.debounce[s.id]
        ensures NotedFor(events, clock, key, after.debounce[s.id][key])
      {
        if key in before.debounce[s.id] && after.debounce[s.id][key] == before.debounce[s.id][key] {
          NotedForLonger(events, clock, n, key, after.debounce[s.id][key]);
        } else {
          assert RepeatKey(events[n]) == key && clock[n].noted == after.debounce[s.id][key];
        }
      }
    }
  }

  lemma SpacedFires(st: State, s: Subscription, events: seq<Event>, clock: seq<Reading>, n: nat)
    requires |clock| == |events| == n + 1 && JustAdded(st, s) && Spaced(s, events, clock) && Matches(s, events[n])
    ensures OutcomeOf(Offered(st, s, events[..n], clock[..n]), s, events[n], clock[n].asked).Fires?
  {
    var before, key := Offered(st, s, events[..n], clock[..n]), RepeatKey(events[n]);
    TableIsNoted(st, s, events[..n], clock[..n]);
    if s.debounceMs > 0 && key in before.debounce[s.id] {
      var i :| 0 <= i < n && RepeatKey(events[..n][i]) == key && clock[..n][i].noted == before.debounce[s.id][key];
      RepeatKeyIsInjective(events[i], events[n]);
    }
  }

  lemma MatchesMeansWants(s: Subscription, e: Event)
    requires IsNpuEvent(e) && AtLeast(Warning, s.minSeverity)
    ensures Matches(s, e) <==> Wants(s, e.npu, e.fault)
  {
  }

  lemma {:induction false} HeardReplays(st: State, s: Subscription, events: seq<Event>, clock: seq<Reading>,
                                        npu: string, t: FaultType)
    requires |clock| == |events| && JustAdded(st, s) && Spaced(s, events, clock) && AtLeast(Warning, s.minSeverity)
    requires forall i :: 0 <= i < |events| ==> IsNpuEvent(events[i])
    ensures (npu, t) in Replay(Heard(st, s, events, clock)) <==> Wants(s, npu, t) && (npu, t) in Replay(events)
  {
    if events != [] {
      var n := |events| - 1;
      HeardReplays(st, s, events[..n], clock[..n], npu, t);
      MatchesMeansWants(s, events[n]);
      var before, heard := Heard(st, s, events[..n], clock[..n]), Heard(st, s, events, clock);
      if Matches(s, events[n]) {
        SpacedFires(st, s, events, clock, n);
        assert heard == before + [events[n]];
        assert heard[..|heard| - 1] == before;
      } else {
        assert heard == before;
      }
    }
  }

  /** A subscription that takes warnings leaves its subscriber right in every run in which events about one
      fault of one device keep its window's distance; without a debounce, in every run. */
  lemma RightWhenSpaced(s: Subscription, rules: Rules, cycles: seq<Cycle>, st: State, clock: seq<Reading>)
    requires Listens(s, rules, cycles, st, clock)
    requires Spaced(s, AllEvents(cycles), clock) && AtLeast(Warning, s.minSeverity)
    ensures Right(s, Heard(st, s, AllEvents(cycles), clock), Current(cycles))
  {
    EventsAreNpu(rules, cycles);
    forall npu, t
      ensures (npu, t) in Replay(Heard(st, s, AllEvents(cycles), clock)) <==> IsActive(Current(cycles), npu, t) && Wants(s, npu, t)
    {
      HeardReplays(st, s, AllEvents(cycles), clock, npu, t);
      ReplayOfOne(rules, cycles, npu, t);
    }
  }

  // ----- joining late ---------------------------------------------------------------------------------------

  lemma {:induction false} AllEventsSplit(cycles: seq<Cycle>, k: nat)
    requires k <= |cycles|
    ensures AllEvents(cycles) == AllEvents(cycles[..k]) + AllEvents(cycles[k..])
    decreases |cycles|
  {
    if k == |cycles| {
      assert cycles[..k] == cycles;
    } else {
      var n := |cycles| - 1;
      AllEventsSplit(cycles[..n], k);
      assert cycles[..n][..k] == cycles[..k] && cycles[..n][k..] == cycles[k..][..n - k];
    }
  }

  /** Who hears only the end of a stream of events is right about a fault if the end speaks of it. */
  lemma EndTells(rules: Rules, cycles: seq<Cycle>, k: nat, npu: string, t: FaultType)
    requires IsRun(rules, cycles) && k <= |cycles|
    ensures var later := AllEvents(cycles[k..]);
      (npu, t) in Replay(later) <==> IsActive(Current(cycles), npu, t) && Flags(later, npu, t) != []
  {
    var earlier, later := AllEvents(cycles[..k]), AllEvents(cycles[k..]);
    AllEventsSplit(cycles, k);
    ReplayOfOne(rules, cycles, npu, t);
    ReplayIsLastFlag(earlier + later, npu, t);
    ReplayIsLastFlag(later, npu, t);
    FlagsConcat(earlier, later, npu, t);
  }

  lemma LaterEventsAreNpu(rules: Rules, cycles: seq<Cycle>, k: nat)
    requires IsStampedRun(rules, cycles) && k <= |cycles|
    ensures forall i :: 0 <= i < |AllEvents(cycles[k..])| ==> IsNpuEvent(AllEvents(cycles[k..])[i])
  {
    var earlier, later := AllEvents(cycles[..k]), AllEvents(cycles[k..]);
    EventsAreNpu(rules, cycles);
    AllEventsSplit(cycles, k);
    forall i | 0 <= i < |later|
      ensures IsNpuEvent(later[i])
    {
      assert later[i] == (earlier + later)[|earlier| + i];
    }
  }

  /** The run goes on after `k` cycles with the subscription just added. */
  ghost predicate JoinsLate(s: Subscription, rules: Rules, cycles: seq<Cycle>, k: nat, st: State, clock: seq<Reading>) {
    IsStampedRun(rules, cycles) && k <= |cycles| && JustAdded(st, s) && |clock| == |AllEvents(cycles[k..])|
  }

  lemma HeardWhenLate(s: Subscription, rules: Rules, cycles: seq<Cycle>, k: nat, st: State, clock: seq<Reading>,
                      npu: string, t: FaultType)
    requires JoinsLate(s, rules, cycles, k, st, clock)
    requires Spaced(s, AllEvents(cycles[k..]), clock) && AtLeast(Warning, s.minSeverity)
    ensures var later := AllEvents(cycles[k..]);
      (npu, t) in Replay(Heard(st, s, later, clock)) <==>
      IsActive(Current(cycles), npu, t) && Wants(s, npu, t) && Flags(later, npu, t) != []
  {
    LaterEventsAreNpu(rules, cycles, k);
    HeardReplays(st, s, AllEvents(cycles[k..]), clock, npu, t);
    EndTells(rules, cycles, k, npu, t);
  }

  /** The lists admit the fault, and it is active and has not changed in the events `later`. */
  predicate Misses(s: Subscription, later: seq<Event>, active: Faults, npu: string, t: FaultType) {
    IsActive(active, npu, t) && Wants(s, npu, t) && Flags(later, npu, t) == []
  }

  lemma RightUnlessMissing(s: Subscription, heard: seq<Event>, later: seq<Event>, active: Faults)
    requires forall npu, t :: (npu, t) in Replay(heard) <==>
                              IsActive(active, npu, t) && Wants(s, npu, t) && Flags(later, npu, t) != []
    ensures Right(s, heard, active) <==> forall npu, t :: !Misses(s, later, active, npu, t)
  {
    if Right(s, heard, active) {
      forall npu, t
        ensures !Misses(s, later, active, npu, t)
      {
        assert (npu, t) in Replay(heard) <==> IsActive(active, npu, t) && Wants(s, npu, t);
      }
    } else {
      var npu, t :| !((npu, t) in Replay(heard) <==> IsActive(active, npu, t) && Wants(s, npu, t));
      assert Misses(s, later, active, npu, t);
    }
  }

  /** A subscription that takes warnings, added after `k` cycles, leaves its subscriber right, at a pace that
      suits its window, exactly when no fault it asks for has been active ever since. */
  lemma RightWhenJoiningLateExactly(s: Subscription, rules: Rules, cycles: seq<Cycle>, k: nat, st: State, clock: seq<Reading>)
    requires JoinsLate(s, rules, cycles, k, st, clock)
    requires Spaced(s, AllEvents(cycles[k..]), clock) && AtLeast(Warning, s.minSeverity)
    ensures Right(s, Heard(st, s, AllEvents(cycles[k..]), clock), Current(cycles)) <==>
            forall npu, t :: !Misses(s, AllEvents(cycles[k..]), Current(cycles), npu, t)
  {
    var later := AllEvents(cycles[k..]);
    var heard := Heard(st, s, later, clock);
    forall npu, t
      ensures (npu, t) in Replay(heard) <==>
              IsActive(Current(cycles), npu, t) && Wants(s, npu, t) && Flags(later, npu, t) != []
    {
      HeardWhenLate(s, rules, cycles, k, st, clock, npu, t);
    }
    RightUnlessMissing(s, heard, later, Current(cycles));
  }

  // ----- a fault that comes and goes ------------------------------------------------------------------------

  function MetricName(t: FaultType): string {
    match t
    case CardDrop => "card_drop"
    case HealthState => "health_status"
    case ErrorCode => "error_code"
    case HbmUce => "hbm_double_ecc"
    case DdrUce => "ddr_double_ecc"
    case RoceLinkDown => "roce_link_status"
    case DriverUnhealthy => "driver_health"
    case StragglerDetected => ""
  }

  /** A metric that shows the fault and no other. */
  function Symptom(t: FaultType, npu: string): Metric {
    Metric("npu", MetricName(t), map["npu_id" := npu, "status" := "Alarm"], if t.RoceLinkDown? then 0.0 else 1.0)
  }

  lemma SymptomShows(t: FaultType, npu: string, u: FaultType)
    requires !t.StragglerDetected?
    ensures Shows(WithMetric(NO_METRICS, Symptom(t, npu)), u).Some? <==> u == t
  {
  }

  function Came(t: FaultType, npu: string): Event {
    var shown := Firing(map[], WithMetric(NO_METRICS, Symptom(t, npu)), t);
    Event(t, "npu", npu, if shown.Some? then shown.value else Warning, 0, false)
  }

  function Went(t: FaultType, npu: string): Event {
    Event(t, "npu", npu, Warning, 0, true)
  }

  function ComesAndGoes(t: FaultType, npu: string): seq<Cycle> {
    [Cycle([Symptom(t, npu)], map[npu := {t}], [Came(t, npu)]), Cycle([], map[], [Went(t, npu)])]
  }

  lemma ComingFollows(t: FaultType, npu: string)
    requires !t.StragglerDetected? && npu != ""
    ensures Follows(map[], map[], ComesAndGoes(t, npu)[0]) && CycleStamped(map[], ComesAndGoes(t, npu)[0])
  {
    var c, e := ComesAndGoes(t, npu)[0], Came(t, npu);
    forall d, u
      ensures IsActive(c.active, d, u) <==> HasDevice(c.metrics, d) && Firing(map[], DevOf(c.metrics, d), u).Some?
    {
      OneMetricBatch(Symptom(t, npu), d);
      SymptomShows(t, npu, u);
    }
    OneEventAnnounces(e, c.active, map[]);
    CycleFromGroups(map[], c.active, [e], []);
    assert [e] + [] == [e];
    OneMetricBatch(Symptom(t, npu), npu);
    SymptomShows(t, npu, t);
    assert WellStamped(map[], c.metrics, 0, c.events);
  }

  lemma GoingFollows(t: FaultType, npu: string)
    ensures Follows(map[], map[npu := {t}], ComesAndGoes(t, npu)[1]) && CycleStamped(map[], ComesAndGoes(t, npu)[1])
  {
    var c, e := ComesAndGoes(t, npu)[1], Went(t, npu);
    OneEventAnnounces(e, map[npu := {t}], map[]);
    CycleFromGroups(map[npu := {t}], map[], [], [e]);
    assert [] + [e] == [e];
    assert WellStamped(map[], c.metrics, 0, c.events);
  }

  lemma ComesAndGoesIsRun(t: FaultType, npu: string)
    requires !t.StragglerDetected? && npu != ""
    ensures IsStampedRun(map[], ComesAndGoes(t, npu)[..1]) && IsStampedRun(map[], ComesAndGoes(t, npu))
    ensures AllEvents(ComesAndGoes(t, npu)[..1]) == [Came(t, npu)]
    ensures AllEvents(ComesAndGoes(t, npu)) == [Came(t, npu), Went(t, npu)]
  {
    var cycles := ComesAndGoes(t, npu);
    var one := cycles[..1];
    ComingFollows(t, npu);
    GoingFollows(t, npu);
    assert one[..0] == [] && one[0] == cycles[0];
    assert IsRun(map[], one[..0]);
    assert Current(one) == map[npu := {t}];
    assert IsRun(map[], one);
    assert AllEvents(one[..0]) == [];
  }

  const AT_ONCE: seq<Reading> := [Reading(0, 0), Reading(0, 0)]

  /** The recovery that follows at once is not passed on, if the fault was. */
  lemma RecoveryNotHeard(st: State, s: Subscription, t: FaultType, npu: string)
    requires JustAdded(st, s) && !(s.debounceMs <= 0 && AtLeast(Warning, s.minSeverity))
    requires Heard(st, s, [Came(t, npu)], AT_ONCE[..1]) == [Came(t, npu)]
    ensures Heard(st, s, [Came(t, npu), Went(t, npu)], AT_ONCE) == [Came(t, npu)]
  {
    var events := [Came(t, npu), Went(t, npu)];
    assert events[..1] == [Came(t, npu)] && [Came(t, npu)][..0] == [] && AT_ONCE[..1][..0] == [];
    assert Offered(st, s, [], []) == st;
    if AtLeast(Warning, s.minSeverity) {
      var after := Offered(st, s, events[..1], AT_ONCE[..1]);
      assert after == Next(st, Offer(s, Came(t, npu), 0, 0));
      assert RepeatKey(Came(t, npu)) == RepeatKey(Went(t, npu));
      assert OutcomeOf(after, s, Went(t, npu), 0).Suppressed?;
    }
  }

  lemma ReplayOfOneFault(e: Event)
    requires !e.recovered
    ensures Replay([e]) == {KeyOf(e)}
  {
    assert [e][..0] == [];
  }

  function Manager(s: Subscription): State {
    State(map[s.id := s], map[s.id := map[]], 0)
  }

  lemma HeardOfFirst(s: Subscription, t: FaultType, npu: string)
    ensures JustAdded(Manager(s), s)
    ensures var first := Heard(Manager(s), s, [Came(t, npu)], AT_ONCE[..1]); first == [] || first == [Came(t, npu)]
  {
    assert [Came(t, npu)][..0] == [];
  }

  lemma ManagerListens(s: Subscription, cycles: seq<Cycle>, clock: seq<Reading>)
    requires IsStampedRun(map[], cycles) && |clock| == |AllEvents(cycles)| && clock <= AT_ONCE
    ensures Listens(s, map[], cycles, Manager(s), clock)
  {
    assert JustAdded(Manager(s), s);
  }

  lemma ActiveBetween(t: FaultType, npu: string)
    ensures IsActive(Current(ComesAndGoes(t, npu)[..1]), npu, t) && Current(ComesAndGoes(t, npu)) == map[]
  {
    assert ComesAndGoes(t, npu)[..1][0] == ComesAndGoes(t, npu)[0];
  }

  /** One run that leaves the subscriber wrong about one fault. */
  lemma OnceWrong(s: Subscription, rules: Rules, cycles: seq<Cycle>, st: State, clock: seq<Reading>, npu: string, t: FaultType)
    requires Listens(s, rules, cycles, st, clock)
    requires (npu, t) in Replay(Heard(st, s, AllEvents(cycles), clock)) <==>
             !(IsActive(Current(cycles), npu, t) && Wants(s, npu, t))
    ensures !AlwaysRight(s)
  {
    var heard := Heard(st, s, AllEvents(cycles), clock);
    assert !Right(s, heard, Current(cycles));
  }

  /** A fault that is not passed on leaves the subscriber wrong at once. */
  lemma MisledAtFirst(s: Subscription, t: FaultType, npu: string)
    requires !t.StragglerDetected? && npu != "" && Wants(s, npu, t)
    requires Heard(Manager(s), s, [Came(t, npu)], AT_ONCE[..1]) == []
    ensures !AlwaysRight(s)
  {
    ComesAndGoesIsRun(t, npu);
    ManagerListens(s, ComesAndGoes(t, npu)[..1], AT_ONCE[..1]);
    ActiveBetween(t, npu);
    OnceWrong(s, map[], ComesAndGoes(t, npu)[..1], Manager(s), AT_ONCE[..1], npu, t);
  }

  lemma MisledInTheEnd(s: Subscription, t: FaultType, npu: string)
    requires !t.StragglerDetected? && npu != ""
    requires Heard(Manager(s), s, [Came(t, npu), Went(t, npu)], AT_ONCE) == [Came(t, npu)]
    ensures !AlwaysRight(s)
  {
    ComesAndGoesIsRun(t, npu);
    ManagerListens(s, ComesAndGoes(t, npu), AT_ONCE);
    ActiveBetween(t, npu);
    ReplayOfOneFault(Came(t, npu));
    OnceWrong(s, map[], ComesAndGoes(t, npu), Manager(s), AT_ONCE, npu, t);
  }

  /** For a subscription whose lists admit some fault that the detector can find: its subscriber is right in
      every run, at every pace, exactly when it has no debounce and takes warnings, because the window of a
      fault also swallows its recovery, and recoveries are warnings. */
  lemma AlwaysRightExactly(s: Subscription, npu: string, t: FaultType)
    requires npu != "" && !t.StragglerDetected? && Wants(s, npu, t)
    ensures AlwaysRight(s) <==> s.debounceMs <= 0 && AtLeast(Warning, s.minSeverity)
  {
    if s.debounceMs <= 0 && AtLeast(Warning, s.minSeverity) {
      forall rules, cycles, st, clock | Listens(s, rules, cycles, st, clock)
        ensures Right(s, Heard(st, s, AllEvents(cycles), clock), Current(cycles))
      {
        RightWhenSpaced(s, rules, cycles, st, clock);
      }
    } else {
      HeardOfFirst(s, t, npu);
      if Heard(Manager(s), s, [Came(t, npu)], AT_ONCE[..1]) == [] {
        MisledAtFirst(s, t, npu);
      } else {
        RecoveryNotHeard(Manager(s), s, t, npu);
        MisledInTheEnd(s, t, npu);
      }
    }
  }
}
