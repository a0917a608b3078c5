/** The edge-triggered fault detector of features/faultsub/detector.go. */
module FaultDetector {
  import opened GoText

  datatype FaultType =
    | CardDrop | HealthState | ErrorCode | HbmUce | DdrUce | RoceLinkDown | DriverUnhealthy
    | StragglerDetected

  datatype Severity = Warning | Critical

  datatype Metric = Metric(component: string, name: string, labels: map<string, string>, value: real)

  datatype Event = Event(fault: FaultType, component: string, npu: string, severity: Severity,
                         timestamp: int, recovered: bool)

  const CARD_DROP_FAULT_CODE := "0x40f84e00"

  /** A rule that is not configured is on. */
  type Rules = map<FaultType, bool>

  predicate Enabled(rules: Rules, t: FaultType) {
    t in rules ==> rules[t]
  }

  function Label(m: Metric, key: string): string {
    if key in m.labels then m.labels[key] else ""
  }

  // ----- the batch, by device ---------------------------------------------------------------------

  /** The latest metric of each kind that a batch holds for one device. */
  datatype DevState = DevState(
    health: Option<Metric>, errorCode: Option<Metric>, cardDrop: Option<Metric>,
    hbmDouble: Option<Metric>, ddrDouble: Option<Metric>,
    roceStatus: Option<Metric>, roceHealth: Option<Metric>, driverHealth: Option<Metric>)

  const NO_METRICS := DevState(None, None, None, None, None, None, None, None)

  predicate IsFor(m: Metric, npu: string) {
    m.component == "npu" && npu != "" && Label(m, "npu_id") == npu
  }

  /** The last metric of that name for the device. */
  function LastMetric(ms: seq<Metric>, npu: string, name: string): Option<Metric> {
    if ms == [] then None
    else
      var m := ms[|ms| - 1];
      if IsFor(m, npu) && m.name == name then Some(m) else LastMetric(ms[..|ms| - 1], npu, name)
  }

  function DevOf(ms: seq<Metric>, npu: string): DevState {
    DevState(LastMetric(ms, npu, "health_status"), LastMetric(ms, npu, "error_code"),
             LastMetric(ms, npu, "card_drop"), LastMetric(ms, npu, "hbm_double_ecc"),
             LastMetric(ms, npu, "ddr_double_ecc"), LastMetric(ms, npu, "roce_link_status"),
             LastMetric(ms, npu, "roce_link_health"), LastMetric(ms, npu, "driver_health"))
  }

  predicate HasDevice(ms: seq<Metric>, npu: string) {
    exists i :: 0 <= i < |ms| && IsFor(ms[i], npu)
  }

  // ----- the rules ----------------------------------------------------------------------------------

  predicate IsCardDropCode(part: string) {
    EqualFold(TrimSpace(part), CARD_DROP_FAULT_CODE)
  }

  predicate AnyCardDropCode(parts: seq<string>) {
    exists i :: 0 <= i < |parts| && IsCardDropCode(parts[i])
  }

  lemma AnyOneMore(parts: seq<string>, i: nat)
    requires i < |parts|
    ensures AnyCardDropCode(parts[..i + 1]) <==> AnyCardDropCode(parts[..i]) || IsCardDropCode(parts[i])
  {
    assert forall k :: 0 <= k < i ==> parts[..i + 1][k] == parts[..i][k];
    assert parts[..i + 1][i] == parts[i];
    if AnyCardDropCode(parts[..i]) {
      var k :| 0 <= k < i && IsCardDropCode(parts[..i][k]);
      assert IsCardDropCode(parts[..i + 1][k]);
    }
  }

  /** Some code in the comma-separated list is the card-drop code. */
  predicate ListsCardDrop(codes: string) {
    codes != "" && AnyCardDropCode(SplitComma(codes))
  }

  predicate Positive(m: Option<Metric>) {
    m.Some? && m.value.value > 0.0
  }

  /** Whether the device shows the fault, and how bad it is. */
  function Shows(st: DevState, t: FaultType): Option<Severity> {
    match t
    case CardDrop =>
      if (st.cardDrop.Some? && st.cardDrop.value.value >= 1.0) ||
         (st.errorCode.Some? && ListsCardDrop(Label(st.errorCode.value, "error_codes")))
      then Some(Critical) else None
    case HealthState =>
      if st.health.None? then None
      else if Label(st.health.value, "status") == "Critical" then Some(Critical)
      else if Label(st.health.value, "status") == "Alarm" then Some(Warning)
      else None
    case ErrorCode => if Positive(st.errorCode) then Some(Warning) else None
    case HbmUce => if Positive(st.hbmDouble) then Some(Critical) else None
    case DdrUce => if Positive(st.ddrDouble) then Some(Critical) else None
    case RoceLinkDown =>
      if (st.roceStatus.Some? && (st.roceStatus.value.value == 0.0 || Label(st.roceStatus.value, "status") == "down")) ||
         (st.roceHealth.Some? && Label(st.roceHealth.value, "roce_link") in {"down", "Down"})
      then Some(Warning) else None
    case DriverUnhealthy =>
      if st.driverHealth.Some? && st.driverHealth.value.value != 0.0 then Some(Warning) else None
    case StragglerDetected => None
  }

  /** The fault is shown and its rule is on. */
  function Firing(rules: Rules, st: DevState, t: FaultType): Option<Severity> {
    if Enabled(rules, t) then Shows(st, t) else None
  }

  // ----- what is active -------------------------------------------------------------------------------

  /** The faults each device shows; a device without faults may be listed or not. */
  type Faults = map<string, set<FaultType>>

  predicate IsActive(f: Faults, npu: string, t: FaultType) {
    npu in f && t in f[npu]
  }

  /** The faults of a batch, by the rules. */
  ghost predicate FaultsOf(rules: Rules, ms: seq<Metric>, f: Faults) {
    forall npu, t :: IsActive(f, npu, t) <==> HasDevice(ms, npu) && Firing(rules, DevOf(ms, npu), t).Some?
  }

  type Key = (string, FaultType)

  function KeyOf(e: Event): Key {
    (e.npu, e.fault)
  }

  predicate HasKey(events: seq<Event>, npu: string, t: FaultType) {
    exists i :: 0 <= i < |events| && KeyOf(events[i]) == (npu, t)
  }

  /** All events are faults (or all recoveries), one for each fault that is in `now` but not in
      `other`, in any order. */
  ghost predicate Announces(events: seq<Event>, recovered: bool, now: Faults, other: Faults) {
    && (forall i :: 0 <= i < |events| ==> events[i].recovered == recovered)
    && (forall i, j :: 0 <= i < j < |events| ==> KeyOf(events[i]) != KeyOf(events[j]))
    && (forall npu, t {:trigger HasKey(events, npu, t)} ::
          HasKey(events, npu, t) <==> IsActive(now, npu, t) && !IsActive(other, npu, t))
  }

  /** The events of one cycle: the new faults, and then the faults gone. */
  ghost predicate IsCycle(prev: Faults, cur: Faults, events: seq<Event>) {
    exists k :: SplitsAt(prev, cur, events, k)
  }

  ghost predicate SplitsAt(prev: Faults, cur: Faults, events: seq<Event>, k: int) {
    0 <= k <= |events| && Announces(events[..k], false, cur, prev) && Announces(events[k..], true, prev, cur)
  }

  lemma CycleFromGroups(prev: Faults, cur: Faults, fires: seq<Event>, recoveries: seq<Event>)
    requires Announces(fires, false, cur, prev) && Announces(recoveries, true, prev, cur)
    ensures IsCycle(prev, cur, fires + recoveries)
  {
    var events := fires + recoveries;
    assert events[..|fires|] == fires && events[|fires|..] == recoveries;
    assert SplitsAt(prev, cur, events, |fires|);
  }

  lemma OneEventAnnounces(e: Event, now: Faults, other: Faults)
    requires forall npu, t :: IsActive(now, npu, t) && !IsActive(other, npu, t) <==> (npu, t) == KeyOf(e)
    ensures Announces([e], e.recovered, now, other)
  {
    assert KeyOf([e][0]) == KeyOf(e);
  }

  lemma AnnouncesOneMore(events: seq<Event>, recovered: bool, now: Faults, now': Faults, other: Faults, e: Event)
    requires Announces(events, recovered, now, other)
    requires e.recovered == recovered && !IsActive(now, e.npu, e.fault) && !IsActive(other, e.npu, e.fault)
    requires forall npu, t :: IsActive(now', npu, t) <==> IsActive(now, npu, t) || (npu, t) == KeyOf(e)
    ensures Announces(events + [e], recovered, now', other)
  {
    var all := events + [e];
    assert !HasKey(events, e.npu, e.fault);
    forall npu, t
      ensures HasKey(all, npu, t) <==> HasKey(events, npu, t) || (npu, t) == KeyOf(e)
    {
      if HasKey(events, npu, t) {
        var i :| 0 <= i < |events| && KeyOf(events[i]) == (npu, t);
        assert KeyOf(all[i]) == (npu, t);
      }
      if (npu, t) == KeyOf(e) {
        assert KeyOf(all[|events|]) == (npu, t);
      }
    }
  }

  lemma AnnouncesSame(events: seq<Event>, recovered: bool, now: Faults, now': Faults, other: Faults)
    requires Announces(events, recovered, now, other)
    requires forall npu, t :: (IsActive(now', npu, t) && !IsActive(other, npu, t)) <==> (IsActive(now, npu, t) && !IsActive(other, npu, t))
    ensures Announces(events, recovered, now', other)
  {
  }

  // ----- the object -------------------------------------------------------------------------------------

  /** Every event says what it should beside its key. */
  ghost predicate WellStamped(rules: Rules, ms: seq<Metric>, now: int, events: seq<Event>) {
    forall i :: 0 <= i < |events| ==>
      var e := events[i];
      && e.component == "npu" && e.timestamp == now
      && (if e.recovered then e.severity == Warning
          else Firing(rules, DevOf(ms, e.npu), e.fault) == Some(e.severity))
  }

  // ----- what one device adds to the stream -----------------------------------------------------------

  const RULE_COUNT: nat := 7

  /** The place of a fault in the order of the rules; the last is not a rule of the detector. */
  function RuleNo(t: FaultType): nat {
    match t
    case CardDrop => 0
    case HealthState => 1
    case ErrorCode => 2
    case HbmUce => 3
    case DdrUce => 4
    case RoceLinkDown => 5
    case DriverUnhealthy => 6
    case StragglerDetected => 7
  }

  function RuleAt(k: nat): (t: FaultType)
    requires k < RULE_COUNT
    ensures RuleNo(t) == k
  {
    if k == 0 then CardDrop
    else if k == 1 then HealthState
    else if k == 2 then ErrorCode
    else if k == 3 then HbmUce
    else if k == 4 then DdrUce
    else if k == 5 then RoceLinkDown
    else DriverUnhealthy
  }

  /** The events of one device after its first `k` rules. */
  function Fired(rules: Rules, prev: Faults, npu: string, st: DevState, now: int, k: nat): seq<Event>
    requires k <= RULE_COUNT
  {
    if k == 0 then []
    else
      var t := RuleAt(k - 1);
      var shown := Firing(rules, st, t);
      Fired(rules, prev, npu, st, now, k - 1) +
      (if shown.Some? && !IsActive(prev, npu, t) then [Event(t, "npu", npu, shown.value, now, false)] else [])
  }

  /** The faults that the first `k` rules find. */
  predicate FoundBy(active: set<FaultType>, rules: Rules, st: DevState, k: nat) {
    forall t :: t in active <==> RuleNo(t) < k && Firing(rules, st, t).Some?
  }

  /** The faults of one device come in the order of the rules, and before its recoveries. */
  predicate InRuleOrder(events: seq<Event>) {
    forall i, j :: 0 <= i < j < |events| && events[i].npu == events[j].npu && !events[j].recovered ==>
      !events[i].recovered && RuleNo(events[i].fault) < RuleNo(events[j].fault)
  }

  /** Every event is about the device, new, rightly stamped, and found by one of the first `k` rules. */
  predicate FiredRight(events: seq<Event>, rules: Rules, prev: Faults, npu: string, st: DevState, now: int, k: nat) {
    forall i :: 0 <= i < |events| ==>
      var e := events[i];
      && e.component == "npu" && e.npu == npu && e.timestamp == now && !e.recovered
      && RuleNo(e.fault) < k && !IsActive(prev, npu, e.fault) && Firing(rules, st, e.fault) == Some(e.severity)
  }

  lemma {:induction false} FiredIsRight(rules: Rules, prev: Faults, npu: string, st: DevState, now: int, k: nat)
    requires k <= RULE_COUNT
    ensures FiredRight(Fired(rules, prev, npu, st, now, k), rules, prev, npu, st, now, k)
    ensures InRuleOrder(Fired(rules, prev, npu, st, now, k))
  {
    if k > 0 {
      var t := RuleAt(k - 1);
      FiredIsRight(rules, prev, npu, st, now, k - 1);
      if Firing(rules, st, t).Some? && !IsActive(prev, npu, t) {
        var e := Event(t, "npu", npu, Firing(rules, st, t).value, now, false);
        FiredOneMore(Fired(rules, prev, npu, st, now, k - 1), rules, prev, npu, st, now, k - 1, e);
      }
    }
  }

  lemma FiredOneMore(events: seq<Event>, rules: Rules, prev: Faults, npu: string, st: DevState, now: int, k: nat, e: Event)
    requires FiredRight(events, rules, prev, npu, st, now, k) && InRuleOrder(events)
    requires FiredRight([e], rules, prev, npu, st, now, k + 1) && RuleNo(e.fault) == k
    ensures FiredRight(events + [e], rules, prev, npu, st, now, k + 1) && InRuleOrder(events + [e])
  {
    assert [e][0] == e;
  }

  lemma {:induction false} FiredHas(rules: Rules, prev: Faults, npu: string, st: DevState, now: int, k: nat, t: FaultType)
    requires k <= RULE_COUNT && RuleNo(t) < k && Firing(rules, st, t).Some? && !IsActive(prev, npu, t)
    ensures HasKey(Fired(rules, prev, npu, st, now, k), npu, t)
  {
    var fired := Fired(rules, prev, npu, st, now, k);
    if RuleNo(t) == k - 1 {
      assert RuleAt(k - 1) == t;
      assert KeyOf(fired[|fired| - 1]) == (npu, t);
    } else {
      FiredHas(rules, prev, npu, st, now, k - 1, t);
      var before := Fired(rules, prev, npu, st, now, k - 1);
      var i :| 0 <= i < |before| && KeyOf(before[i]) == (npu, t);
      assert KeyOf(fired[i]) == (npu, t);
    }
  }

  lemma HasKeyConcat(a: seq<Event>, b: seq<Event>, npu: string, t: FaultType)
    ensures HasKey(a + b, npu, t) <==> HasKey(a, npu, t) || HasKey(b, npu, t)
  {
    var all := a + b;
    if HasKey(a, npu, t) {
      var i :| 0 <= i < |a| && KeyOf(a[i]) == (npu, t);
      assert KeyOf(all[i]) == (npu, t);
    }
    if HasKey(b, npu, t) {
      var i :| 0 <= i < |b| && KeyOf(b[i]) == (npu, t);
      assert KeyOf(all[|a| + i]) == (npu, t);
    }
    if HasKey(all, npu, t) {
      var i :| 0 <= i < |all| && KeyOf(all[i]) == (npu, t);
      assert i < |a| ==> KeyOf(a[i]) == (npu, t);
      assert i >= |a| ==> KeyOf(b[i - |a|]) == (npu, t);
    }
  }

  /** The events of a device of its own, after those of other devices. */
  lemma DeviceAppended(events: seq<Event>, fired: seq<Event>, rules: Rules, prev: Faults, npu: string, st: DevState,
                       now: int, others: Faults)
    requires npu !in others && Announces(events, false, others, prev) && InRuleOrder(events)
    requires FiredRight(fired, rules, prev, npu, st, now, RULE_COUNT) && InRuleOrder(fired)
    ensures InRuleOrder(events + fired)
    ensures forall i, j :: 0 <= i < j < |events + fired| ==> KeyOf((events + fired)[i]) != KeyOf((events + fired)[j])
  {
    forall i | 0 <= i < |events|
      ensures events[i].npu != npu
    {
      assert HasKey(events, events[i].npu, events[i].fault);
    }
  }

  lemma DeviceAnnounced(events: seq<Event>, rules: Rules, prev: Faults, npu: string, st: DevState, now: int,
                        others: Faults, active: set<FaultType>)
    requires npu !in others && Announces(events, false, others, prev) && InRuleOrder(events)
    requires FoundBy(active, rules, st, RULE_COUNT)
    ensures var all := events + Fired(rules, prev, npu, st, now, RULE_COUNT);
      Announces(all, false, others[npu := active], prev) && InRuleOrder(all)
  {
    var fired := Fired(rules, prev, npu, st, now, RULE_COUNT);
    FiredIsRight(rules, prev, npu, st, now, RULE_COUNT);
    DeviceAppended(events, fired, rules, prev, npu, st, now, others);
    var now' := others[npu := active];
    forall d, t
      ensures HasKey(events + fired, d, t) <==> IsActive(now', d, t) && !IsActive(prev, d, t)
    {
      HasKeyConcat(events, fired, d, t);
      assert HasKey(events, d, t) <==> IsActive(others, d, t) && !IsActive(prev, d, t);
      if d == npu && t in active && !IsActive(prev, npu, t) {
        FiredHas(rules, prev, npu, st, now, RULE_COUNT, t);
      }
    }
  }

  class Detector {
    const rules: Rules
    var prev: Faults

    constructor (rules: Rules)
      ensures this.rules == rules && prev == map[]
    {
      this.rules := rules;
      prev := map[];
    }

    /** The grouping loop of `Detect`. */
    method Group(ms: seq<Metric>) returns (devs: map<string, DevState>)
      ensures forall npu :: npu in devs <==> HasDevice(ms, npu)
      ensures forall npu :: npu in devs ==> devs[npu] == DevOf(ms, npu)
    {
      devs := map[];
      for i := 0 to |ms|
        invariant forall npu :: npu in devs <==> HasDevice(ms[..i], npu)
        invariant forall npu :: npu in devs ==> devs[npu] == DevOf(ms[..i], npu)
      {
        var m := ms[i];
        OneMoreMetric(ms, i);
        if m.component != "npu" {
          continue;
        }
        var npu := Label(m, "npu_id");
        if npu == "" {
          continue;
        }
        if npu !in devs {
          NoMetricsYet(ms[..i], npu);
        }
        devs := devs[npu := WithMetric(if npu in devs then devs[npu] else NO_METRICS, m)];
      }
      assert ms[..|ms|] == ms;
    }

    /** `fire`, and the test around it: one rule for one device. */
    method Check(npu: string, t: FaultType, shown: Option<Severity>, now: int, active: set<FaultType>, events: seq<Event>)
      returns (active': set<FaultType>, events': seq<Event>)
      ensures active' == if shown.Some? then active + {t} else active
      ensures events' == if shown.Some? && !IsActive(prev, npu, t)
                         then events + [Event(t, "npu", npu, shown.value, now, false)] else events
    {
      active', events' := active, events;
      if shown.Some? {
        active' := active + {t};
        if npu in prev && t in prev[npu] {
          return;
        }
        events' := events + [Event(t, "npu", npu, shown.value, now, false)];
      }
    }

    /** The card-drop test: the metric, or the code somewhere in the list of error codes. */
    method CardDropShown(st: DevState) returns (shown: Option<Severity>)
      ensures shown == Shows(st, CardDrop)
    {
      var dropped := st.cardDrop.Some? && st.cardDrop.value.value >= 1.0;
      if st.errorCode.Some? {
        var codes := Label(st.errorCode.value, "error_codes");
        if codes != "" {
          var found := FindCardDrop(SplitComma(codes));
          dropped := dropped || found;
        }
      }
      shown := if dropped then Some(Critical) else None;
    }

    method FindCardDrop(parts: seq<string>) returns (found: bool)
      ensures found <==> AnyCardDropCode(parts)
    {
      found := false;
      for i := 0 to |parts|
        invariant found <==> AnyCardDropCode(parts[..i])
      {
        AnyOneMore(parts, i);
        if IsCardDropCode(parts[i]) {
          found := true;
        }
      }
      assert parts[..|parts|] == parts;
    }

    /** The rules for one device, in the order of the source. */
    method CheckDevice(npu: string, st: DevState, now: int, events: seq<Event>)
      returns (active: set<FaultType>, events': seq<Event>)
      ensures FoundBy(active, rules, st, RULE_COUNT)
      ensures events' == events + Fired(rules, prev, npu, st, now, RULE_COUNT)
    {
      active, events' := {}, events;
      var drop: Option<Severity> := None;
      if Enabled(rules, CardDrop) {
        drop := CardDropShown(st);
      }
      active, events' := CheckRule(npu, CardDrop, drop, st, now, active, events', events);
      active, events' := CheckRule(npu, HealthState, Firing(rules, st, HealthState), st, now, active, events', events);
      active, events' := CheckRule(npu, ErrorCode, Firing(rules, st, ErrorCode), st, now, active, events', events);
      active, events' := CheckRule(npu, HbmUce, Firing(rules, st, HbmUce), st, now, active, events', events);
      active, events' := CheckRule(npu, DdrUce, Firing(rules, st, DdrUce), st, now, active, events', events);
      active, events' := CheckRule(npu, RoceLinkDown, Firing(rules, st, RoceLinkDown), st, now, active, events', events);
      active, events' := CheckRule(npu, DriverUnhealthy, Firing(rules, st, DriverUnhealthy), st, now, active, events', events);
    }

    /** One rule, after those before it. */
    method CheckRule(npu: string, t: FaultType, shown: Option<Severity>, ghost st: DevState, now: int,
                     active: set<FaultType>, events: seq<Event>, ghost before: seq<Event>)
      returns (active': set<FaultType>, events': seq<Event>)
      requires RuleNo(t) < RULE_COUNT && shown == Firing(rules, st, t)
      requires FoundBy(active, rules, st, RuleNo(t))
      requires events == before + Fired(rules, prev, npu, st, now, RuleNo(t))
      ensures FoundBy(active', rules, st, RuleNo(t) + 1)
      ensures events' == before + Fired(rules, prev, npu, st, now, RuleNo(t) + 1)
    {
      assert RuleAt(RuleNo(t)) == t;
      assert forall u :: RuleNo(u) == RuleNo(t) ==> u == t;
      active', events' := Check(npu, t, shown, now, active, events);
    }

    /** The recovery loops of `Detect`. */
    method Recoveries(active: Faults, now: int) returns (events: seq<Event>)
      ensures Announces(events, true, prev, active)
      ensures forall i :: 0 <= i < |events| ==>
                events[i].component == "npu" && events[i].timestamp == now && events[i].severity == Warning
    {
      events := [];
      var todo := prev.Keys;
      ghost var done: Faults := map[];
      while todo != {}
        invariant todo <= prev.Keys && done.Keys == prev.Keys - todo
        invariant forall npu :: npu in done ==> done[npu] == prev[npu]
        invariant Announces(events, true, done, active)
        invariant forall i :: 0 <= i < |events| ==>
                    events[i].component == "npu" && events[i].timestamp == now && events[i].severity == Warning
        decreases todo
      {
        var npu :| npu in todo;
        todo := todo - {npu};
        events := RecoverDevice(npu, active, now, events, done);
        done := done[npu := prev[npu]];
      }
      AnnouncesSame(events, true, done, prev, active);
    }

    method RecoverDevice(npu: string, active: Faults, now: int, events: seq<Event>, ghost done: Faults)
      returns (events': seq<Event>)
      requires npu in prev && npu !in done && Announces(events, true, done, active)
      requires forall i :: 0 <= i < |events| ==>
                 events[i].component == "npu" && events[i].timestamp == now && events[i].severity == Warning
      ensures Announces(events', true, done[npu := prev[npu]], active)
      ensures forall i :: 0 <= i < |events'| ==>
                events'[i].component == "npu" && events'[i].timestamp == now && events'[i].severity == Warning
    {
      events' := events;
      var types := prev[npu];
      ghost var seen: set<FaultType> := {};
      AnnouncesSame(events, true, done, done[npu := seen], active);
      while types != {}
        invariant types !! seen && types + seen == prev[npu]
        invariant Announces(events', true, done[npu := seen], active)
        invariant forall i :: 0 <= i < |events'| ==>
                    events'[i].component == "npu" && events'[i].timestamp == now && events'[i].severity == Warning
        decreases types
      {
        var t :| t in types;
        if !(npu in active && t in active[npu]) {
          var e := Event(t, "npu", npu, Warning, now, true);
          AnnouncesOneMore(events', true, done[npu := seen], done[npu := seen + {t}], active, e);
          events' := events' + [e];
        } else {
          AnnouncesSame(events', true, done[npu := seen], done[npu := seen + {t}], active);
        }
        types := types - {t};
        seen := seen + {t};
      }
      assert seen == prev[npu];
    }

    /** The loop of `Detect` over the devices, in whatever order the map yields them. */
    method Fires(devs: map<string, DevState>, now: int) returns (active: Faults, fires: seq<Event>)
      ensures active.Keys == devs.Keys
      ensures forall npu :: npu in devs ==> FoundBy(active[npu], rules, devs[npu], RULE_COUNT)
      ensures Announces(fires, false, active, prev) && InRuleOrder(fires) && Stamped(rules, devs, now, fires)
    {
      fires, active := [], map[];
      var todo := devs.Keys;
      while todo != {}
        invariant todo <= devs.Keys && active.Keys == devs.Keys - todo
        invariant forall npu :: npu in active ==> FoundBy(active[npu], rules, devs[npu], RULE_COUNT)
        invariant Announces(fires, false, active, prev) && InRuleOrder(fires)
        invariant Stamped(rules, devs, now, fires)
        decreases todo
      {
        var npu :| npu in todo;
        todo := todo - {npu};
        var types, more := CheckDevice(npu, devs[npu], now, fires);
        DeviceAnnounced(fires, rules, prev, npu, devs[npu], now, active, types);
        StampedMore(rules, devs, now, fires, prev, npu);
        active, fires := active[npu := types], more;
      }
    }

    /** `Detect`. */
    method Detect(ms: seq<Metric>, now: int) returns (events: seq<Event>)
      modifies this
      ensures FaultsOf(rules, ms, prev)
      ensures IsCycle(old(prev), prev, events)
      ensures WellStamped(rules, ms, now, events) && InRuleOrder(events)
    {
      var devs := Group(ms);
      var active, fires := Fires(devs, now);
      var recoveries := Recoveries(active, now);
      events := fires + recoveries;
      CycleFromGroups(prev, active, fires, recoveries);
      GroupsInOrder(fires, recoveries);
      GroupsWellStamped(rules, ms, devs, now, fires, recoveries);
      FoundIsFaultsOf(rules, ms, devs, active);
      prev := active;
    }
  }

  /** Every event is a fault that its device shows. */
  predicate Stamped(rules: Rules, devs: map<string, DevState>, now: int, fires: seq<Event>) {
    forall i :: 0 <= i < |fires| ==>
      var e := fires[i];
      && e.component == "npu" && e.timestamp == now && !e.recovered
      && e.npu in devs && Firing(rules, devs[e.npu], e.fault) == Some(e.severity)
  }

  lemma StampedMore(rules: Rules, devs: map<string, DevState>, now: int, fires: seq<Event>, prev: Faults, npu: string)
    requires Stamped(rules, devs, now, fires) && npu in devs
    ensures Stamped(rules, devs, now, fires + Fired(rules, prev, npu, devs[npu], now, RULE_COUNT))
  {
    FiredIsRight(rules, prev, npu, devs[npu], now, RULE_COUNT);
  }

  lemma FoundOne(active: set<FaultType>, rules: Rules, st: DevState, t: FaultType)
    requires FoundBy(active, rules, st, RULE_COUNT)
    ensures t in active <==> Firing(rules, st, t).Some?
  {
  }

  lemma FoundIsFaultsOf(rules: Rules, ms: seq<Metric>, devs: map<string, DevState>, active: Faults)
    requires forall npu :: npu in devs <==> HasDevice(ms, npu)
    requires forall npu :: npu in devs ==> devs[npu] == DevOf(ms, npu)
    requires active.Keys == devs.Keys
    requires forall npu :: npu in devs ==> FoundBy(active[npu], rules, devs[npu], RULE_COUNT)
    ensures FaultsOf(rules, ms, active)
  {
    forall npu, t
      ensures IsActive(active, npu, t) <==> HasDevice(ms, npu) && Firing(rules, DevOf(ms, npu), t).Some?
    {
      if npu in devs {
        FoundOne(active[npu], rules, devs[npu], t);
      }
    }
  }

  lemma GroupsInOrder(fires: seq<Event>, recoveries: seq<Event>)
    requires InRuleOrder(fires) && forall i :: 0 <= i < |recoveries| ==> recoveries[i].recovered
    ensures InRuleOrder(fires + recoveries)
  {
  }

  lemma GroupsWellStamped(rules: Rules, ms: seq<Metric>, devs: map<string, DevState>, now: int,
                          fires: seq<Event>, recoveries: seq<Event>)
    requires forall npu :: npu in devs ==> devs[npu] == DevOf(ms, npu)
    requires Stamped(rules, devs, now, fires)
    requires forall i :: 0 <= i < |recoveries| ==>
               var e := recoveries[i]; e.recovered && e.component == "npu" && e.timestamp == now && e.severity == Warning
    ensures WellStamped(rules, ms, now, fires + recoveries)
  {
  }

  /** `st` with the metric filed under its name. */
  function WithMetric(st: DevState, m: Metric): DevState {
    match m.name
    case "health_status" => st.(health := Some(m))
    case "error_code" => st.(errorCode := Some(m))
    case "card_drop" => st.(cardDrop := Some(m))
    case "hbm_double_ecc" => st.(hbmDouble := Some(m))
    case "ddr_double_ecc" => st.(ddrDouble := Some(m))
    case "roce_link_status" => st.(roceStatus := Some(m))
    case "roce_link_health" => st.(roceHealth := Some(m))
    case "driver_health" => st.(driverHealth := Some(m))
    case _ => st
  }

  lemma OneMoreMetric(ms: seq<Metric>, i: nat)
    requires i < |ms|
    ensures forall npu :: HasDevice(ms[..i + 1], npu) <==> HasDevice(ms[..i], npu) || IsFor(ms[i], npu)
    ensures forall npu :: DevOf(ms[..i + 1], npu) ==
                          if IsFor(ms[i], npu) then WithMetric(DevOf(ms[..i], npu), ms[i]) else DevOf(ms[..i], npu)
  {
    var more := ms[..i + 1];
    assert more[..i] == ms[..i] && more[i] == ms[i];
    forall npu
      ensures HasDevice(more, npu) <==> HasDevice(ms[..i], npu) || IsFor(ms[i], npu)
    {
      assert forall k :: 0 <= k < i ==> more[k] == ms[..i][k];
    }
  }

  lemma {:induction false} NoMetricsYet(ms: seq<Metric>, npu: string)
    requires !HasDevice(ms, npu)
    ensures DevOf(ms, npu) == NO_METRICS
  {
    if ms != [] {
      assert !IsFor(ms[|ms| - 1], npu);
      var before := ms[..|ms| - 1];
      forall k | 0 <= k < |before|
        ensures !IsFor(before[k], npu)
      {
        assert before[k] == ms[k];
      }
      NoMetricsYet(before, npu);
    }
  }
}
