/** What the detector of features/faultsub/detector.go finds, told on the metrics of a batch by their places
    in it: which reading makes which fault active, which events come of it, and how severe they are. */
module FaultReadings {
  import opened GoText
  import opened FaultDetector
  import opened FaultRuns
  import opened FaultSeverity

  /** The metric is a reading of that name from that device. */
  predicate IsReading(m: Metric, npu: string, name: string) {
    m.component == "npu" && m.name == name && npu != "" && Says(m, "npu_id", npu)
  }

  predicate Says(m: Metric, key: string, value: string) {
    key in m.labels && m.labels[key] == value
  }

  /** Metric `i` is the last reading of that name from that device. */
  predicate LastReading(ms: seq<Metric>, npu: string, name: string, i: nat) {
    i < |ms| && IsReading(ms[i], npu, name) && forall j :: i < j < |ms| ==> !IsReading(ms[j], npu, name)
  }

  /** Somewhere between commas, blanks around it aside, the list has the card-drop code in any case. */
  ghost predicate ListsCode(codes: string) {
    exists a: nat, b: nat, i: nat, j: nat :: CodeAt(codes, a, b, i, j)
  }

  predicate CodeAt(codes: string, a: nat, b: nat, i: nat, j: nat) {
    BetweenCommas(codes, a, b) && TrimsAt(codes[a..b], i, j) && EqualFold(codes[a..b][i..j], "0x40f84e00")
  }

  /** The reading is one that shows the fault. */
  ghost predicate IsBad(t: FaultType, m: Metric) {
    match t
    case CardDrop =>
      || (m.name == "card_drop" && m.value >= 1.0)
      || (m.name == "error_code" && "error_codes" in m.labels && ListsCode(m.labels["error_codes"]))
    case HealthState => m.name == "health_status" && (Says(m, "status", "Alarm") || Says(m, "status", "Critical"))
    case ErrorCode => m.name == "error_code" && m.value > 0.0
    case HbmUce => m.name == "hbm_double_ecc" && m.value > 0.0
    case DdrUce => m.name == "ddr_double_ecc" && m.value > 0.0
    case RoceLinkDown =>
      || (m.name == "roce_link_status" && (m.value == 0.0 || Says(m, "status", "down")))
      || (m.name == "roce_link_health" && (Says(m, "roce_link", "down") || Says(m, "roce_link", "Down")))
    case DriverUnhealthy => m.name == "driver_health" && m.value != 0.0
    case StragglerDetected => false
  }

  /** The last reading of its name, at `i`, shows the fault. */
  ghost predicate ShownAt(ms: seq<Metric>, npu: string, t: FaultType, i: nat) {
    i < |ms| && LastReading(ms, npu, ms[i].name, i) && IsBad(t, ms[i])
  }

  ghost predicate IsShown(ms: seq<Metric>, npu: string, t: FaultType) {
    exists i: nat :: ShownAt(ms, npu, t, i)
  }

  /** A fault of that type, as the batch shows it, is critical. */
  ghost predicate IsCritical(ms: seq<Metric>, npu: string, t: FaultType) {
    || t in {CardDrop, HbmUce, DdrUce}
    || (t == HealthState && exists i: nat :: LastReading(ms, npu, "health_status", i) && Says(ms[i], "status", "Critical"))
  }

  // ----- the last metric of a name --------------------------------------------------------------------------

  lemma ReadingIsFor(m: Metric, npu: string, name: string)
    ensures IsReading(m, npu, name) <==> IsFor(m, npu) && m.name == name
  {
  }

  lemma {:induction false} LastMetricIsLastReading(ms: seq<Metric>, npu: string, name: string)
    ensures LastMetric(ms, npu, name).None? ==> forall i :: 0 <= i < |ms| ==> !IsReading(ms[i], npu, name)
    ensures LastMetric(ms, npu, name).Some? ==>
              exists i: nat :: LastReading(ms, npu, name, i) && ms[i] == LastMetric(ms, npu, name).value
  {
    if ms != [] {
      var last := |ms| - 1;
      ReadingIsFor(ms[last], npu, name);
      if IsReading(ms[last], npu, name) {
        assert LastReading(ms, npu, name, last);
      } else {
        LastMetricIsLastReading(ms[..last], npu, name);
        if LastMetric(ms[..last], npu, name).Some? {
          var i: nat :| LastReading(ms[..last], npu, name, i) && ms[..last][i] == LastMetric(ms[..last], npu, name).value;
          assert LastReading(ms, npu, name, i);
        } else {
          assert forall i :: 0 <= i < last ==> ms[..last][i] == ms[i];
        }
      }
    }
  }

  lemma LastReadingIsLastMetric(ms: seq<Metric>, npu: string, name: string, i: nat)
    requires LastReading(ms, npu, name, i)
    ensures LastMetric(ms, npu, name) == Some(ms[i])
  {
    LastMetricIsLastReading(ms, npu, name);
    if LastMetric(ms, npu, name).Some? {
      var k: nat :| LastReading(ms, npu, name, k) && ms[k] == LastMetric(ms, npu, name).value;
      assert k == i;
    }
  }

  lemma CodeIsListed(codes: string)
    ensures ListsCardDrop(codes) <==> ListsCode(codes)
  {
    if ListsCardDrop(codes) {
      var parts := SplitComma(codes);
      var k :| 0 <= k < |parts| && IsCardDropCode(parts[k]);
      var a, b := PartIsBetweenCommas(codes, k);
      var i, j := TrimSpaceIs(parts[k]);
      assert CodeAt(codes, a, b, i, j);
    }
    if a: nat, b: nat, i: nat, j: nat :| CodeAt(codes, a, b, i, j) {
      var k := BetweenCommasIsPart(codes, a, b);
      TrimSpaceExactly(codes[a..b], i, j);
      assert IsCardDropCode(SplitComma(codes)[k]);
    }
  }

  // ----- the rules ------------------------------------------------------------------------------------------

  lemma LabelSays(m: Metric, key: string, value: string)
    requires value != ""
    ensures Label(m, key) == value <==> Says(m, key, value)
  {
  }

  lemma BadReadingShows(ms: seq<Metric>, npu: string, t: FaultType, i: nat)
    requires ShownAt(ms, npu, t, i)
    ensures Shows(DevOf(ms, npu), t).Some?
  {
    var m := ms[i];
    LastReadingIsLastMetric(ms, npu, m.name, i);
    if t.CardDrop? && m.name == "error_code" {
      CodeIsListed(m.labels["error_codes"]);
      var a: nat, b: nat, k: nat, l: nat :| CodeAt(m.labels["error_codes"], a, b, k, l);
      assert |m.labels["error_codes"]| > 0;
    }
  }

  lemma LastOf(ms: seq<Metric>, npu: string, name: string) returns (i: nat)
    requires LastMetric(ms, npu, name).Some?
    ensures LastReading(ms, npu, name, i) && ms[i] == LastMetric(ms, npu, name).value
  {
    LastMetricIsLastReading(ms, npu, name);
    i :| LastReading(ms, npu, name, i) && ms[i] == LastMetric(ms, npu, name).value;
  }

  /** Where to look for what shows the fault. */
  function NameOf(st: DevState, t: FaultType): string {
    match t
    case CardDrop => if st.cardDrop.Some? && st.cardDrop.value.value >= 1.0 then "card_drop" else "error_code"
    case HealthState => "health_status"
    case ErrorCode => "error_code"
    case HbmUce => "hbm_double_ecc"
    case DdrUce => "ddr_double_ecc"
    case RoceLinkDown =>
      if st.roceStatus.Some? && (st.roceStatus.value.value == 0.0 || Label(st.roceStatus.value, "status") == "down")
      then "roce_link_status" else "roce_link_health"
    case DriverUnhealthy => "driver_health"
    case StragglerDetected => ""
  }

  lemma ShownHasBadReading(ms: seq<Metric>, npu: string, t: FaultType) returns (i: nat)
    requires Shows(DevOf(ms, npu), t).Some?
    ensures ShownAt(ms, npu, t, i)
  {
    var st := DevOf(ms, npu);
    i := LastOf(ms, npu, NameOf(st, t));
    if t.CardDrop? && NameOf(st, t) == "error_code" {
      CodeIsListed(Label(ms[i], "error_codes"));
    }
  }

  lemma ShowsIsShown(ms: seq<Metric>, npu: string, t: FaultType)
    ensures Shows(DevOf(ms, npu), t).Some? <==> IsShown(ms, npu, t)
  {
    if IsShown(ms, npu, t) {
      var i: nat :| ShownAt(ms, npu, t, i);
      BadReadingShows(ms, npu, t, i);
    }
    if Shows(DevOf(ms, npu), t).Some? {
      var i := ShownHasBadReading(ms, npu, t);
    }
  }

  lemma SeverityIsShown(ms: seq<Metric>, npu: string, t: FaultType)
    requires Shows(DevOf(ms, npu), t).Some?
    ensures Shows(DevOf(ms, npu), t).value == Critical <==> IsCritical(ms, npu, t)
  {
    if t.HealthState? {
      var i := LastOf(ms, npu, "health_status");
      forall k: nat | LastReading(ms, npu, "health_status", k)
        ensures k == i
      {
      }
    }
  }

  // ----- what the detector answers ----------------------------------------------------------------------------

  /** After a batch a fault of a device is active exactly when its rule is on and the last reading of some
      name from the device shows it. */
  lemma ActiveExactly(rules: Rules, ms: seq<Metric>, f: Faults, npu: string, t: FaultType)
    requires FaultsOf(rules, ms, f)
    ensures IsActive(f, npu, t) <==> (t in rules ==> rules[t]) && IsShown(ms, npu, t)
  {
    ShowsIsShown(ms, npu, t);
    if i: nat :| ShownAt(ms, npu, t, i) {
      assert IsFor(ms[i], npu);
    }
  }

  /** The events tell of the faults that the batch shows and the one before did not, as severe as they are
      shown, and of those that it no longer shows; and of nothing else. */
  lemma EventsExactly(rules: Rules, ms: seq<Metric>, now: int, prev: Faults, cur: Faults, events: seq<Event>,
                      npu: string, t: FaultType, recovered: bool)
    requires Outcome(rules, ms, now, prev, cur, events)
    ensures (exists i :: 0 <= i < |events| && KeyOf(events[i]) == (npu, t) && events[i].recovered == recovered) <==>
            var shown := (t in rules ==> rules[t]) && IsShown(ms, npu, t);
            if recovered then IsActive(prev, npu, t) && !shown else !IsActive(prev, npu, t) && shown
    ensures forall i :: 0 <= i < |events| && KeyOf(events[i]) == (npu, t) && !recovered && !events[i].recovered ==>
              (events[i].severity == Critical <==> IsCritical(ms, npu, t))
  {
    var fires, recoveries := Groups(prev, cur, events);
    ActiveExactly(rules, ms, cur, npu, t);
    var group := if recovered then recoveries else fires;
    assert HasKey(group, npu, t) <==>
           if recovered then IsActive(prev, npu, t) && !IsActive(cur, npu, t)
           else IsActive(cur, npu, t) && !IsActive(prev, npu, t);
    if HasKey(group, npu, t) {
      var i :| 0 <= i < |group| && KeyOf(group[i]) == (npu, t);
      assert events[if recovered then |fires| + i else i] == group[i];
    }
    if i :| 0 <= i < |events| && KeyOf(events[i]) == (npu, t) && events[i].recovered == recovered {
      assert group[if recovered then i - |fires| else i] == events[i];
    }
    forall i | 0 <= i < |events| && KeyOf(events[i]) == (npu, t) && !recovered && !events[i].recovered
      ensures events[i].severity == Critical <==> IsCritical(ms, npu, t)
    {
      SeverityIsShown(ms, npu, t);
    }
  }

  /** The last readings of the device are those of a healthy one. */
  predicate Healthy(ms: seq<Metric>, npu: string) {
    forall i: nat :: i < |ms| && LastReading(ms, npu, ms[i].name, i) ==> IsHealthy(ms[i])
  }

  predicate IsHealthy(m: Metric) {
    && (m.name in {"hbm_double_ecc", "ddr_double_ecc", "error_code"} ==> m.value <= 0.0)
    && (m.name == "error_code" ==> "error_codes" !in m.labels || m.labels["error_codes"] == "")
    && (m.name == "card_drop" ==> m.value < 1.0)
    && (m.name == "driver_health" ==> m.value == 0.0)
    && (m.name == "roce_link_status" ==> m.value != 0.0 && !Says(m, "status", "down"))
    && (m.name == "roce_link_health" ==> !Says(m, "roce_link", "down") && !Says(m, "roce_link", "Down"))
    && (m.name == "health_status" ==> !Says(m, "status", "Alarm") && !Says(m, "status", "Critical"))
  }

  lemma NoCodeInNothing(codes: string)
    requires codes == ""
    ensures !ListsCode(codes)
  {
  }

  /** A healthy device has no active fault, and nothing but recoveries is told of it. */
  lemma HealthyIsSilent(rules: Rules, ms: seq<Metric>, now: int, prev: Faults, cur: Faults, events: seq<Event>, npu: string)
    requires Outcome(rules, ms, now, prev, cur, events) && Healthy(ms, npu)
    ensures forall t :: !IsActive(cur, npu, t)
    ensures forall i :: 0 <= i < |events| && events[i].npu == npu ==> events[i].recovered
  {
    forall t
      ensures !IsActive(cur, npu, t)
    {
      ActiveExactly(rules, ms, cur, npu, t);
      if i: nat :| ShownAt(ms, npu, t, i) {
        assert IsHealthy(ms[i]);
        NoCodeInNothing("");
      }
    }
    forall i | 0 <= i < |events| && events[i].npu == npu
      ensures events[i].recovered
    {
      if !events[i].recovered {
        EventsExactly(rules, ms, now, prev, cur, events, npu, events[i].fault, false);
        ActiveExactly(rules, ms, cur, npu, events[i].fault);
      }
    }
  }

  /** Over any run, replaying the stream gives the faults that the readings of the last batch show. */
  lemma ReplayIsWhatReadingsShow(rules: Rules, cycles: seq<Cycle>, npu: string, t: FaultType)
    requires IsRun(rules, cycles) && cycles != []
    ensures (npu, t) in Replay(AllEvents(cycles)) <==>
            (t in rules ==> rules[t]) && IsShown(cycles[|cycles| - 1].metrics, npu, t)
  {
    ReplayIsTheDetectorsState(rules, cycles, npu, t);
    assert Follows(rules, Current(cycles[..|cycles| - 1]), cycles[|cycles| - 1]);
    ActiveExactly(rules, cycles[|cycles| - 1].metrics, Current(cycles), npu, t);
  }
}
