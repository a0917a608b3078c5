/** Whether the snapshot shows the worst fault of a device, as the comment at
    features/faultsub/storage.go:70-71 says: the last new fault takes the slot, whatever its
    severity. */
module FaultSeverity {
  import opened GoText
  import opened FaultDetector
  import opened FaultRuns

  /** The fault is active in `cur`, and new. */
  predicate Gained(prev: Faults, cur: Faults, npu: string, t: FaultType) {
    IsActive(cur, npu, t) && !IsActive(prev, npu, t)
  }

  predicate Is(sev: Severity, rules: Rules, ms: seq<Metric>, npu: string, t: FaultType) {
    Firing(rules, DevOf(ms, npu), t) == Some(sev)
  }

  /** The device shows a critical fault. */
  predicate SomeCritical(rules: Rules, ms: seq<Metric>, cur: Faults, npu: string) {
    exists t :: IsActive(cur, npu, t) && Is(Critical, rules, ms, npu, t)
  }

  predicate SomeActive(cur: Faults, npu: string) {
    exists t :: IsActive(cur, npu, t)
  }

  /** The slot is as severe as the worst active fault of the device, and empty if there is none. */
  predicate ShowsWorst(snap: Snapshot, rules: Rules, ms: seq<Metric>, cur: Faults, npu: string) {
    && (npu in snap <==> SomeActive(cur, npu))
    && (npu in snap ==> (snap[npu].severity == Critical <==> SomeCritical(rules, ms, cur, npu)))
  }

  /** What `Detector.Detect` promises of a batch and of the events it returns, but for the order of
      the rules. */
  ghost predicate Outcome(rules: Rules, ms: seq<Metric>, now: int, prev: Faults, cur: Faults, events: seq<Event>) {
    FaultsOf(rules, ms, cur) && IsCycle(prev, cur, events) && WellStamped(rules, ms, now, events)
  }

  // ----- in the order of the rules -------------------------------------------------------------------

  /** Of the new faults of the device, the one whose rule comes last. */
  ghost predicate LastGained(prev: Faults, cur: Faults, npu: string, t: FaultType) {
    Gained(prev, cur, npu, t) && forall u :: Gained(prev, cur, npu, u) ==> RuleNo(u) <= RuleNo(t)
  }

  lemma GainedHasEvent(prev: Faults, cur: Faults, events: seq<Event>, npu: string, t: FaultType) returns (i: nat)
    requires IsCycle(prev, cur, events) && Gained(prev, cur, npu, t)
    ensures i < |events| && KeyOf(events[i]) == (npu, t) && !events[i].recovered
  {
    var k :| SplitsAt(prev, cur, events, k);
    assert HasKey(events[..k], npu, t);
    i :| 0 <= i < |events[..k]| && KeyOf(events[..k][i]) == (npu, t);
  }

  /** The slot of a device that loses nothing and gains something. */
  lemma SlotOfGainer(snap: Snapshot, rules: Rules, ms: seq<Metric>, now: int, prev: Faults, cur: Faults,
                     events: seq<Event>, npu: string) returns (i: nat)
    requires Outcome(rules, ms, now, prev, cur, events)
    requires Gains(prev, cur, npu) && !Gains(cur, prev, npu)
    ensures SlotFrom(UpdatedAll(snap, events), events, npu, i) && NewFaultLast(prev, cur, events, npu, i)
    ensures Is(events[i].severity, rules, ms, npu, events[i].fault)
  {
    SlotAfterCycle(snap, prev, cur, events, npu);
    i :| SlotFrom(UpdatedAll(snap, events), events, npu, i) && NewFaultLast(prev, cur, events, npu, i);
  }

  ghost predicate LastGainedCritical(rules: Rules, ms: seq<Metric>, prev: Faults, cur: Faults, npu: string) {
    exists t :: LastGained(prev, cur, npu, t) && Is(Critical, rules, ms, npu, t)
  }

  /** In the order in which the detector checks its rules, the new fault of the last rule takes the slot. */
  lemma GainerShowsLastRule(snap: Snapshot, rules: Rules, ms: seq<Metric>, now: int, prev: Faults, cur: Faults,
                            events: seq<Event>, npu: string) returns (t: FaultType)
    requires Outcome(rules, ms, now, prev, cur, events) && InRuleOrder(events)
    requires Gains(prev, cur, npu) && !Gains(cur, prev, npu)
    ensures LastGained(prev, cur, npu, t)
    ensures npu in UpdatedAll(snap, events) && UpdatedAll(snap, events)[npu].fault == t
    ensures Is(UpdatedAll(snap, events)[npu].severity, rules, ms, npu, t)
  {
    var i := SlotOfGainer(snap, rules, ms, now, prev, cur, events, npu);
    t := events[i].fault;
    forall u | Gained(prev, cur, npu, u)
      ensures RuleNo(u) <= RuleNo(t)
    {
      var j := GainedHasEvent(prev, cur, events, npu, u);
      assert j <= i;
    }
  }

  /** When the slot of a device is as severe as its worst active fault after a cycle: if it lost a fault,
      exactly when nothing stays active; else if it gained one, exactly when the new fault of the last
      rule is critical or no active fault is; and else exactly when the slot it had fits what the
      persisting faults now show. */
  lemma WorstShownExactly(snap: Snapshot, rules: Rules, ms: seq<Metric>, now: int, prev: Faults, cur: Faults,
                          events: seq<Event>, npu: string)
    requires Outcome(rules, ms, now, prev, cur, events) && InRuleOrder(events)
    ensures ShowsWorst(UpdatedAll(snap, events), rules, ms, cur, npu) <==>
            if Gains(cur, prev, npu) then !SomeActive(cur, npu)
            else if Gains(prev, cur, npu) then
              LastGainedCritical(rules, ms, prev, cur, npu) || !SomeCritical(rules, ms, cur, npu)
            else ShowsWorst(snap, rules, ms, cur, npu)
  {
    SlotAfterCycle(snap, prev, cur, events, npu);
    if Gains(prev, cur, npu) && !Gains(cur, prev, npu) {
      var t := GainerShowsLastRule(snap, rules, ms, now, prev, cur, events, npu);
      LastGainedIsOne(prev, cur, npu, t);
      assert Gained(prev, cur, npu, t);
    }
  }

  lemma LastGainedIsOne(prev: Faults, cur: Faults, npu: string, t: FaultType)
    requires LastGained(prev, cur, npu, t)
    ensures forall u :: LastGained(prev, cur, npu, u) ==> u == t
  {
    forall u | LastGained(prev, cur, npu, u)
      ensures u == t
    {
      assert RuleNo(u) == RuleNo(t);
    }
  }

  lemma OnlyHealthVaries(rules: Rules, st: DevState, st': DevState, t: FaultType)
    requires t != HealthState && Firing(rules, st, t).Some? && Firing(rules, st', t).Some?
    ensures Firing(rules, st, t) == Firing(rules, st', t)
  {
  }

  /** The health of the device is bad in both batches but not alike, and nothing else on it is critical. */
  predicate HealthDecides(rules: Rules, before: seq<Metric>, ms: seq<Metric>, cur: Faults, npu: string) {
    && IsActive(cur, npu, HealthState)
    && Firing(rules, DevOf(before, npu), HealthState) != Firing(rules, DevOf(ms, npu), HealthState)
    && forall t :: IsActive(cur, npu, t) && t != HealthState ==> !Is(Critical, rules, ms, npu, t)
  }

  lemma CriticalChangesByHealth(rules: Rules, before: seq<Metric>, ms: seq<Metric>, prev: Faults, cur: Faults, npu: string)
    requires FaultsOf(rules, before, prev) && FaultsOf(rules, ms, cur)
    requires !Gains(prev, cur, npu) && !Gains(cur, prev, npu)
    ensures forall t :: IsActive(prev, npu, t) <==> IsActive(cur, npu, t)
    ensures forall t :: IsActive(cur, npu, t) && t != HealthState ==>
              (Is(Critical, rules, before, npu, t) <==> Is(Critical, rules, ms, npu, t))
    ensures (SomeCritical(rules, before, prev, npu) <==> SomeCritical(rules, ms, cur, npu)) <==>
            !HealthDecides(rules, before, ms, cur, npu)
  {
    assert forall t :: IsActive(prev, npu, t) <==> IsActive(cur, npu, t);
    forall t | IsActive(cur, npu, t) && t != HealthState
      ensures Is(Critical, rules, before, npu, t) <==> Is(Critical, rules, ms, npu, t)
    {
      OnlyHealthVaries(rules, DevOf(before, npu), DevOf(ms, npu), t);
    }
  }

  /** A slot that was right stays right over a cycle in which its device neither gains nor loses a fault,
      except exactly when the health of the device goes from one bad state to the other and nothing else
      on it is critical. */
  lemma StaleExactlyByHealth(snap: Snapshot, rules: Rules, before: seq<Metric>, ms: seq<Metric>, now: int,
                             prev: Faults, cur: Faults, events: seq<Event>, npu: string)
    requires FaultsOf(rules, before, prev) && Outcome(rules, ms, now, prev, cur, events)
    requires !Gains(prev, cur, npu) && !Gains(cur, prev, npu) && ShowsWorst(snap, rules, before, prev, npu)
    ensures ShowsWorst(UpdatedAll(snap, events), rules, ms, cur, npu) <==> !HealthDecides(rules, before, ms, cur, npu)
  {
    SlotAfterCycle(snap, prev, cur, events, npu);
    CriticalChangesByHealth(rules, before, ms, prev, cur, npu);
  }

  // ----- in every order ----------------------------------------------------------------------------------

  /** Each new fault is critical. */
  predicate AllGainedCritical(rules: Rules, ms: seq<Metric>, prev: Faults, cur: Faults, npu: string) {
    forall t :: Gained(prev, cur, npu, t) ==> Is(Critical, rules, ms, npu, t)
  }

  ghost predicate WorstInEveryOrder(snap: Snapshot, rules: Rules, ms: seq<Metric>, now: int, prev: Faults, cur: Faults,
                                    npu: string)
  {
    forall events: seq<Event> :: Outcome(rules, ms, now, prev, cur, events) ==>
      ShowsWorst(UpdatedAll(snap, events), rules, ms, cur, npu)
  }

  lemma GainerShowsGained(snap: Snapshot, rules: Rules, ms: seq<Metric>, now: int, prev: Faults, cur: Faults,
                          events: seq<Event>, npu: string)
    requires Outcome(rules, ms, now, prev, cur, events)
    requires Gains(prev, cur, npu) && !Gains(cur, prev, npu)
    requires AllGainedCritical(rules, ms, prev, cur, npu) || !SomeCritical(rules, ms, cur, npu)
    ensures ShowsWorst(UpdatedAll(snap, events), rules, ms, cur, npu)
  {
    var i := SlotOfGainer(snap, rules, ms, now, prev, cur, events, npu);
    assert Gained(prev, cur, npu, events[i].fault);
  }

  /** Whatever order the new faults come in, the slot is as severe as the worst active fault: if the device
      lost a fault, exactly when nothing stays active; else if it gained one, exactly when all new faults
      are critical or no active one is; and else exactly when the slot it had fits. */
  lemma WorstShownInEveryOrderExactly(snap: Snapshot, rules: Rules, ms: seq<Metric>, now: int, prev: Faults, cur: Faults,
                                      npu: string)
    requires FaultsOf(rules, ms, cur)
    ensures WorstInEveryOrder(snap, rules, ms, now, prev, cur, npu) <==>
            if Gains(cur, prev, npu) then !SomeActive(cur, npu)
            else if Gains(prev, cur, npu) then
              AllGainedCritical(rules, ms, prev, cur, npu) || !SomeCritical(rules, ms, cur, npu)
            else ShowsWorst(snap, rules, ms, cur, npu)
  {
    if Gains(prev, cur, npu) && !Gains(cur, prev, npu) {
      WorstOfGainerInEveryOrder(snap, rules, ms, now, prev, cur, npu);
    } else {
      var some := SomeOutcome(rules, ms, now, prev, cur);
      forall events: seq<Event> | Outcome(rules, ms, now, prev, cur, events)
        ensures ShowsWorst(UpdatedAll(snap, events), rules, ms, cur, npu) <==>
                if Gains(cur, prev, npu) then !SomeActive(cur, npu) else ShowsWorst(snap, rules, ms, cur, npu)
      {
        SlotAfterCycle(snap, prev, cur, events, npu);
      }
    }
  }

  lemma WorstOfGainerInEveryOrder(snap: Snapshot, rules: Rules, ms: seq<Metric>, now: int, prev: Faults, cur: Faults,
                                  npu: string)
    requires FaultsOf(rules, ms, cur) && Gains(prev, cur, npu) && !Gains(cur, prev, npu)
    ensures WorstInEveryOrder(snap, rules, ms, now, prev, cur, npu) <==>
            AllGainedCritical(rules, ms, prev, cur, npu) || !SomeCritical(rules, ms, cur, npu)
  {
    if AllGainedCritical(rules, ms, prev, cur, npu) || !SomeCritical(rules, ms, cur, npu) {
      forall events: seq<Event> | Outcome(rules, ms, now, prev, cur, events)
        ensures ShowsWorst(UpdatedAll(snap, events), rules, ms, cur, npu)
      {
        GainerShowsGained(snap, rules, ms, now, prev, cur, events, npu);
      }
    } else {
      var w :| Gained(prev, cur, npu, w) && !Is(Critical, rules, ms, npu, w);
      var events := EndingWith(rules, ms, now, prev, cur, npu, w);
      var i := SlotOfGainer(snap, rules, ms, now, prev, cur, events, npu);
      assert !ShowsWorst(UpdatedAll(snap, events), rules, ms, cur, npu);
    }
  }

  // An order that ends with the fault of our choice.

  function NewKeys(prev: Faults, cur: Faults): (keys: set<Key>)
    ensures forall npu, t :: (npu, t) in keys <==> Gained(prev, cur, npu, t)
  {
    set npu, t | npu in cur && t in cur[npu] && !IsActive(prev, npu, t) :: (npu, t)
  }

  ghost predicate Lists(list: seq<Key>, keys: set<Key>) {
    (forall key :: key in list <==> key in keys) && forall i, j :: 0 <= i < j < |list| ==> list[i] != list[j]
  }

  lemma {:induction false} Listing(keys: set<Key>) returns (list: seq<Key>)
    ensures Lists(list, keys)
  {
    if keys == {} {
      list := [];
    } else {
      var key :| key in keys;
      var rest := Listing(keys - {key});
      list := rest + [key];
      assert key !in rest;
    }
  }

  function EventOf(key: Key, rules: Rules, ms: seq<Metric>, now: int, recovered: bool): Event {
    var shown := Firing(rules, DevOf(ms, key.0), key.1);
    Event(key.1, "npu", key.0, if recovered || shown.None? then Warning else shown.value, now, recovered)
  }

  function EventsOf(list: seq<Key>, rules: Rules, ms: seq<Metric>, now: int, recovered: bool): (events: seq<Event>)
    ensures |events| == |list|
  {
    seq(|list|, i requires 0 <= i < |list| => EventOf(list[i], rules, ms, now, recovered))
  }

  lemma ListingAnnounces(list: seq<Key>, rules: Rules, ms: seq<Metric>, now: int, recovered: bool, after: Faults, other: Faults)
    requires Lists(list, NewKeys(other, after))
    ensures Announces(EventsOf(list, rules, ms, now, recovered), recovered, after, other)
  {
    var events := EventsOf(list, rules, ms, now, recovered);
    assert forall i :: 0 <= i < |list| ==> KeyOf(events[i]) == list[i];
    forall npu, t
      ensures HasKey(events, npu, t) <==> IsActive(after, npu, t) && !IsActive(other, npu, t)
    {
      assert (npu, t) in list <==> Gained(other, after, npu, t);
      if (npu, t) in list {
        var i :| 0 <= i < |list| && list[i] == (npu, t);
        assert KeyOf(events[i]) == (npu, t);
      }
    }
  }

  lemma ListingWellStamped(fires: seq<Key>, recoveries: seq<Key>, rules: Rules, ms: seq<Metric>, now: int,
                           prev: Faults, cur: Faults)
    requires FaultsOf(rules, ms, cur) && Lists(fires, NewKeys(prev, cur))
    ensures WellStamped(rules, ms, now, EventsOf(fires, rules, ms, now, false) + EventsOf(recoveries, rules, ms, now, true))
  {
    forall i | 0 <= i < |fires|
      ensures Firing(rules, DevOf(ms, fires[i].0), fires[i].1).Some?
    {
      assert fires[i] in fires;
      assert Gained(prev, cur, fires[i].0, fires[i].1);
    }
  }

  lemma ListedOutcome(fires: seq<Key>, gone: seq<Key>, rules: Rules, ms: seq<Metric>, now: int, prev: Faults, cur: Faults)
    requires FaultsOf(rules, ms, cur) && Lists(fires, NewKeys(prev, cur)) && Lists(gone, NewKeys(cur, prev))
    ensures Outcome(rules, ms, now, prev, cur, EventsOf(fires, rules, ms, now, false) + EventsOf(gone, rules, ms, now, true))
  {
    ListingAnnounces(fires, rules, ms, now, false, cur, prev);
    ListingAnnounces(gone, rules, ms, now, true, prev, cur);
    CycleFromGroups(prev, cur, EventsOf(fires, rules, ms, now, false), EventsOf(gone, rules, ms, now, true));
    ListingWellStamped(fires, gone, rules, ms, now, prev, cur);
  }

  lemma SomeOutcome(rules: Rules, ms: seq<Metric>, now: int, prev: Faults, cur: Faults) returns (events: seq<Event>)
    requires FaultsOf(rules, ms, cur)
    ensures Outcome(rules, ms, now, prev, cur, events)
  {
    var fires := Listing(NewKeys(prev, cur));
    var gone := Listing(NewKeys(cur, prev));
    ListedOutcome(fires, gone, rules, ms, now, prev, cur);
    events := EventsOf(fires, rules, ms, now, false) + EventsOf(gone, rules, ms, now, true);
  }

  /** Some order in which the new fault `w` of the device comes last of its new faults. */
  lemma EndingWith(rules: Rules, ms: seq<Metric>, now: int, prev: Faults, cur: Faults, npu: string, w: FaultType)
    returns (events: seq<Event>)
    requires FaultsOf(rules, ms, cur) && Gained(prev, cur, npu, w) && !Gains(cur, prev, npu)
    ensures Outcome(rules, ms, now, prev, cur, events)
    ensures forall i: nat :: LastAbout(events, npu, i) ==> events[i].fault == w
  {
    var others := Listing(NewKeys(prev, cur) - {(npu, w)});
    var fireKeys := others + [(npu, w)];
    assert Lists(fireKeys, NewKeys(prev, cur)) by {
      assert (npu, w) !in others;
    }
    var goneKeys := Listing(NewKeys(cur, prev));
    ListedOutcome(fireKeys, goneKeys, rules, ms, now, prev, cur);
    var fires, gone := EventsOf(fireKeys, rules, ms, now, false), EventsOf(goneKeys, rules, ms, now, true);
    events := fires + gone;
    forall i | 0 <= i < |gone|
      ensures gone[i].npu != npu
    {
      assert goneKeys[i] in goneKeys;
      assert Gained(cur, prev, goneKeys[i].0, goneKeys[i].1);
    }
    forall k | |fires| <= k < |events|
      ensures events[k].npu != npu
    {
      assert events[k] == gone[k - |fires|];
    }
    assert events[|others|].npu == npu && events[|others|].fault == w;
    forall i: nat | LastAbout(events, npu, i)
      ensures events[i].fault == w
    {
      assert i == |others|;
    }
  }

  // ----- an input on which the worst fault is hidden --------------------------------------------------------

  /** One device reports the card-drop code with a positive error count. */
  const CODE_METRIC := Metric("npu", "error_code", map["npu_id" := "0", "error_codes" := CARD_DROP_FAULT_CODE], 1.0)

  lemma {:induction false} NoCommaNoSplit(s: string)
    requires ',' !in s
    ensures SplitComma(s) == [s]
  {
    if s != "" {
      NoCommaNoSplit(s[1..]);
      assert s == [s[0]] + s[1..];
    }
  }

  lemma CardDropCodeIsFound()
    ensures ListsCardDrop(CARD_DROP_FAULT_CODE)
  {
    var code := CARD_DROP_FAULT_CODE;
    NoCommaNoSplit(code);
    assert TrimLeft(code) == code && TrimRight(code) == code;
    assert IsCardDropCode(SplitComma(code)[0]);
  }

  /** What a batch of one metric says of a device. */
  lemma OneMetricBatch(m: Metric, npu: string)
    ensures HasDevice([m], npu) <==> IsFor(m, npu)
    ensures DevOf([m], npu) == if IsFor(m, npu) then WithMetric(NO_METRICS, m) else NO_METRICS
  {
    OneMoreMetric([m], 0);
    assert [m][..1] == [m] && [m][..0] == [];
    assert IsFor(m, npu) ==> IsFor([m][0], npu);
  }

  lemma ShowsOfErrorCode(m: Metric)
    requires m.value > 0.0 && ListsCardDrop(Label(m, "error_codes"))
    ensures var st := NO_METRICS.(errorCode := Some(m));
      && Shows(st, CardDrop) == Some(Critical) && Shows(st, ErrorCode) == Some(Warning)
      && forall t :: t != CardDrop && t != ErrorCode ==> Shows(st, t).None?
  {
  }

  lemma CodeMetricShows()
    ensures var ms := [CODE_METRIC];
      && HasDevice(ms, "0")
      && Is(Critical, map[], ms, "0", CardDrop) && Is(Warning, map[], ms, "0", ErrorCode)
      && forall t :: t != CardDrop && t != ErrorCode ==> Firing(map[], DevOf(ms, "0"), t).None?
  {
    CardDropCodeIsFound();
    assert IsFor(CODE_METRIC, "0");
    OneMetricBatch(CODE_METRIC, "0");
    ShowsOfErrorCode(CODE_METRIC);
  }

  /** A new detector that is given this batch announces the card drop and then the error code, so the
      snapshot shows a warning while a critical fault is active. */
  lemma CardDropHidden(now: int, cur: Faults, events: seq<Event>)
    requires Outcome(map[], [CODE_METRIC], now, map[], cur, events) && InRuleOrder(events)
    ensures IsActive(cur, "0", CardDrop) && Is(Critical, map[], [CODE_METRIC], "0", CardDrop)
    ensures var snap := UpdatedAll(map[], events);
      "0" in snap && snap["0"].fault == ErrorCode && snap["0"].severity == Warning
    ensures !ShowsWorst(UpdatedAll(map[], events), map[], [CODE_METRIC], cur, "0")
  {
    CodeMetricShows();
    assert Gained(map[], cur, "0", ErrorCode) && Gained(map[], cur, "0", CardDrop);
    var t := GainerShowsLastRule(map[], map[], [CODE_METRIC], now, map[], cur, events, "0");
    assert t == ErrorCode;
    assert SomeCritical(map[], [CODE_METRIC], cur, "0");
  }

  // ----- an input on which a fault changes its severity unseen ------------------------------------------------

  function HealthMetric(status: string): Metric {
    Metric("npu", "health_status", map["npu_id" := "0", "status" := status], 1.0)
  }

  function HealthSeverity(status: string): Severity {
    if status == "Critical" then Critical else Warning
  }

  lemma HealthMetricShows(status: string)
    requires status == "Alarm" || status == "Critical"
    ensures var ms := [HealthMetric(status)];
      && HasDevice(ms, "0") && Is(HealthSeverity(status), map[], ms, "0", HealthState)
      && forall t :: t != HealthState ==> Firing(map[], DevOf(ms, "0"), t).None?
  {
    var m := HealthMetric(status);
    assert IsFor(m, "0");
    OneMetricBatch(m, "0");
  }

  /** A device whose health goes from one bad state to the other in two batches: its fault persists, so the
      second cycle has no event for it, and the slot still shows the first severity. */
  lemma HealthChangeUnseen(before: string, after: string, now: int, now': int, prev: Faults, cur: Faults,
                           events: seq<Event>, events': seq<Event>)
    requires (before == "Alarm" && after == "Critical") || (before == "Critical" && after == "Alarm")
    requires Outcome(map[], [HealthMetric(before)], now, map[], prev, events)
    requires Outcome(map[], [HealthMetric(after)], now', prev, cur, events')
    ensures !HasEventFor(events', "0")
    ensures var snap := UpdatedAll(UpdatedAll(map[], events), events');
      && "0" in snap && snap["0"].severity == HealthSeverity(before)
      && IsActive(cur, "0", HealthState) && Is(HealthSeverity(after), map[], [HealthMetric(after)], "0", HealthState)
      && !ShowsWorst(snap, map[], [HealthMetric(after)], cur, "0")
  {
    HealthMetricShows(before);
    HealthMetricShows(after);
    assert Gained(map[], prev, "0", HealthState);
    var i := SlotOfGainer(map[], map[], [HealthMetric(before)], now, map[], prev, events, "0");
    assert Gained(map[], prev, "0", events[i].fault);
    SlotAfterCycle(UpdatedAll(map[], events), prev, cur, events', "0");
    NoChangeNoEvent(prev, cur, events', "0");
  }

  lemma NoChangeNoEvent(prev: Faults, cur: Faults, events: seq<Event>, npu: string)
    requires IsCycle(prev, cur, events) && !Gains(prev, cur, npu) && !Gains(cur, prev, npu)
    ensures !HasEventFor(events, npu)
  {
    var fires, recoveries := Groups(prev, cur, events);
    EventForMeansGain(fires, false, cur, prev, npu);
    EventForMeansGain(recoveries, true, prev, cur, npu);
    forall i | 0 <= i < |events|
      ensures events[i].npu != npu
    {
      assert if i < |fires| then events[i] == fires[i] else events[i] == recoveries[i - |fires|];
    }
  }
}
