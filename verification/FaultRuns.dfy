/** What subscribers and the snapshot can rely on over any run of collection cycles, whatever the
    batches and whatever order devices and faults are visited in: features/faultsub/detector.go and
    storage.go. */
module FaultRuns {
  import opened FaultDetector

  /** One collection cycle: the batch, the faults active after it, and the events it produced. */
  datatype Cycle = Cycle(metrics: seq<Metric>, active: Faults, events: seq<Event>)

  /** The faults active after the last cycle. */
  function Current(cycles: seq<Cycle>): Faults {
    if cycles == [] then map[] else cycles[|cycles| - 1].active
  }

  ghost predicate Follows(rules: Rules, prev: Faults, c: Cycle) {
    FaultsOf(rules, c.metrics, c.active) && IsCycle(prev, c.active, c.events)
  }

  /** Cycles as `Detector.Detect` produces them, one after the other, from a new detector. */
  ghost predicate IsRun(rules: Rules, cycles: seq<Cycle>) {
    cycles == [] ||
    (IsRun(rules, cycles[..|cycles| - 1]) &&
     Follows(rules, Current(cycles[..|cycles| - 1]), cycles[|cycles| - 1]))
  }

  function AllEvents(cycles: seq<Cycle>): seq<Event> {
    if cycles == [] then [] else AllEvents(cycles[..|cycles| - 1]) + cycles[|cycles| - 1].events
  }

  // ----- the stream of one fault ------------------------------------------------------------------

  /** The recovered flags of the events about one fault of one device, in order. */
  function Flags(events: seq<Event>, npu: string, t: FaultType): seq<bool> {
    if events == [] then []
    else
      var e := events[|events| - 1];
      Flags(events[..|events| - 1], npu, t) + (if KeyOf(e) == (npu, t) then [e.recovered] else [])
  }

  lemma {:induction false} FlagsConcat(a: seq<Event>, b: seq<Event>, npu: string, t: FaultType)
    ensures Flags(a + b, npu, t) == Flags(a, npu, t) + Flags(b, npu, t)
  {
    if b == [] {
      assert a + b == a;
    } else {
      assert (a + b)[..|a + b| - 1] == a + b[..|b| - 1];
      FlagsConcat(a, b[..|b| - 1], npu, t);
    }
  }

  lemma {:induction false} NoFlags(events: seq<Event>, npu: string, t: FaultType)
    requires !HasKey(events, npu, t)
    ensures Flags(events, npu, t) == []
  {
    if events != [] {
      var before := events[..|events| - 1];
      assert forall i :: 0 <= i < |before| ==> before[i] == events[i];
      NoFlags(before, npu, t);
    }
  }

  lemma {:induction false} OnlyFlag(events: seq<Event>, i: nat, npu: string, t: FaultType)
    requires i < |events| && KeyOf(events[i]) == (npu, t)
    requires forall k, l :: 0 <= k < l < |events| ==> KeyOf(events[k]) != KeyOf(events[l])
    ensures Flags(events, npu, t) == [events[i].recovered]
  {
    var before, last := events[..|events| - 1], |events| - 1;
    if i == last {
      assert !HasKey(before, npu, t) by {
        forall k | 0 <= k < |before|
          ensures KeyOf(before[k]) != (npu, t)
        {
          assert KeyOf(events[k]) != KeyOf(events[last]);
        }
      }
      NoFlags(before, npu, t);
    } else {
      assert KeyOf(events[i]) != KeyOf(events[last]);
      OnlyFlag(before, i, npu, t);
    }
  }

  /** A group of events speaks of each fault at most once. */
  lemma AnnouncedFlags(events: seq<Event>, recovered: bool, now: Faults, other: Faults, npu: string, t: FaultType)
    requires Announces(events, recovered, now, other)
    ensures Flags(events, npu, t) == if IsActive(now, npu, t) && !IsActive(other, npu, t) then [recovered] else []
  {
    if HasKey(events, npu, t) {
      var i :| 0 <= i < |events| && KeyOf(events[i]) == (npu, t);
      OnlyFlag(events, i, npu, t);
    } else {
      NoFlags(events, npu, t);
    }
  }

  /** A cycle says of each fault exactly how it changed. */
  lemma CycleFlags(prev: Faults, cur: Faults, events: seq<Event>, npu: string, t: FaultType)
    requires IsCycle(prev, cur, events)
    ensures Flags(events, npu, t) ==
            if IsActive(prev, npu, t) == IsActive(cur, npu, t) then [] else [IsActive(prev, npu, t)]
  {
    var fires, recoveries := Groups(prev, cur, events);
    GroupFlags(prev, cur, fires, recoveries, npu, t);
  }

  lemma Groups(prev: Faults, cur: Faults, events: seq<Event>) returns (fires: seq<Event>, recoveries: seq<Event>)
    requires IsCycle(prev, cur, events)
    ensures events == fires + recoveries
    ensures Announces(fires, false, cur, prev) && Announces(recoveries, true, prev, cur)
  {
    var k :| SplitsAt(prev, cur, events, k);
    fires, recoveries := events[..k], events[k..];
  }

  lemma GroupFlags(prev: Faults, cur: Faults, fires: seq<Event>, recoveries: seq<Event>, npu: string, t: FaultType)
    requires Announces(fires, false, cur, prev) && Announces(recoveries, true, prev, cur)
    ensures Flags(fires + recoveries, npu, t) ==
            if IsActive(prev, npu, t) == IsActive(cur, npu, t) then [] else [IsActive(prev, npu, t)]
  {
    AnnouncedFlags(fires, false, cur, prev, npu, t);
    AnnouncedFlags(recoveries, true, prev, cur, npu, t);
    JoinedFlags(fires, recoveries, IsActive(prev, npu, t), IsActive(cur, npu, t), npu, t);
  }

  lemma JoinedFlags(fires: seq<Event>, recoveries: seq<Event>, was: bool, is': bool, npu: string, t: FaultType)
    requires Flags(fires, npu, t) == if is' && !was then [false] else []
    requires Flags(recoveries, npu, t) == if was && !is' then [true] else []
    ensures Flags(fires + recoveries, npu, t) == if was == is' then [] else [was]
  {
    FlagsConcat(fires, recoveries, npu, t);
  }

  /** Fault, recovery, fault, recovery, ... */
  predicate Alternates(flags: seq<bool>) {
    forall i :: 0 <= i < |flags| ==> flags[i] == (i % 2 == 1)
  }

  /** The flags alternate, and the fault is active exactly if it came last. */
  predicate TellsTruly(flags: seq<bool>, active: bool) {
    Alternates(flags) && (active <==> |flags| % 2 == 1)
  }

  lemma TellsOneMore(flags: seq<bool>, before: bool, after: bool)
    requires TellsTruly(flags, before)
    ensures TellsTruly(flags + (if before == after then [] else [before]), after)
  {
    assert flags + [] == flags;
  }

  lemma FlagsOfLastCycle(rules: Rules, cycles: seq<Cycle>, npu: string, t: FaultType)
    requires IsRun(rules, cycles) && cycles != []
    ensures var before := cycles[..|cycles| - 1];
      var was, is' := IsActive(Current(before), npu, t), IsActive(Current(cycles), npu, t);
      && IsRun(rules, before)
      && Flags(AllEvents(cycles), npu, t) ==
         Flags(AllEvents(before), npu, t) + (if was == is' then [] else [was])
  {
    var before, last := cycles[..|cycles| - 1], cycles[|cycles| - 1];
    CycleFlags(Current(before), last.active, last.events, npu, t);
    FlagsConcat(AllEvents(before), last.events, npu, t);
  }

  /** Of each fault the whole stream tells strictly in turn that it came and that it went, first
      that it came; and it is active now exactly if it came last. */
  lemma {:induction false} StreamAlternates(rules: Rules, cycles: seq<Cycle>, npu: string, t: FaultType)
    requires IsRun(rules, cycles)
    ensures TellsTruly(Flags(AllEvents(cycles), npu, t), IsActive(Current(cycles), npu, t))
  {
    if cycles != [] {
      var before := cycles[..|cycles| - 1];
      FlagsOfLastCycle(rules, cycles, npu, t);
      StreamAlternates(rules, before, npu, t);
      TellsOneMore(Flags(AllEvents(before), npu, t), IsActive(Current(before), npu, t), IsActive(Current(cycles), npu, t));
    }
  }

  // ----- replaying the stream -----------------------------------------------------------------------

  /** What a subscriber that keeps a set of faults believes after the events. */
  function Replay(events: seq<Event>): set<Key> {
    if events == [] then {}
    else
      var before, e := Replay(events[..|events| - 1]), events[|events| - 1];
      if e.recovered then before - {KeyOf(e)} else before + {KeyOf(e)}
  }

  lemma {:induction false} ReplayIsLastFlag(events: seq<Event>, npu: string, t: FaultType)
    ensures var flags := Flags(events, npu, t);
      (npu, t) in Replay(events) <==> flags != [] && !flags[|flags| - 1]
  {
    if events != [] {
      ReplayIsLastFlag(events[..|events| - 1], npu, t);
    }
  }

  lemma LastFlagTells(flags: seq<bool>, active: bool)
    requires TellsTruly(flags, active)
    ensures flags != [] && !flags[|flags| - 1] <==> active
  {
    if flags != [] {
      assert flags[|flags| - 1] == ((|flags| - 1) % 2 == 1);
    }
  }

  lemma ReplayOfOne(rules: Rules, cycles: seq<Cycle>, npu: string, t: FaultType)
    requires IsRun(rules, cycles)
    ensures (npu, t) in Replay(AllEvents(cycles)) <==> IsActive(Current(cycles), npu, t)
  {
    StreamAlternates(rules, cycles, npu, t);
    LastFlagTells(Flags(AllEvents(cycles), npu, t), IsActive(Current(cycles), npu, t));
    ReplayIsLastFlag(AllEvents(cycles), npu, t);
  }

  /** A subscriber that sees every event knows exactly the faults that the last batch shows. */
  lemma ReplayIsTheDetectorsState(rules: Rules, cycles: seq<Cycle>, npu: string, t: FaultType)
    requires IsRun(rules, cycles) && cycles != []
    ensures (npu, t) in Replay(AllEvents(cycles)) <==> IsActive(Current(cycles), npu, t)
    ensures (npu, t) in Replay(AllEvents(cycles)) <==>
              var ms := cycles[|cycles| - 1].metrics;
              HasDevice(ms, npu) && Firing(rules, DevOf(ms, npu), t).Some?
  {
    ReplayOfOne(rules, cycles, npu, t);
    assert Follows(rules, Current(cycles[..|cycles| - 1]), cycles[|cycles| - 1]);
  }

  /** A batch without NPU metrics is taken as all faults gone. */
  lemma BatchWithoutDevicesClears(rules: Rules, cycles: seq<Cycle>)
    requires IsRun(rules, cycles) && cycles != []
    requires forall m :: m in cycles[|cycles| - 1].metrics ==> m.component != "npu"
    ensures forall npu, t :: (npu, t) !in Replay(AllEvents(cycles))
  {
    forall npu, t
      ensures (npu, t) !in Replay(AllEvents(cycles))
    {
      ReplayIsTheDetectorsState(rules, cycles, npu, t);
      assert !HasDevice(cycles[|cycles| - 1].metrics, npu);
    }
  }

  // ----- the snapshot ---------------------------------------------------------------------------

  /** One fault per device, as `updateSnapshot` keeps it. */
  type Snapshot = map<string, Event>

  /** `updateSnapshot`: a recovery empties the device's slot, a fault takes it. */
  function Updated(snap: Snapshot, e: Event): Snapshot {
    if e.recovered then snap - {e.npu} else snap[e.npu := e]
  }

  function UpdatedAll(snap: Snapshot, events: seq<Event>): Snapshot {
    if events == [] then snap
    else Updated(UpdatedAll(snap, events[..|events| - 1]), events[|events| - 1])
  }

  /** Whatever the snapshot shows for a device is active there. */
  predicate Sound(snap: Snapshot, f: Faults) {
    forall npu :: npu in snap ==> !snap[npu].recovered && snap[npu].npu == npu && IsActive(f, npu, snap[npu].fault)
  }

  /** Every device with an active fault has a slot. */
  ghost predicate Complete(snap: Snapshot, f: Faults) {
    forall npu, t :: IsActive(f, npu, t) ==> npu in snap
  }

  predicate HasEventFor(events: seq<Event>, npu: string) {
    exists i :: 0 <= i < |events| && events[i].npu == npu
  }

  /** Event `i` is the last about the device. */
  predicate LastAbout(events: seq<Event>, npu: string, i: nat) {
    i < |events| && events[i].npu == npu && forall j :: i < j < |events| ==> events[j].npu != npu
  }

  predicate SlotFrom(s: Snapshot, events: seq<Event>, npu: string, i: nat) {
    LastAbout(events, npu, i) && npu in s && s[npu] == events[i]
  }

  lemma {:induction false} AfterFires(snap: Snapshot, events: seq<Event>, npu: string) returns (i: nat)
    requires HasEventFor(events, npu) && forall i :: 0 <= i < |events| ==> !events[i].recovered
    ensures SlotFrom(UpdatedAll(snap, events), events, npu, i)
  {
    i := |events| - 1;
    if events[i].npu != npu {
      var before := events[..i];
      assert HasEventFor(before, npu) by {
        var k :| 0 <= k < |events| && events[k].npu == npu;
        assert before[k].npu == npu;
      }
      i := AfterFires(snap, before, npu);
    }
  }

  lemma {:induction false} AfterOthers(snap: Snapshot, events: seq<Event>, npu: string)
    requires !HasEventFor(events, npu)
    ensures var s := UpdatedAll(snap, events); (npu in s <==> npu in snap) && (npu in snap ==> s[npu] == snap[npu])
  {
    if events != [] {
      var before := events[..|events| - 1];
      assert forall i :: 0 <= i < |before| ==> before[i] == events[i];
      AfterOthers(snap, before, npu);
    }
  }

  lemma {:induction false} AfterRecoveries(snap: Snapshot, events: seq<Event>, npu: string)
    requires HasEventFor(events, npu) && forall i :: 0 <= i < |events| ==> events[i].recovered
    ensures npu !in UpdatedAll(snap, events)
  {
    var before, last := events[..|events| - 1], events[|events| - 1];
    if last.npu != npu {
      assert HasEventFor(before, npu) by {
        var k :| 0 <= k < |events| && events[k].npu == npu;
        assert before[k].npu == npu;
      }
      AfterRecoveries(snap, before, npu);
    }
  }

  lemma {:induction false} UpdatedConcat(snap: Snapshot, a: seq<Event>, b: seq<Event>)
    ensures UpdatedAll(snap, a + b) == UpdatedAll(UpdatedAll(snap, a), b)
  {
    if b == [] {
      assert a + b == a;
    } else {
      assert (a + b)[..|a + b| - 1] == a + b[..|b| - 1];
      UpdatedConcat(snap, a, b[..|b| - 1]);
    }
  }

  /** Some fault of the device is in `f` and not in `g`. */
  ghost predicate Gains(g: Faults, f: Faults, npu: string) {
    exists t :: IsActive(f, npu, t) && !IsActive(g, npu, t)
  }

  lemma EventForMeansGain(events: seq<Event>, recovered: bool, now: Faults, other: Faults, npu: string)
    requires Announces(events, recovered, now, other)
    ensures HasEventFor(events, npu) <==> Gains(other, now, npu)
  {
    if HasEventFor(events, npu) {
      var i :| 0 <= i < |events| && events[i].npu == npu;
      assert HasKey(events, npu, events[i].fault);
    }
    if Gains(other, now, npu) {
      var t :| IsActive(now, npu, t) && !IsActive(other, npu, t);
      assert HasKey(events, npu, t);
    }
  }

  /** Event `i` is a new fault of the device, and nothing about the device comes after it. */
  ghost predicate NewFaultLast(prev: Faults, cur: Faults, events: seq<Event>, npu: string, i: nat) {
    && LastAbout(events, npu, i) && !events[i].recovered
    && IsActive(cur, npu, events[i].fault) && !IsActive(prev, npu, events[i].fault)
  }

  /** What one cycle does to a device's slot: a fault gone empties it, otherwise the last new fault
      takes it, otherwise it stays. */
  ghost predicate SlotMoved(snap: Snapshot, s: Snapshot, prev: Faults, cur: Faults, events: seq<Event>, npu: string) {
    if Gains(cur, prev, npu) then npu !in s
    else if Gains(prev, cur, npu) then
      exists i: nat :: SlotFrom(s, events, npu, i) && NewFaultLast(prev, cur, events, npu, i)
    else (npu in s <==> npu in snap) && (npu in snap ==> s[npu] == snap[npu])
  }

  lemma SlotAfterCycle(snap: Snapshot, prev: Faults, cur: Faults, events: seq<Event>, npu: string)
    requires IsCycle(prev, cur, events)
    ensures SlotMoved(snap, UpdatedAll(snap, events), prev, cur, events, npu)
  {
    var fires, recoveries := Groups(prev, cur, events);
    SlotAfterGroups(snap, prev, cur, fires, recoveries, npu);
  }

  lemma SlotAfterGroups(snap: Snapshot, prev: Faults, cur: Faults, fires: seq<Event>, recoveries: seq<Event>, npu: string)
    requires Announces(fires, false, cur, prev) && Announces(recoveries, true, prev, cur)
    ensures SlotMoved(snap, UpdatedAll(snap, fires + recoveries), prev, cur, fires + recoveries, npu)
  {
    UpdatedConcat(snap, fires, recoveries);
    EventForMeansGain(fires, false, cur, prev, npu);
    EventForMeansGain(recoveries, true, prev, cur, npu);
    if HasEventFor(recoveries, npu) {
      AfterRecoveries(UpdatedAll(snap, fires), recoveries, npu);
    } else {
      AfterOthers(UpdatedAll(snap, fires), recoveries, npu);
      if HasEventFor(fires, npu) {
        var i := AfterFires(snap, fires, npu);
        FireTakesSlot(snap, prev, cur, fires, recoveries, npu, i);
      } else {
        AfterOthers(snap, fires, npu);
      }
    }
  }

  lemma FireTakesSlot(snap: Snapshot, prev: Faults, cur: Faults, fires: seq<Event>, recoveries: seq<Event>, npu: string, i: nat)
    requires Announces(fires, false, cur, prev) && !HasEventFor(recoveries, npu)
    requires SlotFrom(UpdatedAll(snap, fires), fires, npu, i)
    requires var s, s' := UpdatedAll(snap, fires), UpdatedAll(snap, fires + recoveries); npu in s' && s'[npu] == s[npu]
    ensures SlotFrom(UpdatedAll(snap, fires + recoveries), fires + recoveries, npu, i)
    ensures NewFaultLast(prev, cur, fires + recoveries, npu, i)
  {
    var all := fires + recoveries;
    forall j | i < j < |all|
      ensures all[j].npu != npu
    {
      assert j >= |fires| ==> all[j] == recoveries[j - |fires|];
    }
    assert HasKey(fires, npu, fires[i].fault);
  }

  lemma CycleKeepsSound(snap: Snapshot, prev: Faults, cur: Faults, events: seq<Event>)
    requires IsCycle(prev, cur, events) && Sound(snap, prev)
    ensures Sound(UpdatedAll(snap, events), cur)
  {
    var s := UpdatedAll(snap, events);
    forall npu | npu in s
      ensures !s[npu].recovered && s[npu].npu == npu && IsActive(cur, npu, s[npu].fault)
    {
      SlotAfterCycle(snap, prev, cur, events, npu);
    }
  }

  /** With writes one after the other, the snapshot never shows a fault that is not active. */
  lemma {:induction false} SnapshotIsSound(rules: Rules, cycles: seq<Cycle>)
    requires IsRun(rules, cycles)
    ensures Sound(UpdatedAll(map[], AllEvents(cycles)), Current(cycles))
  {
    if cycles != [] {
      var before, last := cycles[..|cycles| - 1], cycles[|cycles| - 1];
      SnapshotIsSound(rules, before);
      CycleKeepsSound(UpdatedAll(map[], AllEvents(before)), Current(before), last.active, last.events);
      UpdatedConcat(map[], AllEvents(before), last.events);
    }
  }

  /** It may miss one: a complete snapshot stays complete over a cycle exactly when no device both
      loses a fault and still shows another. */
  lemma SnapshotStaysCompleteExactly(snap: Snapshot, prev: Faults, cur: Faults, events: seq<Event>)
    requires IsCycle(prev, cur, events) && Sound(snap, prev) && Complete(snap, prev)
    ensures Complete(UpdatedAll(snap, events), cur) <==>
            forall npu, t :: Gains(cur, prev, npu) ==> !IsActive(cur, npu, t)
  {
    var s := UpdatedAll(snap, events);
    forall npu, t | IsActive(cur, npu, t)
      ensures npu in s <==> !Gains(cur, prev, npu)
    {
      SlotAfterCycle(snap, prev, cur, events, npu);
      if !Gains(cur, prev, npu) && !Gains(prev, cur, npu) {
        assert IsActive(prev, npu, t);
      }
    }
  }

  // A device with two faults loses one.

  const TWO_FAULTS: Faults := map["0" := {HbmUce, DriverUnhealthy}]

  const ONE_FAULT: Faults := map["0" := {HbmUce}]

  const SHOWN := Event(HbmUce, "npu", "0", Critical, 0, false)

  const GONE := Event(DriverUnhealthy, "npu", "0", Warning, 0, true)

  lemma LosingOneIsCycle()
    ensures IsCycle(TWO_FAULTS, ONE_FAULT, [GONE])
  {
    OneEventAnnounces(GONE, TWO_FAULTS, ONE_FAULT);
    CycleFromGroups(TWO_FAULTS, ONE_FAULT, [], [GONE]);
    assert [] + [GONE] == [GONE];
  }

  /** A sound and complete snapshot loses the slot of a device that still has an active fault. */
  lemma RecoveryHidesOtherFault()
    ensures var snap := map["0" := SHOWN];
      && IsCycle(TWO_FAULTS, ONE_FAULT, [GONE])
      && Sound(snap, TWO_FAULTS) && Complete(snap, TWO_FAULTS)
      && UpdatedAll(snap, [GONE]) == map[] && !Complete(map[], ONE_FAULT)
  {
    LosingOneIsCycle();
    assert [GONE][..0] == [];
    assert IsActive(ONE_FAULT, "0", HbmUce);
  }

  // ----- the storage object -----------------------------------------------------------------------

  /** `FaultStorage`: the tap behind the collectors. The inner storage's outcome is only logged. */
  class FaultStorage {
    const detector: Detector
    var snapshot: Snapshot
    var written: bool

    constructor (detector: Detector)
      ensures snapshot == map[] && !written && this.detector == detector
    {
      this.detector := detector;
      snapshot, written := map[], false;
    }

    /** `Write`; the events are handed to the dispatcher in this order. */
    method Write(ms: seq<Metric>, now: int) returns (events: seq<Event>)
      modifies this, detector
      ensures written
      ensures FaultsOf(detector.rules, ms, detector.prev) && IsCycle(old(detector.prev), detector.prev, events)
      ensures WellStamped(detector.rules, ms, now, events) && InRuleOrder(events)
      ensures snapshot == UpdatedAll(old(snapshot), events)
      ensures old(Sound(snapshot, detector.prev)) ==> Sound(snapshot, detector.prev)
    {
      written := true;
      events := detector.Detect(ms, now);
      ghost var before := snapshot;
      for i := 0 to |events|
        invariant snapshot == UpdatedAll(before, events[..i])
        invariant FaultsOf(detector.rules, ms, detector.prev)
        invariant IsCycle(old(detector.prev), detector.prev, events)
        invariant written && before == old(snapshot)
      {
        assert events[..i + 1][..i] == events[..i];
        UpdateSnapshot(events[i]);
      }
      assert events[..|events|] == events;
      if old(Sound(snapshot, detector.prev)) {
        CycleKeepsSound(before, old(detector.prev), detector.prev, events);
      }
    }

    method UpdateSnapshot(e: Event)
      modifies this`snapshot
      ensures snapshot == Updated(old(snapshot), e)
    {
      if e.recovered {
        snapshot := snapshot - {e.npu};
        return;
      }
      snapshot := snapshot[e.npu := e];
    }
  }
}
