/** `FaultStorage.Write` of features/faultsub/storage.go as collectors call it, each in a goroutine of its
    own: the detector's cycle is one atomic step, and so are, for each of its events, the update of
    the snapshot and the hand-over to the dispatcher; between two steps of one write any other write
    may move. */
module FaultWrites {
  import opened FaultDetector
  import opened FaultRuns
  import opened FaultSeverity
  import opened Queues

  /** The detector's faults and the snapshot; what each write still has to put into it, and what each
      still has to hand to the dispatcher; and what the dispatcher has been handed. */
  datatype State = State(active: Faults, snapshot: Snapshot, pending: Queues<Event>, undispatched: Queues<Event>,
                         delivered: seq<Event>)

  datatype Step = Detect(c: Cycle) | Update(write: nat) | Dispatch(write: nat)

  const INITIAL := State(map[], map[], [], [], [])

  /** A write updates the snapshot with its next event, hands that event over, and goes on to the next. */
  predicate CanMove(s: State, step: Step) {
    match step
    case Detect(_) => false
    case Update(w) => w < |s.undispatched| && CanPop(s.pending, w) && |s.undispatched[w]| == |s.pending[w]|
    case Dispatch(w) => w < |s.pending| && CanPop(s.undispatched, w) && |s.undispatched[w]| > |s.pending[w]|
  }

  ghost predicate CanStep(rules: Rules, s: State, step: Step) {
    if step.Detect? then Follows(rules, s.active, step.c) else CanMove(s, step)
  }

  function Next(s: State, step: Step): State {
    match step
    case Detect(c) =>
      s.(active := c.active, pending := s.pending + [c.events], undispatched := s.undispatched + [c.events])
    case Update(w) =>
      if CanPop(s.pending, w) then
        s.(snapshot := Updated(s.snapshot, s.pending[w][0]), pending := Popped(s.pending, w))
      else s
    case Dispatch(w) =>
      if CanPop(s.undispatched, w) then
        s.(delivered := s.delivered + [s.undispatched[w][0]], undispatched := Popped(s.undispatched, w))
      else s
  }

  function After(steps: seq<Step>): State {
    if steps == [] then INITIAL else Next(After(steps[..|steps| - 1]), steps[|steps| - 1])
  }

  ghost predicate IsRun(rules: Rules, steps: seq<Step>) {
    forall n :: 0 <= n < |steps| ==> CanStep(rules, After(steps[..n]), steps[n])
  }

  // ----- one device ------------------------------------------------------------------------------------

  predicate DeviceSound(snap: Snapshot, f: Faults, npu: string) {
    npu in snap ==> !snap[npu].recovered && snap[npu].npu == npu && IsActive(f, npu, snap[npu].fault)
  }

  predicate SameSlot(a: Snapshot, b: Snapshot, npu: string) {
    (npu in a <==> npu in b) && (npu in a && npu in b ==> a[npu] == b[npu])
  }

  /** Write `w` has events about the device that are not yet in the snapshot. */
  predicate Owes(s: State, w: nat, npu: string) {
    w < |s.pending| && HasEventFor(s.pending[w], npu)
  }

  /** No two writes hold undelivered events for one device. */
  ghost predicate OneHolder(s: State) {
    forall npu, v: nat, w: nat :: Owes(s, v, npu) && Owes(s, w, npu) ==> v == w
  }

  /** The slot is sound, or will be once the write that holds events for the device is done. */
  ghost predicate DeviceOk(s: State, npu: string) {
    && (forall w: nat :: Owes(s, w, npu) ==> DeviceSound(UpdatedAll(s.snapshot, s.pending[w]), s.active, npu))
    && ((forall w: nat :: !Owes(s, w, npu)) ==> DeviceSound(s.snapshot, s.active, npu))
  }

  lemma {:induction false} SlotFollows(a: Snapshot, b: Snapshot, events: seq<Event>, npu: string)
    requires SameSlot(a, b, npu)
    ensures SameSlot(UpdatedAll(a, events), UpdatedAll(b, events), npu)
  {
    if events != [] {
      SlotFollows(a, b, events[..|events| - 1], npu);
    }
  }

  lemma FirstThenRest(snap: Snapshot, events: seq<Event>)
    requires events != []
    ensures UpdatedAll(Updated(snap, events[0]), events[1..]) == UpdatedAll(snap, events)
  {
    assert events == [events[0]] + events[1..];
    UpdatedConcat(snap, [events[0]], events[1..]);
    assert [events[0]][..0] == [];
  }

  lemma HasEventForRest(events: seq<Event>, npu: string)
    requires events != []
    ensures HasEventFor(events, npu) <==> events[0].npu == npu || HasEventFor(events[1..], npu)
  {
    if HasEventFor(events[1..], npu) {
      var i :| 0 <= i < |events[1..]| && events[1..][i].npu == npu;
      assert events[i + 1].npu == npu;
    }
    if HasEventFor(events, npu) && events[0].npu != npu {
      var i :| 0 <= i < |events| && events[i].npu == npu;
      assert events[1..][i - 1].npu == npu;
    }
  }

  // ----- delivering one event --------------------------------------------------------------------------------

  lemma UpdateOfDevice(s: State, w: nat, npu: string)
    requires w < |s.pending| && s.pending[w] != [] && s.pending[w][0].npu == npu
    requires OneHolder(s) && DeviceOk(s, npu)
    ensures DeviceOk(Next(s, Update(w)), npu)
  {
    var s' := Next(s, Update(w));
    var rest := s.pending[w][1..];
    HasEventForRest(s.pending[w], npu);
    assert Owes(s, w, npu);
    FirstThenRest(s.snapshot, s.pending[w]);
    forall v: nat | Owes(s', v, npu)
      ensures v == w
    {
      assert v != w ==> Owes(s, v, npu);
    }
    if !Owes(s', w, npu) {
      AfterOthers(s'.snapshot, rest, npu);
    }
  }

  lemma UpdateOfOther(s: State, w: nat, npu: string)
    requires w < |s.pending| && s.pending[w] != [] && s.pending[w][0].npu != npu
    requires DeviceOk(s, npu)
    ensures DeviceOk(Next(s, Update(w)), npu)
  {
    var s' := Next(s, Update(w));
    HasEventForRest(s.pending[w], npu);
    FirstThenRest(s.snapshot, s.pending[w]);
    assert SameSlot(s.snapshot, s'.snapshot, npu);
    forall v: nat
      ensures Owes(s, v, npu) <==> Owes(s', v, npu)
      ensures Owes(s', v, npu) ==> DeviceSound(UpdatedAll(s'.snapshot, s'.pending[v]), s'.active, npu)
    {
      if v != w && Owes(s', v, npu) {
        SlotFollows(s.snapshot, s'.snapshot, s.pending[v], npu);
      }
    }
  }

  // ----- one cycle of the detector ------------------------------------------------------------------------------

  lemma NoEventNoChange(prev: Faults, cur: Faults, events: seq<Event>, npu: string)
    requires IsCycle(prev, cur, events) && !HasEventFor(events, npu)
    ensures forall t :: IsActive(prev, npu, t) <==> IsActive(cur, npu, t)
  {
    var k :| SplitsAt(prev, cur, events, k);
    assert forall i :: 0 <= i < k ==> events[..k][i].npu == events[i].npu;
    assert forall i :: 0 <= i < |events[k..]| ==> events[k..][i].npu == events[k + i].npu;
    forall t
      ensures IsActive(prev, npu, t) <==> IsActive(cur, npu, t)
    {
      assert !HasKey(events[..k], npu, t) && !HasKey(events[k..], npu, t);
    }
  }

  lemma HoldersAfterDetect(s: State, c: Cycle, npu: string)
    ensures var s' := Next(s, Detect(c));
      forall w: nat :: Owes(s', w, npu) <==> Owes(s, w, npu) || (w == |s.pending| && HasEventFor(c.events, npu))
  {
  }

  lemma DetectWithEvents(rules: Rules, s: State, c: Cycle, npu: string)
    requires Follows(rules, s.active, c) && HasEventFor(c.events, npu)
    requires DeviceOk(s, npu) && OneHolder(Next(s, Detect(c)))
    ensures DeviceOk(Next(s, Detect(c)), npu)
  {
    var s', n := Next(s, Detect(c)), |s.pending|;
    HoldersAfterDetect(s, c, npu);
    assert Owes(s', n, npu);
    forall w: nat
      ensures !Owes(s, w, npu)
    {
      assert Owes(s, w, npu) ==> Owes(s', w, npu) && w != n;
    }
    SlotAfterCycle(s.snapshot, s.active, c.active, c.events, npu);
    CycleKeepsDeviceSound(s.snapshot, s.active, c.active, c.events, npu);
  }

  lemma CycleKeepsDeviceSound(snap: Snapshot, prev: Faults, cur: Faults, events: seq<Event>, npu: string)
    requires IsCycle(prev, cur, events) && DeviceSound(snap, prev, npu)
    ensures DeviceSound(UpdatedAll(snap, events), cur, npu)
  {
    SlotAfterCycle(snap, prev, cur, events, npu);
  }

  lemma DetectWithoutEvents(rules: Rules, s: State, c: Cycle, npu: string)
    requires Follows(rules, s.active, c) && !HasEventFor(c.events, npu) && DeviceOk(s, npu)
    ensures DeviceOk(Next(s, Detect(c)), npu)
  {
    HoldersAfterDetect(s, c, npu);
    NoEventNoChange(s.active, c.active, c.events, npu);
  }

  // ----- runs -----------------------------------------------------------------------------------------------------

  /** At no time do two writes hold undelivered events for one device. */
  ghost predicate NeverOverlaps(steps: seq<Step>) {
    forall n :: 0 <= n <= |steps| ==> OneHolder(After(steps[..n]))
  }

  lemma StepKeepsDeviceOk(rules: Rules, s: State, step: Step, npu: string)
    requires CanStep(rules, s, step) && DeviceOk(s, npu) && OneHolder(s) && OneHolder(Next(s, step))
    ensures DeviceOk(Next(s, step), npu)
  {
    match step
    case Detect(c) =>
      if HasEventFor(c.events, npu) {
        DetectWithEvents(rules, s, c, npu);
      } else {
        DetectWithoutEvents(rules, s, c, npu);
      }
    case Update(w) =>
      if s.pending[w][0].npu == npu {
        UpdateOfDevice(s, w, npu);
      } else {
        UpdateOfOther(s, w, npu);
      }
    case Dispatch(w) =>
      assert forall v: nat :: Owes(Next(s, step), v, npu) <==> Owes(s, v, npu);
  }

  lemma {:induction false} RunKeepsDeviceOk(rules: Rules, steps: seq<Step>, npu: string)
    requires IsRun(rules, steps) && NeverOverlaps(steps)
    ensures DeviceOk(After(steps), npu)
  {
    if steps != [] {
      var n := |steps| - 1;
      var before := steps[..n];
      assert forall k :: 0 <= k <= n ==> before[..k] == steps[..k];
      assert steps[..|steps|] == steps;
      RunKeepsDeviceOk(rules, before, npu);
      StepKeepsDeviceOk(rules, After(before), steps[n], npu);
    }
  }

  /** While no two writes hold undelivered events for one device, the slot of every device whose events
      have all been delivered shows an active fault, or nothing. */
  lemma DeliveredSlotIsSound(rules: Rules, steps: seq<Step>, npu: string)
    requires IsRun(rules, steps) && NeverOverlaps(steps)
    requires forall w: nat :: !Owes(After(steps), w, npu)
    ensures DeviceSound(After(steps).snapshot, After(steps).active, npu)
  {
    RunKeepsDeviceOk(rules, steps, npu);
  }

  // ----- finishing what is under way ----------------------------------------------------------------------------------

  /** A write's events wait for the dispatcher with, or one behind, their place in the snapshot. */
  predicate Coupled(s: State) {
    && |s.undispatched| == |s.pending|
    && forall w :: 0 <= w < |s.pending| ==> LagsByOne(s.pending[w], s.undispatched[w])
  }

  predicate LagsByOne(pending: seq<Event>, undispatched: seq<Event>) {
    undispatched == pending || (undispatched != [] && undispatched[1..] == pending)
  }

  lemma {:induction false} RunIsCoupled(rules: Rules, steps: seq<Step>)
    requires IsRun(rules, steps)
    ensures Coupled(After(steps))
  {
    if steps != [] {
      var n := |steps| - 1;
      assert forall k :: 0 <= k <= n ==> steps[..n][..k] == steps[..k];
      RunIsCoupled(rules, steps[..n]);
      StepKeepsCoupled(rules, After(steps[..n]), steps[n]);
    }
  }

  lemma StepKeepsCoupled(rules: Rules, s: State, step: Step)
    requires CanStep(rules, s, step) && Coupled(s)
    ensures Coupled(Next(s, step))
  {
  }

  /** The steps of writes under way, no new one beginning. */
  predicate CanGoOn(s: State, steps: seq<Step>)
    decreases |steps|
  {
    steps == [] || (CanMove(s, steps[0]) && CanGoOn(Next(s, steps[0]), steps[1..]))
  }

  function Onward(s: State, steps: seq<Step>): State
    requires CanGoOn(s, steps)
    decreases |steps|
  {
    if steps == [] then s else Onward(Next(s, steps[0]), steps[1..])
  }

  /** `steps` brings all writes under way to their end. */
  predicate Finishes(s: State, steps: seq<Step>) {
    CanGoOn(s, steps) && AllEmpty(Onward(s, steps).pending) && AllEmpty(Onward(s, steps).undispatched)
  }

  /** The order in which `steps` updates the snapshot, as writes. */
  function Updates(steps: seq<Step>): seq<nat> {
    if steps == [] then []
    else (if steps[0].Update? then [steps[0].write] else []) + Updates(steps[1..])
  }

  function Dispatches(steps: seq<Step>): seq<nat> {
    if steps == [] then []
    else (if steps[0].Dispatch? then [steps[0].write] else []) + Dispatches(steps[1..])
  }

  lemma {:induction false} OnwardKeeps(s: State, steps: seq<Step>)
    requires CanGoOn(s, steps)
    ensures Onward(s, steps).active == s.active && (Coupled(s) ==> Coupled(Onward(s, steps)))
    decreases |steps|
  {
    if steps != [] {
      assert CanStep(map[], s, steps[0]);
      if Coupled(s) {
        StepKeepsCoupled(map[], s, steps[0]);
      }
      OnwardKeeps(Next(s, steps[0]), steps[1..]);
    }
  }

  lemma PoppedFirst(qs: Queues<Event>, w: nat, d: seq<nat>)
    requires CanPop(qs, w) && CanDrain(Popped(qs, w), d)
    ensures CanDrain(qs, [w] + d) && Left(qs, [w] + d) == Left(Popped(qs, w), d)
    ensures Output(qs, [w] + d) == [qs[w][0]] + Output(Popped(qs, w), d)
  {
    assert ([w] + d)[1..] == d;
  }

  predicate UpdatesAre(s: State, s': State, d: seq<nat>) {
    CanDrain(s.pending, d) && s'.pending == Left(s.pending, d) && s'.snapshot == UpdatedAll(s.snapshot, Output(s.pending, d))
  }

  predicate DispatchesAre(s: State, s': State, d: seq<nat>) {
    CanDrain(s.undispatched, d) && s'.undispatched == Left(s.undispatched, d) &&
    s'.delivered == s.delivered + Output(s.undispatched, d)
  }

  lemma UpdateThen(s: State, s': State, w: nat, d: seq<nat>)
    requires CanPop(s.pending, w) && UpdatesAre(Next(s, Update(w)), s', d)
    ensures UpdatesAre(s, s', [w] + d)
  {
    PoppedFirst(s.pending, w, d);
    var output := Output(s.pending, [w] + d);
    assert output[1..] == Output(Popped(s.pending, w), d);
    FirstThenRest(s.snapshot, output);
  }

  lemma DispatchThen(s: State, s': State, w: nat, d: seq<nat>)
    requires CanPop(s.undispatched, w) && DispatchesAre(Next(s, Dispatch(w)), s', d)
    ensures DispatchesAre(s, s', [w] + d)
  {
    PoppedFirst(s.undispatched, w, d);
    var first, rest := [s.undispatched[w][0]], Output(Popped(s.undispatched, w), d);
    assert s.delivered + first + rest == s.delivered + (first + rest);
  }

  lemma {:induction false} MovesAreUpdates(s: State, steps: seq<Step>)
    requires CanGoOn(s, steps)
    ensures UpdatesAre(s, Onward(s, steps), Updates(steps))
    decreases |steps|
  {
    if steps != [] {
      var s1 := Next(s, steps[0]);
      MovesAreUpdates(s1, steps[1..]);
      if steps[0].Update? {
        UpdateThen(s, Onward(s, steps), steps[0].write, Updates(steps[1..]));
      } else {
        assert s1.pending == s.pending && s1.snapshot == s.snapshot;
        assert Updates(steps) == Updates(steps[1..]);
      }
    }
  }

  lemma {:induction false} MovesAreDispatches(s: State, steps: seq<Step>)
    requires CanGoOn(s, steps)
    ensures DispatchesAre(s, Onward(s, steps), Dispatches(steps))
    decreases |steps|
  {
    if steps == [] {
      assert s.delivered + [] == s.delivered;
    } else {
      var s1 := Next(s, steps[0]);
      MovesAreDispatches(s1, steps[1..]);
      if steps[0].Dispatch? {
        DispatchThen(s, Onward(s, steps), steps[0].write, Dispatches(steps[1..]));
      } else {
        assert s1.undispatched == s.undispatched && s1.delivered == s.delivered;
        assert Dispatches(steps) == Dispatches(steps[1..]);
      }
    }
  }

  /** Any order of updates can be followed, each event of a write being handed over before its next. */
  lemma {:induction false} FollowUpdates(s: State, d: seq<nat>) returns (steps: seq<Step>)
    requires Coupled(s) && CanDrain(s.pending, d)
    ensures CanGoOn(s, steps) && Updates(steps) == d
    decreases |d|
  {
    if d == [] {
      steps := [];
    } else {
      var w := d[0];
      var s1 := if |s.undispatched[w]| == |s.pending[w]| then s else Next(s, Dispatch(w));
      var rest := FollowUpdates(Next(s1, Update(w)), d[1..]);
      steps := [Update(w)] + rest;
      assert steps[1..] == rest;
      if s1 != s {
        var more := [Dispatch(w)] + steps;
        assert more[1..] == steps;
        steps := more;
      }
    }
  }

  /** Any order of hand-overs can be followed, each event going into the snapshot just before. */
  lemma {:induction false} FollowDispatches(s: State, d: seq<nat>) returns (steps: seq<Step>)
    requires Coupled(s) && CanDrain(s.undispatched, d)
    ensures CanGoOn(s, steps) && Dispatches(steps) == d
    decreases |d|
  {
    if d == [] {
      steps := [];
    } else {
      var w := d[0];
      var s1 := if |s.undispatched[w]| > |s.pending[w]| then s else Next(s, Update(w));
      var rest := FollowDispatches(Next(s1, Dispatch(w)), d[1..]);
      steps := [Dispatch(w)] + rest;
      assert steps[1..] == rest;
      if s1 != s {
        var more := [Update(w)] + steps;
        assert more[1..] == steps;
        steps := more;
      }
    }
  }

  lemma {:induction false} MovesThen(s: State, a: seq<Step>, b: seq<Step>)
    requires CanGoOn(s, a) && CanGoOn(Onward(s, a), b)
    ensures CanGoOn(s, a + b) && Onward(s, a + b) == Onward(Onward(s, a), b)
    decreases |a|
  {
    if a == [] {
      assert a + b == b;
    } else {
      MovesThen(Next(s, a[0]), a[1..], b);
      assert (a + b)[1..] == a[1..] + b;
    }
  }

  lemma FinishDispatching(s: State, d: seq<nat>) returns (steps: seq<Step>)
    requires Coupled(s) && Drains(s.undispatched, d)
    ensures Finishes(s, steps) && Dispatches(steps) == d
  {
    steps := FollowDispatches(s, d);
    MovesAreDispatches(s, steps);
    OnwardKeeps(s, steps);
    var s' := Onward(s, steps);
    assert forall w :: 0 <= w < |s'.pending| ==> LagsByOne(s'.pending[w], s'.undispatched[w]);
  }

  lemma FinishUpdating(s: State, d: seq<nat>) returns (steps: seq<Step>)
    requires Coupled(s) && Drains(s.pending, d)
    ensures Finishes(s, steps) && Onward(s, steps).snapshot == UpdatedAll(s.snapshot, Output(s.pending, d))
  {
    var first := FollowUpdates(s, d);
    MovesAreUpdates(s, first);
    OnwardKeeps(s, first);
    var s1 := Onward(s, first);
    var left := SomeDrain(s1.undispatched);
    var last := FinishDispatching(s1, left);
    MovesAreUpdates(s1, last);
    assert Updates(last) == [] by {
      assert CanDrain(s1.pending, Updates(last));
    }
    MovesThen(s, first, last);
    steps := first + last;
  }

  // ----- what the last event decides --------------------------------------------------------------------------------------

  function AboutDevice(npu: string): Event -> bool {
    (e: Event) => e.npu == npu
  }

  /** The event leaves the slot empty, or with a fault that is active. */
  function LeavesSound(active: Faults): Event -> bool {
    (e: Event) => e.recovered || IsActive(active, e.npu, e.fault)
  }

  lemma {:induction false} SlotEndsWell(snap: Snapshot, events: seq<Event>, active: Faults, npu: string)
    ensures DeviceSound(UpdatedAll(snap, events), active, npu) <==>
            EndsWell(events, AboutDevice(npu), LeavesSound(active), DeviceSound(snap, active, npu))
  {
    if events != [] {
      SlotEndsWell(snap, events[..|events| - 1], active, npu);
    }
  }

  function AboutKey(npu: string, t: FaultType): Event -> bool {
    (e: Event) => KeyOf(e) == (npu, t)
  }

  /** The event says of its fault what is so. */
  function Tells(active: bool): Event -> bool {
    (e: Event) => !e.recovered <==> active
  }

  predicate BelievesRightly(events: seq<Event>, active: Faults, npu: string, t: FaultType) {
    (npu, t) in Replay(events) <==> IsActive(active, npu, t)
  }

  lemma {:induction false} ReplayEndsWell(events: seq<Event>, active: Faults, npu: string, t: FaultType)
    ensures BelievesRightly(events, active, npu, t) <==>
            EndsWell(events, AboutKey(npu, t), Tells(IsActive(active, npu, t)), !IsActive(active, npu, t))
  {
    if events != [] {
      ReplayEndsWell(events[..|events| - 1], active, npu, t);
    }
  }

  // ----- exactly when no interleaving misleads ------------------------------------------------------------------------------

  ghost predicate SlotSoundInTheEnd(s: State, npu: string) {
    forall steps :: Finishes(s, steps) ==> DeviceSound(Onward(s, steps).snapshot, s.active, npu)
  }

  /** However the writes under way come to their end, the slot of the device shows an active fault or
      nothing: exactly when the last event that each of them still has for the device is a recovery or a
      fault that is active, or, if none has any, when the slot is sound as it is. */
  lemma SlotSoundInTheEndExactly(s: State, npu: string)
    requires Coupled(s)
    ensures SlotSoundInTheEnd(s, npu) <==>
            EachEndsWell(s.pending, AboutDevice(npu), LeavesSound(s.active), DeviceSound(s.snapshot, s.active, npu))
  {
    var about, good, base := AboutDevice(npu), LeavesSound(s.active), DeviceSound(s.snapshot, s.active, npu);
    EveryDrainEndsWellExactly(s.pending, about, good, base);
    if EveryDrainEndsWell(s.pending, about, good, base) {
      forall steps | Finishes(s, steps)
        ensures DeviceSound(Onward(s, steps).snapshot, s.active, npu)
      {
        MovesAreUpdates(s, steps);
        SlotEndsWell(s.snapshot, Output(s.pending, Updates(steps)), s.active, npu);
      }
    } else {
      var d :| Drains(s.pending, d) && !EndsWell(Output(s.pending, d), about, good, base);
      var steps := FinishUpdating(s, d);
      SlotEndsWell(s.snapshot, Output(s.pending, d), s.active, npu);
    }
  }

  ghost predicate StreamRightInTheEnd(s: State, npu: string, t: FaultType) {
    forall steps :: Finishes(s, steps) ==> BelievesRightly(Onward(s, steps).delivered, s.active, npu, t)
  }

  /** However the writes under way come to their end, who replays what the dispatcher was handed is right
      about the fault: exactly when the last event that each of them still has to hand over for it says
      what is so, or, if none has any, when the replay is right as it is. */
  lemma StreamRightInTheEndExactly(s: State, npu: string, t: FaultType)
    requires Coupled(s)
    ensures StreamRightInTheEnd(s, npu, t) <==>
            EachEndsWell(s.undispatched, AboutKey(npu, t), Tells(IsActive(s.active, npu, t)),
                         BelievesRightly(s.delivered, s.active, npu, t))
  {
    var is' := IsActive(s.active, npu, t);
    var about, good, base := AboutKey(npu, t), Tells(is'), BelievesRightly(s.delivered, s.active, npu, t);
    EveryDrainEndsWellExactly(s.undispatched, about, good, base);
    ReplayEndsWell(s.delivered, s.active, npu, t);
    forall d | Drains(s.undispatched, d)
      ensures BelievesRightly(s.delivered + Output(s.undispatched, d), s.active, npu, t) <==>
              EndsWell(Output(s.undispatched, d), about, good, base)
    {
      ReplayEndsWell(s.delivered + Output(s.undispatched, d), s.active, npu, t);
      EndsWellConcat(s.delivered, Output(s.undispatched, d), about, good, !is');
    }
    if EveryDrainEndsWell(s.undispatched, about, good, base) {
      forall steps | Finishes(s, steps)
        ensures BelievesRightly(Onward(s, steps).delivered, s.active, npu, t)
      {
        MovesAreDispatches(s, steps);
      }
    } else {
      var d :| Drains(s.undispatched, d) && !EndsWell(Output(s.undispatched, d), about, good, base);
      var steps := FinishDispatching(s, d);
      MovesAreDispatches(s, steps);
    }
  }

  // ----- an unsound interleaving ------------------------------------------------------------------------------------

  const DRIVER_METRIC := Metric("npu", "driver_health", map["npu_id" := "0"], 1.0)

  const FAULT := Event(DriverUnhealthy, "npu", "0", Warning, 0, false)

  const RECOVERY := Event(DriverUnhealthy, "npu", "0", Warning, 0, true)

  /** A batch with one fault, and a batch of another collector. */
  const FAULT_CYCLE := Cycle([DRIVER_METRIC], map["0" := {DriverUnhealthy}], [FAULT])

  const CPU_CYCLE := Cycle([Metric("cpu", "usage", map[], 50.0)], map[], [RECOVERY])

  lemma FaultCycleFollows()
    ensures Follows(map[], map[], FAULT_CYCLE)
  {
    var m := DRIVER_METRIC;
    assert IsFor([m][0], "0");
    OneMetricBatch(m, "0");
    OneEventAnnounces(FAULT, FAULT_CYCLE.active, map[]);
    CycleFromGroups(map[], FAULT_CYCLE.active, [FAULT], []);
    assert [FAULT] + [] == [FAULT];
  }

  lemma CpuCycleFollows()
    ensures Follows(map[], FAULT_CYCLE.active, CPU_CYCLE)
  {
    OneEventAnnounces(RECOVERY, FAULT_CYCLE.active, map[]);
    CycleFromGroups(FAULT_CYCLE.active, map[], [], [RECOVERY]);
    assert [] + [RECOVERY] == [RECOVERY];
  }

  const UNSOUND_RUN := [Detect(FAULT_CYCLE), Detect(CPU_CYCLE), Update(1), Dispatch(1), Update(0), Dispatch(0)]

  /** A batch without NPU metrics recovers the fault before the first write has told of it: all is done,
      nothing is active, the snapshot shows the fault, and the dispatcher has been handed the recovery
      first, so that who replays its events believes in the fault too. */
  lemma OverlappingWritesCanMislead()
    ensures IsRun(map[], UNSOUND_RUN)
    ensures After(UNSOUND_RUN) == State(map[], map["0" := FAULT], [[], []], [[], []], [RECOVERY, FAULT])
    ensures !DeviceSound(After(UNSOUND_RUN).snapshot, After(UNSOUND_RUN).active, "0")
    ensures !BelievesRightly(After(UNSOUND_RUN).delivered, After(UNSOUND_RUN).active, "0", DriverUnhealthy)
  {
    UnsoundBegins();
    UnsoundEnds();
    UnsoundIsRun();
    assert UNSOUND_RUN[..6] == UNSOUND_RUN;
    assert [RECOVERY, FAULT][..1] == [RECOVERY];
  }

  const BOTH_DETECTED := State(map[], map[], [[FAULT], [RECOVERY]], [[FAULT], [RECOVERY]], [])

  lemma UnsoundBegins()
    ensures After(UNSOUND_RUN[..0]) == INITIAL
    ensures After(UNSOUND_RUN[..1]) == State(FAULT_CYCLE.active, map[], [[FAULT]], [[FAULT]], [])
    ensures After(UNSOUND_RUN[..2]) == BOTH_DETECTED
  {
    RunPrefix(UNSOUND_RUN, 0);
    RunPrefix(UNSOUND_RUN, 1);
  }

  lemma RecoveryFirst()
    ensures Next(BOTH_DETECTED, Update(1)) == State(map[], map[], [[FAULT], []], [[FAULT], [RECOVERY]], [])
    ensures Next(State(map[], map[], [[FAULT], []], [[FAULT], [RECOVERY]], []), Dispatch(1)) ==
            State(map[], map[], [[FAULT], []], [[FAULT], []], [RECOVERY])
  {
    var none: seq<Event> := [];
    assert [RECOVERY][1..] == none;
  }

  lemma FaultLast()
    ensures Next(State(map[], map[], [[FAULT], []], [[FAULT], []], [RECOVERY]), Update(0)) ==
            State(map[], map["0" := FAULT], [[], []], [[FAULT], []], [RECOVERY])
    ensures Next(State(map[], map["0" := FAULT], [[], []], [[FAULT], []], [RECOVERY]), Dispatch(0)) ==
            State(map[], map["0" := FAULT], [[], []], [[], []], [RECOVERY, FAULT])
  {
    var none: seq<Event> := [];
    assert [FAULT][1..] == none;
  }

  lemma UnsoundEnds()
    requires After(UNSOUND_RUN[..2]) == BOTH_DETECTED
    ensures After(UNSOUND_RUN[..3]) == State(map[], map[], [[FAULT], []], [[FAULT], [RECOVERY]], [])
    ensures After(UNSOUND_RUN[..4]) == State(map[], map[], [[FAULT], []], [[FAULT], []], [RECOVERY])
    ensures After(UNSOUND_RUN[..5]) == State(map[], map["0" := FAULT], [[], []], [[FAULT], []], [RECOVERY])
    ensures After(UNSOUND_RUN[..6]) == State(map[], map["0" := FAULT], [[], []], [[], []], [RECOVERY, FAULT])
  {
    RunPrefix(UNSOUND_RUN, 2);
    RunPrefix(UNSOUND_RUN, 3);
    RunPrefix(UNSOUND_RUN, 4);
    RunPrefix(UNSOUND_RUN, 5);
    RecoveryFirst();
    FaultLast();
  }

  lemma UnsoundIsRun()
    requires After(UNSOUND_RUN[..0]) == INITIAL
    requires After(UNSOUND_RUN[..1]) == State(FAULT_CYCLE.active, map[], [[FAULT]], [[FAULT]], [])
    requires After(UNSOUND_RUN[..2]) == BOTH_DETECTED
    requires After(UNSOUND_RUN[..3]) == State(map[], map[], [[FAULT], []], [[FAULT], [RECOVERY]], [])
    requires After(UNSOUND_RUN[..4]) == State(map[], map[], [[FAULT], []], [[FAULT], []], [RECOVERY])
    requires After(UNSOUND_RUN[..5]) == State(map[], map["0" := FAULT], [[], []], [[FAULT], []], [RECOVERY])
    ensures IsRun(map[], UNSOUND_RUN)
  {
    FaultCycleFollows();
    CpuCycleFollows();
  }

  lemma RunPrefix(steps: seq<Step>, n: nat)
    requires n < |steps|
    ensures After(steps[..n + 1]) == Next(After(steps[..n]), steps[n])
  {
    assert steps[..n + 1][..n] == steps[..n];
  }
}
