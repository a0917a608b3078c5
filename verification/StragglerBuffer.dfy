/** The sample buffer of features/stragglerout/storage.go. A flush takes the whole buffer under the
    lock, then hands its samples to the writer outside it, so several flushes may be under way at
    once while more samples arrive. */
module StragglerBuffer {
  import opened GoText
  import opened Queues
  import opened StragglerKeys

  // ----- every interleaving ------------------------------------------------------------------------------

  /** Samples waiting in the buffer, the rest of what each flush under way has taken, and what the
      writer has been handed. `received` is every sample buffered so far. */
  datatype State = State(buffer: seq<Sample>, taken: Queues<Sample>, handed: seq<Sample>, received: seq<Sample>)

  datatype Step =
    | Arrive(sample: Sample)
    | Take
    | Hand(flush: nat)

  function Next(s: State, step: Step): State {
    match step
    case Arrive(x) => s.(buffer := s.buffer + [x], received := s.received + [x])
    case Take => s.(buffer := [], taken := s.taken + [s.buffer])
    case Hand(f) =>
      if CanPop(s.taken, f) then
        s.(taken := Popped(s.taken, f), handed := s.handed + [s.taken[f][0]])
      else s
  }

  function Run(steps: seq<Step>): State {
    if steps == [] then State([], [], [], []) else Next(Run(steps[..|steps| - 1]), steps[|steps| - 1])
  }

  function Times(x: Sample, parts: seq<seq<Sample>>): nat {
    if parts == [] then 0 else Times(x, parts[..|parts| - 1]) + multiset(parts[|parts| - 1])[x]
  }

  lemma {:induction false} TimesAfterUpdate(x: Sample, parts: seq<seq<Sample>>, i: nat, part: seq<Sample>)
    requires i < |parts|
    ensures Times(x, parts[i := part]) + multiset(parts[i])[x] == Times(x, parts) + multiset(part)[x]
  {
    var n := |parts| - 1;
    var after := parts[i := part];
    if i == n {
      assert after[..n] == parts[..n];
    } else {
      assert after[..n] == parts[..n][i := part] && after[n] == parts[n];
      TimesAfterUpdate(x, parts[..n], i, part);
    }
  }

  /** Every arrival of `x` is in the buffer, with a flush, or with the writer. */
  predicate Conserved(x: Sample, s: State) {
    multiset(s.handed)[x] + Times(x, s.taken) + multiset(s.buffer)[x] == multiset(s.received)[x]
  }

  lemma HandingConserves(x: Sample, s: State, f: nat)
    requires Conserved(x, s) && CanPop(s.taken, f)
    ensures Conserved(x, Next(s, Hand(f)))
  {
    var first, rest := s.taken[f][0], s.taken[f][1..];
    TimesAfterUpdate(x, s.taken, f, rest);
    assert s.taken[f] == [first] + rest;
    assert multiset(s.taken[f])[x] == multiset([first])[x] + multiset(rest)[x];
    assert multiset(s.handed + [first])[x] == multiset(s.handed)[x] + multiset([first])[x];
  }

  lemma NextConserves(x: Sample, s: State, step: Step)
    requires Conserved(x, s)
    ensures Conserved(x, Next(s, step))
  {
    match step
    case Arrive(y) =>
      assert multiset(s.buffer + [y])[x] == multiset(s.buffer)[x] + multiset([y])[x];
      assert multiset(s.received + [y])[x] == multiset(s.received)[x] + multiset([y])[x];
    case Take =>
      assert (s.taken + [s.buffer])[..|s.taken|] == s.taken;
    case Hand(f) =>
      if CanPop(s.taken, f) {
        HandingConserves(x, s, f);
      }
  }

  lemma {:induction false} RunConserves(x: Sample, steps: seq<Step>)
    ensures Conserved(x, Run(steps))
  {
    if steps != [] {
      RunConserves(x, steps[..|steps| - 1]);
      NextConserves(x, Run(steps[..|steps| - 1]), steps[|steps| - 1]);
    }
  }

  predicate Drained(s: State) {
    s.buffer == [] && AllEmpty(s.taken)
  }

  lemma {:induction false} NoneInEmpty(x: Sample, parts: seq<seq<Sample>>)
    requires AllEmpty(parts)
    ensures Times(x, parts) == 0
  {
    if parts != [] {
      NoneInEmpty(x, parts[..|parts| - 1]);
    }
  }

  /** However flushes and arrivals interleave, no sample is handed over more often than it arrived,
      and once all flushes are done and the buffer is empty each has been handed over exactly once. */
  lemma EachSampleHandedOnce(steps: seq<Step>)
    ensures var s := Run(steps); multiset(s.handed) <= multiset(s.received)
    ensures var s := Run(steps); Drained(s) ==> multiset(s.handed) == multiset(s.received)
  {
    var s := Run(steps);
    forall x: Sample
      ensures multiset(s.handed)[x] <= multiset(s.received)[x]
      ensures Drained(s) ==> multiset(s.handed)[x] == multiset(s.received)[x]
    {
      RunConserves(x, steps);
      if Drained(s) {
        NoneInEmpty(x, s.taken);
      }
    }
  }

  lemma RunThen(steps: seq<Step>, step: Step)
    ensures Run(steps + [step]) == Next(Run(steps), step)
  {
    assert (steps + [step])[..|steps|] == steps;
  }

  /** Two samples, each taken by a flush of its own. */
  lemma TwoUnderWay(a: Sample, b: Sample)
    ensures Run([] + [Arrive(a)] + [Take] + [Arrive(b)] + [Take]) == State([], [[a], [b]], [], [a, b])
  {
    RunThen([], Arrive(a));
    RunThen([] + [Arrive(a)], Take);
    RunThen([] + [Arrive(a)] + [Take], Arrive(b));
    RunThen([] + [Arrive(a)] + [Take] + [Arrive(b)], Take);
    assert [] + [a] == [a] && [] + [b] == [b] && [a] + [b] == [a, b];
    var none: seq<seq<Sample>> := [];
    assert none + [[a]] + [[b]] == [[a], [b]];
  }

  /** Flushes under way together can hand samples over out of order. */
  lemma TwoFlushesCanReorder(a: Sample, b: Sample)
    ensures exists steps: seq<Step> :: Run(steps).received == [a, b] && Run(steps).handed == [b, a]
  {
    var start: seq<Step> := [] + [Arrive(a)] + [Take] + [Arrive(b)] + [Take];
    TwoUnderWay(a, b);
    RunThen(start, Hand(1));
    assert [[a], [b]][1 := [b][1..]][0] == [a];
    assert [] + [b] == [b];
    RunThen(start + [Hand(1)], Hand(0));
    assert [b] + [a] == [b, a];
    assert Run(start + [Hand(1)] + [Hand(0)]).handed == [b, a];
  }

  /** Only the latest flush has anything left: none starts before the one before it is done. */
  predicate OneAtATime(steps: seq<Step>) {
    forall i :: 0 <= i < |steps| && steps[i].Take? ==>
      AllEmpty(Run(steps[..i]).taken)
  }

  predicate OnlyLastLeft(s: State) {
    forall j :: 0 <= j < |s.taken| - 1 ==> s.taken[j] == []
  }

  function LastTaken(s: State): seq<Sample> {
    if s.taken == [] then [] else s.taken[|s.taken| - 1]
  }

  predicate InOrder(s: State) {
    OnlyLastLeft(s) && s.handed + LastTaken(s) + s.buffer == s.received
  }

  lemma HandKeepsOrder(s: State, f: nat)
    requires InOrder(s) && CanPop(s.taken, f)
    ensures InOrder(Next(s, Hand(f)))
  {
    assert f == |s.taken| - 1;
    var first, rest := LastTaken(s)[0], LastTaken(s)[1..];
    assert LastTaken(s) == [first] + rest && LastTaken(Next(s, Hand(f))) == rest;
    Regrouped(s.handed, [first], rest, s.buffer);
  }

  lemma Regrouped(a: seq<Sample>, b: seq<Sample>, c: seq<Sample>, d: seq<Sample>)
    ensures a + b + c + d == a + (b + c) + d
  {
  }

  lemma NextKeepsOrder(s: State, step: Step)
    requires InOrder(s) && (step.Take? ==> AllEmpty(s.taken))
    ensures InOrder(Next(s, step))
  {
    match step
    case Arrive(x) =>
      assert s.handed + LastTaken(s) + (s.buffer + [x]) == s.handed + LastTaken(s) + s.buffer + [x];
    case Take =>
      assert LastTaken(s) == [];
      assert LastTaken(Next(s, step)) == s.buffer;
    case Hand(f) =>
      if CanPop(s.taken, f) {
        HandKeepsOrder(s, f);
      }
  }

  /** Flushing one at a time keeps the order of arrival. */
  lemma {:induction false} OneFlushAtATimeKeepsOrder(steps: seq<Step>)
    requires OneAtATime(steps)
    ensures InOrder(Run(steps))
  {
    if steps != [] {
      var before := steps[..|steps| - 1];
      assert forall i :: 0 <= i < |before| ==> before[..i] == steps[..i];
      OneFlushAtATimeKeepsOrder(before);
      NextKeepsOrder(Run(before), steps[|steps| - 1]);
    }
  }

  // ----- exactly when order is safe ----------------------------------------------------------------------------

  /** `q` is a stretch of the samples received, up to the `m`-th at most. */
  ghost predicate IsStretch(q: seq<Sample>, received: seq<Sample>, m: int) {
    exists b: nat :: EndsAt(q, received, m, b)
  }

  predicate EndsAt(q: seq<Sample>, received: seq<Sample>, m: int, b: nat) {
    |q| <= b <= m <= |received| && q == received[b - |q|..b]
  }

  /** Where the samples are: what waits came last, what a flush has taken came in one stretch, and none
      is lost. */
  ghost predicate Placed(s: State) {
    && |s.buffer| <= |s.received| && s.buffer == s.received[|s.received| - |s.buffer|..]
    && (forall w :: 0 <= w < |s.taken| ==> IsStretch(s.taken[w], s.received, |s.received| - |s.buffer|))
    && |s.handed| + Total(s.taken) + |s.buffer| == |s.received|
  }

  lemma ArriveKeepsPlaced(s: State, x: Sample)
    requires Placed(s)
    ensures Placed(Next(s, Arrive(x)))
  {
    var s' := Next(s, Arrive(x));
    forall w | 0 <= w < |s'.taken|
      ensures IsStretch(s'.taken[w], s'.received, |s'.received| - |s'.buffer|)
    {
      var b: nat :| EndsAt(s.taken[w], s.received, |s.received| - |s.buffer|, b);
      assert EndsAt(s'.taken[w], s'.received, |s'.received| - |s'.buffer|, b);
    }
  }

  lemma TakeKeepsPlaced(s: State)
    requires Placed(s)
    ensures Placed(Next(s, Take))
  {
    var s' := Next(s, Take);
    forall w | 0 <= w < |s'.taken|
      ensures IsStretch(s'.taken[w], s'.received, |s'.received|)
    {
      if w == |s.taken| {
        assert EndsAt(s'.taken[w], s'.received, |s'.received|, |s'.received|);
      } else {
        var b: nat :| EndsAt(s.taken[w], s.received, |s.received| - |s.buffer|, b);
        assert EndsAt(s'.taken[w], s'.received, |s'.received|, b);
      }
    }
    assert s'.taken[..|s.taken|] == s.taken;
  }

  lemma HandKeepsPlaced(s: State, f: nat)
    requires Placed(s) && CanPop(s.taken, f)
    ensures Placed(Next(s, Hand(f)))
  {
    var s', m := Next(s, Hand(f)), |s.received| - |s.buffer|;
    forall w | 0 <= w < |s'.taken|
      ensures IsStretch(s'.taken[w], s'.received, m)
    {
      var b: nat :| EndsAt(s.taken[w], s.received, m, b);
      assert EndsAt(s'.taken[w], s'.received, m, b);
    }
    TotalAfterUpdate(s.taken, f, s.taken[f][1..]);
  }

  lemma {:induction false} RunKeepsPlaced(steps: seq<Step>)
    ensures Placed(Run(steps))
  {
    if steps != [] {
      var s := Run(steps[..|steps| - 1]);
      RunKeepsPlaced(steps[..|steps| - 1]);
      match steps[|steps| - 1]
      case Arrive(x) => ArriveKeepsPlaced(s, x);
      case Take => TakeKeepsPlaced(s);
      case Hand(f) =>
        if CanPop(s.taken, f) {
          HandKeepsPlaced(s, f);
        }
    }
  }

  /** Whichever way the flushes under way come to their end, what has then been handed over came first, in
      that order. */
  ghost predicate OrderSafe(s: State) {
    forall d :: Drains(s.taken, d) ==> s.handed + Output(s.taken, d) <= s.received
  }

  predicate Distinct(samples: seq<Sample>) {
    forall i, j :: 0 <= i < j < |samples| ==> samples[i] != samples[j]
  }

  lemma TakenNotHanded(s: State, w: nat)
    requires Distinct(s.received) && w < |s.taken| && s.taken[w] != [] && Conserved(s.taken[w][0], s)
    ensures s.taken[w][0] !in s.handed
  {
    TimesAtLeast(s.taken[w][0], s.taken, w);
    DistinctTimes(s.taken[w][0], s.received);
    assert multiset(s.handed)[s.taken[w][0]] == 0;
  }

  /** A stretch that does not begin before the end of `handed`, and cannot begin after it, is the next. */
  lemma NextStretch(q: seq<Sample>, handed: seq<Sample>, received: seq<Sample>)
    requires handed <= received && q != [] && q[0] !in handed
    requires IsStretch(q, received, |handed| + |q|)
    ensures handed + q <= received
  {
    var b: nat :| EndsAt(q, received, |handed| + |q|, b);
    assert q[0] == received[b - |q|];
    assert handed + q == received[..b];
  }

  /** With one flush left, its stretch is the next after what has been handed over. */
  lemma OnlyFlushIsNext(s: State, w: nat)
    requires Placed(s) && Distinct(s.received) && s.handed <= s.received
    requires w < |s.taken| && s.taken[w] != [] && Total(s.taken) == |s.taken[w]| && Conserved(s.taken[w][0], s)
    ensures s.handed + s.taken[w] <= s.received
  {
    TakenNotHanded(s, w);
    NextStretch(s.taken[w], s.handed, s.received);
  }

  lemma {:induction false} TotalOfOne(qs: Queues<Sample>, w: nat)
    requires w < |qs| && forall v :: 0 <= v < |qs| && v != w ==> qs[v] == []
    ensures Total(qs) == |qs[w]|
  {
    TotalAfterUpdate(qs, w, []);
    EmptyTotal(qs[w := []]);
  }

  lemma OneLeftIsSafe(s: State)
    requires Placed(s) && Distinct(s.received) && s.handed <= s.received && OneLeft(s.taken)
    requires forall x :: Conserved(x, s)
    ensures OrderSafe(s)
  {
    forall d | Drains(s.taken, d)
      ensures s.handed + Output(s.taken, d) <= s.received
    {
      if AllEmpty(s.taken) {
        EmptyTotal(s.taken);
        OutputLength(s.taken, d);
        assert s.handed + Output(s.taken, d) == s.handed;
      } else {
        var w :| 0 <= w < |s.taken| && s.taken[w] != [];
        TotalOfOne(s.taken, w);
        assert Conserved(s.taken[w][0], s);
        OnlyQueueComesOut(s.taken, d, w);
        OnlyFlushIsNext(s, w);
      }
    }
  }

  lemma {:induction false} TimesAtLeast(x: Sample, parts: seq<seq<Sample>>, w: nat)
    requires w < |parts| && x in parts[w]
    ensures Times(x, parts) >= 1
  {
    if w < |parts| - 1 {
      TimesAtLeast(x, parts[..|parts| - 1], w);
    }
  }

  lemma {:induction false} TimesTwice(x: Sample, parts: seq<seq<Sample>>, v: nat, w: nat)
    requires v < w < |parts| && x in parts[v] && x in parts[w]
    ensures Times(x, parts) >= 2
  {
    if w < |parts| - 1 {
      TimesTwice(x, parts[..|parts| - 1], v, w);
    } else {
      TimesAtLeast(x, parts[..|parts| - 1], v);
    }
  }

  lemma {:induction false} DistinctTimes(x: Sample, samples: seq<Sample>)
    requires Distinct(samples)
    ensures multiset(samples)[x] <= 1
  {
    if samples != [] {
      var n := |samples| - 1;
      DistinctTimes(x, samples[..n]);
      assert samples == samples[..n] + [samples[n]];
    }
  }

  lemma LastOfBoth(received: seq<Sample>, a: seq<Sample>, b: seq<Sample>)
    requires a <= received && b <= received && |a| == |b| > 0
    ensures a[|a| - 1] == b[|b| - 1]
  {
  }

  lemma TakenTwice(s: State, v: nat, w: nat, x: Sample)
    requires v < w < |s.taken| && x in s.taken[v] && x in s.taken[w] && Conserved(x, s)
    ensures !Distinct(s.received)
  {
    TimesTwice(x, s.taken, v, w);
    if Distinct(s.received) {
      DistinctTimes(x, s.received);
    }
  }

  lemma TwoLeftAreUnsafe(s: State, v: nat, w: nat)
    requires v < w < |s.taken| && s.taken[v] != [] && s.taken[w] != []
    requires Distinct(s.received) && forall x :: Conserved(x, s)
    ensures !OrderSafe(s)
  {
    if OrderSafe(s) {
      var d, first := DrainEndingWith(s.taken, v);
      var e, second := DrainEndingWith(s.taken, w);
      OutputLength(s.taken, d);
      OutputLength(s.taken, e);
      EmptyTotal(Left(s.taken, d));
      EmptyTotal(Left(s.taken, e));
      LastOfBoth(s.received, s.handed + Output(s.taken, d), s.handed + Output(s.taken, e));
      var x := s.taken[v][|s.taken[v]| - 1];
      TakenTwice(s, v, w, x);
    }
  }

  /** While samples have been handed over in the order of arrival, and no two are equal: every way of
      finishing the flushes under way keeps that order, exactly when no two of them still hold samples. */
  lemma OrderSafeExactly(steps: seq<Step>)
    requires Distinct(Run(steps).received) && Run(steps).handed <= Run(steps).received
    ensures OrderSafe(Run(steps)) <==> OneLeft(Run(steps).taken)
  {
    var s := Run(steps);
    RunKeepsPlaced(steps);
    forall x: Sample
      ensures Conserved(x, s)
    {
      RunConserves(x, steps);
    }
    if OneLeft(s.taken) {
      OneLeftIsSafe(s);
    } else {
      var v, w :| 0 <= v < w < |s.taken| && s.taken[v] != [] && s.taken[w] != [];
      TwoLeftAreUnsafe(s, v, w);
    }
  }

  // ----- one caller at a time --------------------------------------------------------------------------------

  /** The samples whose append did not fail. */
  function Appended(samples: seq<Sample>, fails: nat -> bool): seq<Sample> {
    if samples == [] then []
    else
      var last := |samples| - 1;
      Appended(samples[..last], fails) + (if fails(last) then [] else [samples[last]])
  }

  predicate Increasing(at: seq<nat>) {
    forall j, k :: 0 <= j < k < |at| ==> at[j] < at[k]
  }

  predicate ChosenAt(chosen: seq<Sample>, samples: seq<Sample>, at: seq<nat>) {
    |at| == |chosen| && forall k :: 0 <= k < |at| ==> at[k] < |samples| && chosen[k] == samples[at[k]]
  }

  /** The samples whose append did not fail are those at its positions, each once and in their order. */
  lemma {:induction false} AppendedExactly(samples: seq<Sample>, fails: nat -> bool) returns (at: seq<nat>)
    ensures Increasing(at) && ChosenAt(Appended(samples, fails), samples, at)
    ensures forall i: nat :: i in at <==> i < |samples| && !fails(i)
  {
    if samples == [] {
      return [];
    }
    var last := |samples| - 1;
    at := AppendedExactly(samples[..last], fails);
    if !fails(last) {
      at := at + [last];
    }
  }

  class StragglerStorage {
    const flushInterval: int
    var buffer: seq<Sample>
    var lastFlush: Option<int>
    /** What the writer has been handed, and what it has appended to its file. */
    var handed: seq<Sample>
    var written: seq<Sample>
    ghost var received: seq<Sample>

    ghost predicate Valid()
      reads this
    {
      handed + buffer == received
    }

    /** A non-positive interval is replaced by sixty seconds; times are in seconds. */
    constructor (interval: int)
      ensures Valid() && received == [] && buffer == [] && written == []
      ensures flushInterval == if interval > 0 then interval else 60
    {
      flushInterval := if interval <= 0 then 60 else interval;
      buffer, lastFlush, handed, written, received := [], None, [], [], [];
    }

    predicate Due(now: int)
      reads this
    {
      lastFlush.None? || now - lastFlush.value >= flushInterval
    }

    /** `bufferSample`. Nothing is left waiting once a sample arrives an interval after the last flush. */
    method BufferSample(sample: Sample, now: int, fails: nat -> bool)
      requires Valid()
      modifies this
      ensures Valid() && received == old(received) + [sample]
      ensures var due := old(lastFlush).None? || now - old(lastFlush).value >= flushInterval;
        if due then
          buffer == [] && lastFlush == Some(now) && handed == received &&
          written == old(written) + Appended(old(buffer) + [sample], fails)
        else
          buffer == old(buffer) + [sample] && lastFlush == old(lastFlush) && handed == old(handed) && written == old(written)
    {
      buffer := buffer + [sample];
      received := received + [sample];
      if Due(now) {
        Flush(now, fails);
      }
    }

    /** `Flush`. A sample whose append fails has been handed over and is not tried again. */
    method Flush(now: int, fails: nat -> bool)
      requires Valid()
      modifies this
      ensures Valid() && received == old(received)
      ensures buffer == [] && lastFlush == Some(now) && handed == old(received)
      ensures written == old(written) + Appended(old(buffer), fails)
    {
      var pending := buffer;
      buffer, lastFlush := [], Some(now);
      for i := 0 to |pending|
        invariant buffer == [] && lastFlush == Some(now) && received == old(received)
        invariant handed == old(handed) + pending[..i]
        invariant written == old(written) + Appended(pending[..i], fails)
      {
        assert pending[..i + 1][..i] == pending[..i];
        handed := handed + [pending[i]];
        if !fails(i) {
          written := written + [pending[i]];
        }
      }
      assert pending[..|pending|] == pending;
    }
  }
}
