/** The ring buffer of recent events in features/faultsub/dispatcher.go. */
module EventRing {
  import opened GoNumbers
  import opened FaultDetector

  /** The string by which subscribers name a fault type. */
  function TypeName(t: FaultType): string {
    match t
    case CardDrop => "card_drop"
    case HealthState => "npu_health"
    case ErrorCode => "npu_error_code"
    case HbmUce => "hbm_uce"
    case DdrUce => "ddr_uce"
    case RoceLinkDown => "roce_link_down"
    case DriverUnhealthy => "driver_unhealthy"
    case StragglerDetected => "straggler_detected"
  }

  /** Which fault a reader names. */
  lemma TypeNamesExactly(t: FaultType, name: string)
    ensures TypeName(t) == name <==>
            || (name == "card_drop" && t == CardDrop) || (name == "npu_health" && t == HealthState)
            || (name == "npu_error_code" && t == ErrorCode) || (name == "hbm_uce" && t == HbmUce)
            || (name == "ddr_uce" && t == DdrUce) || (name == "roce_link_down" && t == RoceLinkDown)
            || (name == "driver_unhealthy" && t == DriverUnhealthy)
            || (name == "straggler_detected" && t == StragglerDetected)
  {
  }

  /** What a reader asks for; 0 and empty strings ask for nothing in particular. */
  datatype Query = Query(since: int, typeFilter: string, npu: string)

  predicate Wanted(q: Query, e: Event) {
    && (q.since != 0 ==> e.timestamp > q.since)
    && (q.typeFilter != "" ==> TypeName(e.fault) == q.typeFilter)
    && (q.npu != "" ==> e.npu == q.npu)
  }

  function Filtered(q: Query, events: seq<Event>): seq<Event> {
    if events == [] then []
    else
      var e := events[|events| - 1];
      Filtered(q, events[..|events| - 1]) + (if Wanted(q, e) then [e] else [])
  }

  function LastOf(events: seq<Event>, n: nat): seq<Event> {
    if |events| <= n then events else events[|events| - n..]
  }

  lemma {:induction false} FilteredConcat(q: Query, a: seq<Event>, b: seq<Event>)
    ensures Filtered(q, a + b) == Filtered(q, a) + Filtered(q, b)
  {
    if b == [] {
      assert a + b == a;
    } else {
      assert (a + b)[..|a + b| - 1] == a + b[..|b| - 1];
      FilteredConcat(q, a, b[..|b| - 1]);
    }
  }

  lemma {:induction false} FilteredMember(q: Query, events: seq<Event>, e: Event)
    ensures e in Filtered(q, events) <==> e in events && Wanted(q, e)
  {
    if events != [] {
      var before, last := events[..|events| - 1], events[|events| - 1];
      FilteredMember(q, before, e);
      assert e in events <==> e in before || e == last;
    }
  }

  lemma {:induction false} FilteredAll(q: Query, events: seq<Event>)
    requires forall i :: 0 <= i < |events| ==> Wanted(q, events[i])
    ensures Filtered(q, events) == events
  {
    if events != [] {
      FilteredAll(q, events[..|events| - 1]);
    }
  }

  /** Filtering keeps exactly the events after the given time, of the given type and of the given device, each
      test only if it is asked for; by `FilteredConcat` it keeps their order and how often each occurs. */
  lemma FilteredKeepsWanted(q: Query, events: seq<Event>)
    ensures forall e :: e in Filtered(q, events) <==>
              && e in events
              && (q.since == 0 || e.timestamp > q.since)
              && (q.typeFilter == "" || TypeName(e.fault) == q.typeFilter)
              && (q.npu == "" || e.npu == q.npu)
    ensures (forall i :: 0 <= i < |events| ==> Wanted(q, events[i])) ==> Filtered(q, events) == events
  {
    forall e
      ensures e in Filtered(q, events) <==> e in events && Wanted(q, e)
    {
      FilteredMember(q, events, e);
    }
    if forall i :: 0 <= i < |events| ==> Wanted(q, events[i]) {
      FilteredAll(q, events);
    }
  }

  /** What a ring of `n` slots has kept: the last events, as many as fit, in order. */
  lemma LastOfExactly(events: seq<Event>, n: nat)
    ensures |LastOf(events, n)| == if |events| < n then |events| else n
    ensures forall k :: 0 <= k < |LastOf(events, n)| ==>
              LastOf(events, n)[k] == events[|events| - |LastOf(events, n)| + k]
  {
  }

  class Dispatcher {
    const bufSize: nat
    const buffer: array<Event>
    var bufHead: nat
    var count: nat
    /** Every event ever recorded, in order. */
    ghost var recorded: seq<Event>

    ghost predicate Valid()
      reads this, buffer
    {
      && buffer.Length == bufSize
      && (bufSize == 0 ==> bufHead == 0 && count == 0)
      && (bufSize > 0 ==>
            && bufHead == |recorded| % bufSize
            && count == (if |recorded| < bufSize then |recorded| else bufSize)
            && forall k {:trigger recorded[k]} :: |recorded| - count <= k < |recorded| ==> buffer[k % bufSize] == recorded[k])
    }

    /** A negative size counts as 0. */
    constructor (eventBuf: int)
      ensures Valid() && fresh(buffer) && recorded == []
      ensures bufSize == if eventBuf < 0 then 0 else eventBuf
    {
      var size := if eventBuf < 0 then 0 else eventBuf;
      bufSize := size;
      buffer := new Event[size];
      bufHead, count, recorded := 0, 0, [];
    }

    /** `record`. */
    method Record(e: Event)
      requires Valid()
      modifies this, buffer
      ensures Valid()
      ensures recorded == old(recorded) + [e]
    {
      ghost var n := |recorded|;
      recorded := recorded + [e];
      if bufSize == 0 {
        return;
      }
      buffer[bufHead] := e;
      AddToRemainder(n, 1, bufSize);
      bufHead := (bufHead + 1) % bufSize;
      if count < bufSize {
        count := count + 1;
      }
      forall k | n + 1 - count <= k < n
        ensures buffer[k % bufSize] == recorded[k]
      {
        DifferentRemainders(k, n, bufSize);
        assert recorded[k] == old(recorded)[k];
      }
    }

    /** Where the reader starts. */
    function Start(): nat
      requires Valid() && bufSize > 0
      reads this, buffer
    {
      (bufHead - count + bufSize) % bufSize
    }

    lemma BufferHoldsLast(i: nat)
      requires Valid() && i < count
      ensures buffer[(Start() + i) % bufSize] == LastOf(recorded, bufSize)[i]
    {
      var k := |recorded| - count + i;
      WindowIndex(|recorded|, bufHead, count, bufSize, Start(), i);
      assert buffer[k % bufSize] == recorded[k];
      assert recorded[k] == LastOf(recorded, bufSize)[i];
    }

    method EntryAt(start: nat, i: nat) returns (e: Event)
      requires Valid() && i < count && start == Start()
      ensures e == LastOf(recorded, bufSize)[i]
    {
      BufferHoldsLast(i);
      e := buffer[(start + i) % bufSize];
    }

    /** `Events`: the wanted ones among the last `bufSize` events, in the order recorded. */
    method Events(q: Query) returns (out: seq<Event>)
      requires Valid()
      ensures out == Filtered(q, LastOf(recorded, bufSize))
    {
      if count == 0 {
        return [];
      }
      var start := Start();
      ghost var kept := LastOf(recorded, bufSize);
      out := [];
      for i := 0 to count
        invariant out == Filtered(q, kept[..i])
      {
        var e := EntryAt(start, i);
        assert kept[..i + 1][..i] == kept[..i];
        if Wanted(q, e) {
          out := out + [e];
        }
      }
      assert kept[..count] == kept;
    }
  }

  lemma HeadAndCount(n: nat, head: int, count: nat, size: nat, x: int)
    requires size > 0 && head == n % size && x == head - count + size
    ensures exists q :: n - count == x + q * size
  {
    var q := n / size;
    assert n == q * size + head;
    assert (q - 1) * size == q * size - size;
    assert n - count == x + (q - 1) * size;
  }

  /** The `i`-th of the last `count` of `n` events sits where the source looks for it. */
  lemma WindowIndex(n: nat, head: int, count: nat, size: nat, start: int, i: nat)
    requires size > 0 && head == n % size && start == (head - count + size) % size
    ensures (start + i) % size == (n - count + i) % size
  {
    var x := head - count + size;
    HeadAndCount(n, head, count, size, x);
    var q :| n - count == x + q * size;
    SameOffset(n - count, x, q, size, start, i);
  }

  lemma SameOffset(y: int, x: int, q: int, size: nat, start: int, i: nat)
    requires size > 0 && y == x + q * size && start == x % size
    ensures (start + i) % size == (y + i) % size
  {
    AddToRemainder(x, i, size);
    SameRemainder(y + i, x + i, q, size);
  }
}
