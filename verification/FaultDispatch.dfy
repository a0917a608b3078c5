/** `Dispatch` of features/faultsub/dispatcher.go: an event is retained, and offered to every
    subscription that wants it. */
module FaultDispatch {
  import opened GoText
  import opened FaultDetector
  import opened EventRing
  import opened Subscriptions

  /** Clock readings while one event is dispatched, by subscription: when its window is checked and
      when its fire is recorded. */
  datatype Clock = Clock(asked: string -> int, noted: string -> int)

  /** The event is passed on to the subscription, as things stand in `st`. */
  predicate PassedOn(st: State, s: Subscription, e: Event, clock: Clock) {
    Live(st, s) && OutcomeOf(st, s, e, clock.asked(s.id)).Fires?
  }

  /** The time of the last fire after the dispatch. */
  function FireAfter(st: State, id: string, key: string, e: Event, clock: Clock): Option<int> {
    if id in st.subs && key == RepeatKey(e) && st.subs[id].debounceMs > 0 && PassedOn(st, st.subs[id], e, clock)
    then Some(clock.noted(id))
    else LastFire(st, id, key)
  }

  /** `now` is `st` with the subscriptions in `offered` served. */
  ghost predicate Served(st: State, now: State, offered: set<string>, e: Event, clock: Clock) {
    && now.subs == st.subs && now.seqNo == st.seqNo && Filed(now)
    && forall id, key :: LastFire(now, id, key) ==
         if id in offered then FireAfter(st, id, key, e, clock) else LastFire(st, id, key)
  }

  lemma OneMoreServed(st: State, now: State, offered: set<string>, s: Subscription, e: Event, clock: Clock)
    requires Filed(st) && Served(st, now, offered, e, clock) && Live(st, s) && s.id !in offered
    ensures OutcomeOf(now, s, e, clock.asked(s.id)) == OutcomeOf(st, s, e, clock.asked(s.id))
    ensures !OutcomeOf(st, s, e, clock.asked(s.id)).Crashes?
    ensures Served(st, Next(now, Offer(s, e, clock.asked(s.id), clock.noted(s.id))), offered + {s.id}, e, clock)
  {
    var now' := Next(now, Offer(s, e, clock.asked(s.id), clock.noted(s.id)));
    assert LastFire(now, s.id, RepeatKey(e)) == LastFire(st, s.id, RepeatKey(e));
    forall id, key
      ensures LastFire(now', id, key) ==
              if id in offered + {s.id} then FireAfter(st, id, key, e, clock) else LastFire(st, id, key)
    {
      assert LastFire(now, id, key) ==
        if id in offered then FireAfter(st, id, key, e, clock) else LastFire(st, id, key);
    }
  }

  /** Those of the subscriptions in `offered` that the event was passed on to, each once. */
  ghost predicate Recipients(st: State, e: Event, clock: Clock, offered: set<string>, subs: seq<Subscription>) {
    && (forall s :: s in subs <==> PassedOn(st, s, e, clock) && s.id in offered)
    && (forall k, l :: 0 <= k < l < |subs| ==> subs[k].id != subs[l].id)
  }

  lemma OneMoreRecipient(st: State, e: Event, clock: Clock, offered: set<string>, subs: seq<Subscription>, s: Subscription)
    requires Recipients(st, e, clock, offered, subs) && Live(st, s) && s.id !in offered
    ensures Recipients(st, e, clock, offered + {s.id}, if PassedOn(st, s, e, clock) then subs + [s] else subs)
  {
    assert forall k :: 0 <= k < |subs| ==> subs[k] in subs;
  }

  class EventDispatcher {
    const ring: Dispatcher
    const manager: SubscriptionManager

    constructor (ring: Dispatcher, manager: SubscriptionManager)
      ensures this.ring == ring && this.manager == manager
    {
      this.ring, this.manager := ring, manager;
    }

    /** `Dispatch`, with no subscription added or removed meanwhile. `pushed` are the subscriptions
        whose webhook is called; `passedOn` those that get the event by whatever way. The event is
        retained, each live subscription that wants it gets it once unless its window is still
        open, and no other window moves. */
    method Dispatch(e: Event, clock: Clock) returns (pushed: seq<Subscription>, ghost passedOn: seq<Subscription>)
      requires ring.Valid() && manager.Valid() && {ring, ring.buffer} !! {manager}
      modifies ring, ring.buffer, manager
      ensures ring.Valid() && manager.Valid()
      ensures ring.recorded == old(ring.recorded) + [e]
      ensures forall s :: s in passedOn <==> PassedOn(old(manager.View()), s, e, clock)
      ensures forall i, j :: 0 <= i < j < |passedOn| ==> passedOn[i].id != passedOn[j].id
      ensures pushed == Hooks(passedOn)
      ensures manager.subs == old(manager.subs)
      ensures forall id, key :: LastFire(manager.View(), id, key) == FireAfter(old(manager.View()), id, key, e, clock)
    {
      ghost var st := manager.View();
      ring.Record(e);
      var matched := manager.Matched(e);
      pushed, passedOn := [], [];
      ghost var offered: set<string> := {};
      for i := 0 to |matched|
        invariant ring.Valid() && ring.recorded == old(ring.recorded) + [e]
        invariant forall id :: id in offered <==> exists k :: 0 <= k < i && matched[k].id == id
        invariant Served(st, manager.View(), offered, e, clock)
        invariant Recipients(st, e, clock, offered, passedOn)
        invariant pushed == Hooks(passedOn)
      {
        var s := matched[i];
        assert Live(st, s) && s.id !in offered;
        OneMoreServed(st, manager.View(), offered, s, e, clock);
        OneMoreRecipient(st, e, clock, offered, passedOn, s);
        var outcome := manager.ShouldFire(s, e, clock.asked(s.id), clock.noted(s.id));
        offered := offered + {s.id};
        if outcome != Fires {
          continue;
        }
        HooksOfLonger(passedOn, s);
        passedOn := passedOn + [s];
        if s.webhook {
          if s.endpoint == "" {
            continue;
          }
          pushed := pushed + [s];
        }
      }
      assert forall s :: Live(st, s) && Matches(s, e) ==> s in matched && s.id in offered;
      assert forall id, key :: id !in offered ==> FireAfter(st, id, key, e, clock) == LastFire(st, id, key);
    }
  }

  /** The subscriptions with a webhook to call. */
  function Hooks(subs: seq<Subscription>): seq<Subscription> {
    if subs == [] then []
    else
      var last := subs[|subs| - 1];
      Hooks(subs[..|subs| - 1]) + (if last.webhook && last.endpoint != "" then [last] else [])
  }

  lemma HooksOfLonger(subs: seq<Subscription>, s: Subscription)
    ensures Hooks(subs + [s]) == if s.webhook && s.endpoint != "" then Hooks(subs) + [s] else Hooks(subs)
  {
    assert (subs + [s])[..|subs|] == subs;
  }
}
