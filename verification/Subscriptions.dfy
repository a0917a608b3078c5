/** Subscriptions and their debounce windows: features/faultsub/subscription.go. Clock readings are
    nanoseconds. */
module Subscriptions {
  import opened GoText
  import opened GoNumbers
  import opened FaultDetector
  import opened EventRing

  const NANOS_PER_MILLI := 1_000_000

  datatype Subscription = Subscription(
    id: string, types: seq<FaultType>, components: seq<string>, npuIds: seq<string>,
    webhook: bool, endpoint: string, debounceMs: int, minSeverity: string)

  function SeverityRank(s: string): nat {
    if s == "critical" then 2 else if s == "warning" then 1 else 0
  }

  function SeverityName(s: Severity): string {
    match s case Warning => "warning" case Critical => "critical"
  }

  /** `Severity.AtLeast`; an unknown minimum ranks lowest, so everything meets it. */
  predicate AtLeast(s: Severity, min: string) {
    min == "" || SeverityRank(SeverityName(s)) >= SeverityRank(min)
  }

  /** `Subscription.matches`; an empty list asks for nothing in particular. */
  predicate Matches(s: Subscription, e: Event) {
    && (s.types != [] ==> e.fault in s.types)
    && (s.components != [] ==> e.component in s.components)
    && (s.npuIds != [] ==> e.npu in s.npuIds)
    && AtLeast(e.severity, s.minSeverity)
  }

  /** Which events a subscription wants: an empty list asks for nothing in particular, and the minimum
      excludes something only if it reads "critical", and then the warnings. */
  lemma MatchesExactly(s: Subscription, e: Event)
    ensures Matches(s, e) <==>
            && (s.types == [] || e.fault in s.types)
            && (s.components == [] || e.component in s.components)
            && (s.npuIds == [] || e.npu in s.npuIds)
            && !(s.minSeverity == "critical" && e.severity == Warning)
  {
    var min := s.minSeverity;
    assert min == "" || SeverityRank(min) == if min == "critical" then 2 else if min == "warning" then 1 else 0;
  }

  /** The name under which repeats of one fault of one device are recognised. */
  function RepeatKey(e: Event): string {
    e.npu + "|" + TypeName(e.fault)
  }

  /** No type name contains the separator, so the key tells device and fault apart. */
  lemma RepeatKeyIsInjective(e: Event, f: Event)
    requires RepeatKey(e) == RepeatKey(f)
    ensures e.npu == f.npu && e.fault == f.fault
  {
    var k := RepeatKey(e);
    SuffixOf(e);
    SuffixOf(f);
    if |e.npu| < |f.npu| {
      assert k[|f.npu|] == '|';
      assert TypeName(e.fault)[|f.npu| - |e.npu| - 1] == k[|f.npu|];
      NoSeparator(e.fault, |f.npu| - |e.npu| - 1);
    } else if |f.npu| < |e.npu| {
      assert k[|e.npu|] == '|';
      assert TypeName(f.fault)[|e.npu| - |f.npu| - 1] == k[|e.npu|];
      NoSeparator(f.fault, |e.npu| - |f.npu| - 1);
    }
    assert k[..|e.npu|] == e.npu && k[..|f.npu|] == f.npu;
    assert k[|e.npu| + 1..] == TypeName(e.fault) && k[|f.npu| + 1..] == TypeName(f.fault);
    TypeNamesDiffer(e.fault, f.fault);
  }

  lemma SuffixOf(e: Event)
    ensures var k := RepeatKey(e);
      |k| == |e.npu| + 1 + |TypeName(e.fault)| && k[|e.npu|] == '|' && k[..|e.npu|] == e.npu &&
      k[|e.npu| + 1..] == TypeName(e.fault)
  {
  }

  lemma NoSeparator(t: FaultType, i: nat)
    requires i < |TypeName(t)|
    ensures TypeName(t)[i] != '|'
  {
  }

  lemma TypeNamesDiffer(t: FaultType, u: FaultType)
    requires TypeName(t) == TypeName(u)
    ensures t == u
  {
    assert TypeName(t)[0] == TypeName(u)[0];
    assert |TypeName(t)| == |TypeName(u)|;
  }

  // ----- ids ------------------------------------------------------------------------------------

  /** The last `width` decimal digits of `n`. */
  function LastDigits(n: nat, width: nat): (s: string)
    ensures |s| == width
  {
    if width == 0 then "" else LastDigits(n / 10, width - 1) + [Digit(n % 10)]
  }

  /** `newSubID`. */
  method NewSubId(seqNo: nat) returns (id: string)
    ensures id == SubId(seqNo)
  {
    var digits := "";
    var n := seqNo;
    for i := 0 to 4
      invariant LastDigits(seqNo, 4) == LastDigits(n, 4 - i) + digits
    {
      digits := [Digit(n % 10)] + digits;
      n := n / 10;
    }
    id := "sub-" + digits;
  }

  function SubId(seqNo: nat): string {
    "sub-" + LastDigits(seqNo, 4)
  }

  /** An id spells the last four digits of its number. */
  lemma SubIdSpells(n: nat)
    ensures SubId(n) == "sub-" + [Digit(n / 1000 % 10), Digit(n / 100 % 10), Digit(n / 10 % 10), Digit(n % 10)]
  {
    assert n / 10 / 10 == n / 100 && n / 10 / 10 / 10 == n / 1000;
    assert LastDigits(n / 1000, 1) == [Digit(n / 1000 % 10)];
    assert LastDigits(n / 100, 2) == LastDigits(n / 1000, 1) + [Digit(n / 100 % 10)];
    assert LastDigits(n / 10, 3) == LastDigits(n / 100, 2) + [Digit(n / 10 % 10)];
  }

  lemma {:induction false} SameLastDigits(m: nat, n: nat, width: nat)
    ensures LastDigits(m, width) == LastDigits(n, width) <==> m % Pow10(width) == n % Pow10(width)
  {
    if width > 0 {
      var p := Pow10(width - 1);
      SameLastDigits(m / 10, n / 10, width - 1);
      SplitRemainder(m, p);
      SplitRemainder(n, p);
      var a, b := LastDigits(m / 10, width - 1), LastDigits(n / 10, width - 1);
      assert LastDigits(m, width)[..width - 1] == a && LastDigits(n, width)[..width - 1] == b;
      assert LastDigits(m, width)[width - 1] == Digit(m % 10) && LastDigits(n, width)[width - 1] == Digit(n % 10);
    }
  }

  lemma SplitRemainder(m: nat, p: nat)
    requires p > 0
    ensures m % (10 * p) == ((m / 10) % p) * 10 + m % 10
  {
    var q, r := (m / 10) / p, (m / 10) % p;
    assert m == (m / 10) * 10 + m % 10;
    assert m / 10 == q * p + r;
    assert (q * p + r) * 10 == q * (10 * p) + r * 10;
    QuotientUnique(m, 10 * p, q, r * 10 + m % 10);
  }

  /** Ids repeat exactly every ten thousand subscriptions. */
  lemma SubIdsRepeatExactlyEveryTenThousand(m: nat, n: nat)
    ensures SubId(m) == SubId(n) <==> m % 10_000 == n % 10_000
  {
    assert Pow10(4) == 10 * (10 * (10 * (10 * Pow10(0))));
    SameLastDigits(m, n, 4);
    assert SubId(m)[4..] == LastDigits(m, 4) && SubId(n)[4..] == LastDigits(n, 4);
  }

  // ----- the manager's state ------------------------------------------------------------------------

  /** When a fault was last passed on to a subscription, by its repeat key. */
  type Table = map<string, int>

  datatype State = State(subs: map<string, Subscription>, debounce: map<string, Table>, seqNo: nat)

  const INITIAL := State(map[], map[], 0)

  /** Writing to the table of a subscription that has been removed is a write to a nil map. */
  datatype Outcome = Fires | Suppressed | NotMatched | Crashes

  /** A request to add or remove, or an event offered to a subscription: `asked` and `noted` are the
      clock when the window is checked and when the fire is recorded. */
  datatype Op =
    | Add(sub: Subscription)
    | Remove(id: string)
    | Offer(s: Subscription, e: Event, asked: int, noted: int)

  function LastFire(st: State, id: string, key: string): Option<int> {
    if id in st.debounce && key in st.debounce[id] then Some(st.debounce[id][key]) else None
  }

  /** `ShouldFire`: what it answers. */
  function OutcomeOf(st: State, s: Subscription, e: Event, asked: int): Outcome {
    var last := LastFire(st, s.id, RepeatKey(e));
    if !Matches(s, e) then NotMatched
    else if s.debounceMs <= 0 then Fires
    else if last.Some? && asked - last.value < s.debounceMs * NANOS_PER_MILLI then Suppressed
    else if s.id !in st.debounce then Crashes
    else Fires
  }

  function Next(st: State, op: Op): State {
    match op
    case Add(sub) =>
      var id := SubId(st.seqNo + 1);
      State(st.subs[id := sub.(id := id)], st.debounce[id := map[]], st.seqNo + 1)
    case Remove(id) => if id in st.subs then State(st.subs - {id}, st.debounce - {id}, st.seqNo) else st
    case Offer(s, e, asked, noted) =>
      if OutcomeOf(st, s, e, asked).Fires? && s.debounceMs > 0
      then st.(debounce := st.debounce[s.id := st.debounce[s.id][RepeatKey(e) := noted]])
      else st
  }

  predicate Live(st: State, s: Subscription) {
    s.id in st.subs && st.subs[s.id] == s
  }

  ghost predicate Filed(st: State) {
    (forall id :: id in st.subs ==> st.subs[id].id == id) && TablesLive(st)
  }

  class SubscriptionManager {
    var subs: map<string, Subscription>
    var debounce: map<string, Table>
    var seqNo: nat

    constructor ()
      ensures Valid() && View() == INITIAL
    {
      subs, debounce, seqNo := map[], map[], 0;
    }

    ghost function View(): State
      reads this
    {
      State(subs, debounce, seqNo)
    }

    /** Every subscription stands under its own id, and exactly the live ones have a table. */
    ghost predicate Valid()
      reads this
    {
      Filed(View())
    }

    method AddSubscription(sub: Subscription) returns (stored: Subscription)
      modifies this
      ensures old(Valid()) ==> Valid()
      ensures View() == Next(old(View()), Add(sub))
      ensures seqNo == old(seqNo) + 1 && stored == sub.(id := SubId(seqNo)) && subs == old(subs)[stored.id := stored]
    {
      seqNo := seqNo + 1;
      var id := NewSubId(seqNo);
      stored := sub.(id := id);
      subs := subs[id := stored];
      debounce := debounce[id := map[]];
    }

    method RemoveSubscription(id: string) returns (existed: bool)
      modifies this
      ensures old(Valid()) ==> Valid()
      ensures View() == Next(old(View()), Remove(id))
      ensures existed <==> id in old(subs)
      ensures subs == old(subs) - {id} && debounce == (if existed then old(debounce) - {id} else old(debounce))
    {
      if id !in subs {
        return false;
      }
      subs := subs - {id};
      debounce := debounce - {id};
      return true;
    }

    /** `Matched`: every live subscription that wants the event, once, in some order. */
    method Matched(e: Event) returns (out: seq<Subscription>)
      requires Valid()
      ensures forall s :: s in out <==> Live(View(), s) && Matches(s, e)
      ensures forall i, j :: 0 <= i < j < |out| ==> out[i].id != out[j].id
    {
      out := [];
      var todo := subs.Keys;
      while todo != {}
        invariant todo <= subs.Keys
        invariant forall s :: s in out <==> Live(View(), s) && s.id !in todo && Matches(s, e)
        invariant forall i, j :: 0 <= i < j < |out| ==> out[i].id != out[j].id
        decreases todo
      {
        var id :| id in todo;
        assert Live(View(), subs[id]);
        if Matches(subs[id], e) {
          assert subs[id] !in out;
          assert forall i :: 0 <= i < |out| ==> out[i] in out;
          out := out + [subs[id]];
        }
        todo := todo - {id};
      }
    }

    /** `ShouldFire`. */
    method ShouldFire(s: Subscription, e: Event, asked: int, noted: int) returns (o: Outcome)
      modifies this
      ensures old(Valid()) ==> Valid()
      ensures o == OutcomeOf(old(View()), s, e, asked)
      ensures View() == Next(old(View()), Offer(s, e, asked, noted))
    {
      if !Matches(s, e) {
        return NotMatched;
      }
      if s.debounceMs <= 0 {
        return Fires;
      }
      var key := RepeatKey(e);
      if s.id in debounce && key in debounce[s.id] {
        var last := debounce[s.id][key];
        if asked - last < s.debounceMs * NANOS_PER_MILLI {
          return Suppressed;
        }
      }
      if s.id !in debounce {
        return Crashes;
      }
      debounce := debounce[s.id := debounce[s.id][key := noted]];
      return Fires;
    }
  }

  // ----- runs -----------------------------------------------------------------------------------

  function StateAt(ops: seq<Op>, n: nat): State
    requires n <= |ops|
  {
    if n == 0 then INITIAL else Next(StateAt(ops, n - 1), ops[n - 1])
  }

  /** Operation `k` passes an event with that key on to a debounced subscription with that id. */
  predicate FiresAt(ops: seq<Op>, k: nat, id: string, key: string) {
    && k < |ops| && ops[k].Offer? && ops[k].s.id == id && RepeatKey(ops[k].e) == key && ops[k].s.debounceMs > 0
    && OutcomeOf(StateAt(ops, k), ops[k].s, ops[k].e, ops[k].asked).Fires?
  }

  /** Operation `k` starts or ends a subscription with that id. */
  predicate Resets(ops: seq<Op>, k: nat, id: string)
    requires k < |ops|
  {
    (ops[k].Add? && SubId(StateAt(ops, k).seqNo + 1) == id) || (ops[k].Remove? && ops[k].id == id)
  }

  ghost predicate Undisturbed(ops: seq<Op>, i: nat, j: nat, id: string)
    requires j <= |ops|
  {
    forall k :: i <= k < j ==> !Resets(ops, k, id)
  }

  /** The clock never runs back. */
  predicate ClockForward(ops: seq<Op>) {
    && (forall k :: 0 <= k < |ops| && ops[k].Offer? ==> ops[k].asked <= ops[k].noted)
    && (forall k, l :: 0 <= k < l < |ops| && ops[k].Offer? && ops[l].Offer? ==> ops[k].noted <= ops[l].asked)
  }

  /** Exactly the live subscriptions have a table. */
  ghost predicate TablesLive(st: State) {
    forall id :: id in st.subs <==> id in st.debounce
  }

  lemma StepKeepsTablesLive(st: State, op: Op)
    requires TablesLive(st)
    ensures TablesLive(Next(st, op))
  {
  }

  lemma {:induction false} TablesOfLiveOnly(ops: seq<Op>, n: nat)
    requires n <= |ops|
    ensures TablesLive(StateAt(ops, n))
  {
    if n > 0 {
      TablesOfLiveOnly(ops, n - 1);
      StepKeepsTablesLive(StateAt(ops, n - 1), ops[n - 1]);
    }
  }

  lemma ResetEmptiesTable(ops: seq<Op>, n: nat, id: string, key: string)
    requires n < |ops| && Resets(ops, n, id)
    ensures LastFire(StateAt(ops, n + 1), id, key).None?
  {
    TablesOfLiveOnly(ops, n);
  }

  lemma StepMovesTable(ops: seq<Op>, n: nat, id: string, key: string)
    requires n < |ops| && !Resets(ops, n, id)
    ensures LastFire(StateAt(ops, n + 1), id, key) ==
            if FiresAt(ops, n, id, key) then Some(ops[n].noted) else LastFire(StateAt(ops, n), id, key)
  {
  }

  lemma LaterFireIsLater(ops: seq<Op>, i: nat, n: nat, id: string, key: string)
    requires i < n < |ops| && ClockForward(ops) && FiresAt(ops, i, id, key) && FiresAt(ops, n, id, key)
    ensures ops[i].noted <= ops[n].noted
  {
    assert ops[i].noted <= ops[n].asked <= ops[n].noted;
  }

  /** The table says that the fault was passed on no earlier than at `since`. */
  predicate Remembers(st: State, id: string, key: string, since: int) {
    LastFire(st, id, key).Some? && LastFire(st, id, key).value >= since
  }

  lemma {:induction false} EntryStays(entries: seq<Option<int>>, since: int, i: nat, n: nat)
    requires i < n < |entries| && entries[i + 1].Some? && entries[i + 1].value >= since
    requires forall k: nat :: i < k < n ==>
               entries[k + 1] == entries[k] || (entries[k + 1].Some? && entries[k + 1].value >= since)
    ensures entries[n].Some? && entries[n].value >= since
    decreases n
  {
    if n > i + 1 {
      EntryStays(entries, since, i, n - 1);
      assert entries[n - 1 + 1] == entries[n];
    }
  }

  /** After a fire the table remembers that or a later one. */
  lemma {:induction false} FireIsRemembered(ops: seq<Op>, i: nat, n: nat, id: string, key: string)
    requires i < n <= |ops| && FiresAt(ops, i, id, key) && Undisturbed(ops, i, n, id) && ClockForward(ops)
    ensures Remembers(StateAt(ops, n), id, key, ops[i].noted)
  {
    var entries, since := Entries(ops, id, key), ops[i].noted;
    StepMovesTable(ops, i, id, key);
    forall k: nat | i < k < n
      ensures entries[k + 1] == entries[k] || (entries[k + 1].Some? && entries[k + 1].value >= since)
    {
      StepMovesTable(ops, k, id, key);
      if FiresAt(ops, k, id, key) {
        LaterFireIsLater(ops, i, k, id, key);
      }
    }
    EntryStays(entries, since, i, n);
  }

  /** Whatever happens to other subscriptions in between, two fires of one subscription for one fault
      of one device are at least its debounce window apart. */
  lemma FiresAreSpaced(ops: seq<Op>, i: nat, j: nat, id: string, key: string)
    requires i < j < |ops| && ClockForward(ops) && Undisturbed(ops, i, j, id)
    requires FiresAt(ops, i, id, key) && FiresAt(ops, j, id, key)
    ensures ops[j].noted - ops[i].noted >= ops[j].s.debounceMs * NANOS_PER_MILLI
  {
    FireIsRemembered(ops, i, j, id, key);
  }

  lemma EntryAfterStep(ops: seq<Op>, n: nat, id: string, key: string)
    requires n < |ops| && LastFire(StateAt(ops, n + 1), id, key).Some?
    ensures !Resets(ops, n, id)
    ensures if FiresAt(ops, n, id, key) then LastFire(StateAt(ops, n + 1), id, key).value == ops[n].noted
            else LastFire(StateAt(ops, n), id, key) == LastFire(StateAt(ops, n + 1), id, key)
  {
    if Resets(ops, n, id) {
      ResetEmptiesTable(ops, n, id, key);
    } else {
      StepMovesTable(ops, n, id, key);
    }
  }

  /** What the table says for one key before each operation and at the end. */
  function Entries(ops: seq<Op>, id: string, key: string): (entries: seq<Option<int>>)
    ensures |entries| == |ops| + 1
    ensures forall n :: 0 <= n <= |ops| ==> entries[n] == LastFire(StateAt(ops, n), id, key)
  {
    seq(|ops| + 1, n requires 0 <= n <= |ops| => LastFire(StateAt(ops, n), id, key))
  }

  /** An entry that is there was put there at some `i` and kept since. */
  lemma {:induction false} EntryHasSource(entries: seq<Option<int>>, kept: nat -> bool, n: nat) returns (i: nat)
    requires n < |entries| && entries[n].Some? && entries[0].None?
    requires forall k: nat :: k < n && kept(k) ==> entries[k] == entries[k + 1]
    ensures i < n && !kept(i) && entries[i + 1] == entries[n]
    ensures forall k: nat :: i < k < n ==> kept(k) && entries[k].Some?
    decreases n
  {
    if kept(n - 1) {
      i := EntryHasSource(entries, kept, n - 1);
    } else {
      i := n - 1;
    }
  }

  lemma EntryComesFromFire(ops: seq<Op>, n: nat, id: string, key: string) returns (i: nat)
    requires n <= |ops| && LastFire(StateAt(ops, n), id, key).Some?
    ensures i < n && FiresAt(ops, i, id, key) && Undisturbed(ops, i, n, id)
    ensures ops[i].noted == LastFire(StateAt(ops, n), id, key).value
  {
    var entries := Entries(ops, id, key);
    var kept := (k: nat) => k < |ops| && !FiresAt(ops, k, id, key) && !Resets(ops, k, id);
    forall k: nat | k < n && kept(k)
      ensures entries[k] == entries[k + 1]
    {
      StepMovesTable(ops, k, id, key);
    }
    i := EntryHasSource(entries, kept, n);
    forall k: nat | i <= k < n
      ensures !Resets(ops, k, id)
    {
      if k == i {
        EntryAfterStep(ops, i, id, key);
      } else {
        assert kept(k);
      }
    }
    EntryAfterStep(ops, i, id, key);
  }

  /** An event is held back only because the same subscription fired for the same fault of the same
      device less than the window before. */
  lemma SuppressedOnlyAfterRecentFire(ops: seq<Op>, j: nat)
    requires j < |ops| && ops[j].Offer?
    requires OutcomeOf(StateAt(ops, j), ops[j].s, ops[j].e, ops[j].asked).Suppressed?
    ensures exists i :: 0 <= i < j && FiresAt(ops, i, ops[j].s.id, RepeatKey(ops[j].e)) &&
                        Undisturbed(ops, i, j, ops[j].s.id) &&
                        ops[j].asked - ops[i].noted < ops[j].s.debounceMs * NANOS_PER_MILLI
  {
    var i := EntryComesFromFire(ops, j, ops[j].s.id, RepeatKey(ops[j].e));
  }

  /** Operation `i` passed on the same fault of the same device, and less than the window before `j`. */
  ghost predicate RecentFire(ops: seq<Op>, i: nat, j: nat)
    requires j < |ops| && ops[j].Offer?
  {
    && i < j && FiresAt(ops, i, ops[j].s.id, RepeatKey(ops[j].e)) && Undisturbed(ops, i, j, ops[j].s.id)
    && ops[j].asked - ops[i].noted < ops[j].s.debounceMs * 1_000_000
  }

  /** What a live subscription answers to an event that it wants, on a clock that never runs back: it is held
      back exactly if it has a window and such a fire came before, and otherwise passed on. */
  lemma HeldBackExactly(ops: seq<Op>, j: nat)
    requires j < |ops| && ops[j].Offer? && ClockForward(ops)
    requires Matches(ops[j].s, ops[j].e) && ops[j].s.id in StateAt(ops, j).subs
    ensures var o := OutcomeOf(StateAt(ops, j), ops[j].s, ops[j].e, ops[j].asked);
      if ops[j].s.debounceMs > 0 && exists i: nat :: RecentFire(ops, i, j) then o == Suppressed else o == Fires
  {
    TablesOfLiveOnly(ops, j);
    if i: nat :| ops[j].s.debounceMs > 0 && RecentFire(ops, i, j) {
      FireIsRemembered(ops, i, j, ops[j].s.id, RepeatKey(ops[j].e));
    }
    if OutcomeOf(StateAt(ops, j), ops[j].s, ops[j].e, ops[j].asked).Suppressed? {
      SuppressedOnlyAfterRecentFire(ops, j);
      var i :| 0 <= i < j && FiresAt(ops, i, ops[j].s.id, RepeatKey(ops[j].e)) &&
               Undisturbed(ops, i, j, ops[j].s.id) &&
               ops[j].asked - ops[i].noted < ops[j].s.debounceMs * NANOS_PER_MILLI;
      assert RecentFire(ops, i, j);
    }
  }

  /** Offering an event crashes exactly when a debounced subscription that wants it has been removed
      since it was looked up; for a live one it never does. */
  lemma {:induction false} CrashesExactlyOnRemoved(ops: seq<Op>, n: nat, s: Subscription, e: Event, asked: int)
    requires n <= |ops|
    ensures OutcomeOf(StateAt(ops, n), s, e, asked).Crashes? <==>
            Matches(s, e) && s.debounceMs > 0 && s.id !in StateAt(ops, n).subs
  {
    TablesOfLiveOnly(ops, n);
  }

  /** A subscription to everything, debounced by a second. */
  const ANY := Subscription("", [], [], [], false, "", 1000, "")

  /** It is added, an event is matched with it, it is removed, and the event is offered. */
  lemma OfferAfterRemovalCrashes(e: Event, asked: int)
    ensures var matched := ANY.(id := SubId(1));
      && Live(StateAt([Add(ANY), Remove(SubId(1))], 1), matched) && Matches(matched, e)
      && OutcomeOf(StateAt([Add(ANY), Remove(SubId(1))], 2), matched, e, asked).Crashes?
  {
    var ops := [Add(ANY), Remove(SubId(1))];
    assert StateAt(ops, 0) == INITIAL;
    assert StateAt(ops, 1) == Next(INITIAL, ops[0]);
    assert StateAt(ops, 2) == Next(StateAt(ops, 1), ops[1]);
  }
}
