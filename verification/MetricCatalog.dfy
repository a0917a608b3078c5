/** The metric selection catalogue of internal/metrics/metrics.go: the feature scope, the merged
    feature overrides, the pre-filter that decides whether a sub-method runs, and the filter that
    decides what survives. */
module MetricCatalog {
  import opened GoText
  import opened Sequences

  const NUL: char := '\0'

  datatype Spec = Spec(name: string, cnName: string, priority: string, unit: string, fixed: bool)

  /** One component's section of a catalogue file. */
  datatype Section = Section(component: string, metrics: seq<Spec>)

  /** What a path leads to: no file, a file that does not decode, or its sections. */
  datatype Source = Absent | Undecodable | Loaded(sections: seq<Section>)

  type Catalog = map<string, map<string, Spec>>

  function Lookup(c: Catalog, component: string, name: string): Option<Spec> {
    if component in c && name in c[component] then Some(c[component][name]) else None
  }

  function PriorityValue(p: string): (v: int)
    ensures 0 <= v <= 2
  {
    var lower := ToLower(p);
    if lower == "high" then 2 else if lower == "medium" then 1 else 0
  }

  // ----- listings: what the feature files say, in reading order -------------------------------------

  datatype Listing = Listing(component: string, spec: Spec)

  function SectionListings(component: string, metrics: seq<Spec>): seq<Listing> {
    if metrics == [] then []
    else SectionListings(component, metrics[..|metrics| - 1]) + [Listing(component, metrics[|metrics| - 1])]
  }

  function FileListings(sections: seq<Section>): seq<Listing> {
    if sections == [] then []
    else
      var last := sections[|sections| - 1];
      FileListings(sections[..|sections| - 1]) + SectionListings(last.component, last.metrics)
  }

  function Listings(sources: seq<Source>): seq<Listing> {
    if sources == [] then []
    else
      var last := sources[|sources| - 1];
      Listings(sources[..|sources| - 1]) + (if last.Loaded? then FileListings(last.sections) else [])
  }

  // ----- keys ------------------------------------------------------------------------------------------

  function Key(component: string, name: string): string {
    component + [NUL] + name
  }

  function KeyOf(l: Listing): string {
    Key(l.component, l.spec.name)
  }

  /** The key split at its first NUL. */
  function SplitKey(key: string): Option<(string, string)> {
    if key == [] then None
    else if key[0] == NUL then Some(([], key[1..]))
    else
      match SplitKey(key[1..])
      case None => None
      case Some(parts) => Some(([key[0]] + parts.0, parts.1))
  }

  /** A key splits back into its component and name exactly when the component holds no NUL. */
  lemma {:induction false} SplitUndoesKey(component: string, name: string)
    ensures SplitKey(Key(component, name)) == Some((component, name)) <==> NUL !in component
    ensures SplitKey(Key(component, name)).Some?
  {
    var key := Key(component, name);
    if component == [] {
      assert key[1..] == name;
    } else {
      assert key[1..] == Key(component[1..], name);
      SplitUndoesKey(component[1..], name);
      assert component == [component[0]] + component[1..];
      SplitIsKey(key);
    }
  }

  lemma {:induction false} SplitIsKey(key: string)
    ensures SplitKey(key).None? ==> NUL !in key
    ensures SplitKey(key).Some? ==>
              var (component, name) := SplitKey(key).value; NUL !in component && key == Key(component, name)
  {
    if key != [] {
      assert key == [key[0]] + key[1..];
      if key[0] != NUL {
        SplitIsKey(key[1..]);
      }
    }
  }

  lemma KeyIsInjective(c: string, n: string, d: string, m: string)
    requires NUL !in c && NUL !in d && Key(c, n) == Key(d, m)
    ensures c == d && n == m
  {
    SplitUndoesKey(c, n);
    SplitUndoesKey(d, m);
  }

  // ----- the feature scope -----------------------------------------------------------------------------

  function KeysOf(ls: seq<Listing>): set<string> {
    if ls == [] then {} else KeysOf(ls[..|ls| - 1]) + {KeyOf(ls[|ls| - 1])}
  }

  predicate Lists(ls: seq<Listing>, component: string, name: string) {
    exists i :: 0 <= i < |ls| && ls[i].component == component && ls[i].spec.name == name
  }

  lemma {:induction false} KeyListed(ls: seq<Listing>, key: string)
    ensures key in KeysOf(ls) <==> exists i :: 0 <= i < |ls| && KeyOf(ls[i]) == key
  {
    if ls != [] {
      var before := ls[..|ls| - 1];
      KeyListed(before, key);
      assert ls == before + [ls[|ls| - 1]];
    }
  }

  /** With component names free of NUL, in scope means listed by some feature. */
  lemma ScopeIsWhatFeaturesList(ls: seq<Listing>, component: string, name: string)
    requires NUL !in component && forall i :: 0 <= i < |ls| ==> NUL !in ls[i].component
    ensures Key(component, name) in KeysOf(ls) <==> Lists(ls, component, name)
  {
    var key := Key(component, name);
    KeyListed(ls, key);
    forall i | 0 <= i < |ls| && KeyOf(ls[i]) == key
      ensures ls[i].component == component && ls[i].spec.name == name
    {
      KeyIsInjective(ls[i].component, ls[i].spec.name, component, name);
    }
  }

  // ----- the merged overrides --------------------------------------------------------------------------

  datatype Override = Override(priority: string, cnName: string, unit: string, fixed: bool)

  function First(sp: Spec): Override {
    Override(sp.priority, sp.cnName, sp.unit, sp.fixed)
  }

  function Join(ov: Override, sp: Spec): Override {
    Override(if PriorityValue(sp.priority) > PriorityValue(ov.priority) then sp.priority else ov.priority,
             if sp.cnName != "" then sp.cnName else ov.cnName,
             if sp.unit != "" then sp.unit else ov.unit,
             ov.fixed || sp.fixed)
  }

  function AddListing(m: map<string, Override>, l: Listing): map<string, Override> {
    m[KeyOf(l) := if KeyOf(l) in m then Join(m[KeyOf(l)], l.spec) else First(l.spec)]
  }

  function Overrides(ls: seq<Listing>): map<string, Override> {
    if ls == [] then map[] else AddListing(Overrides(ls[..|ls| - 1]), ls[|ls| - 1])
  }

  /** The override applied to the catalogue's entry, if it has one. */
  function Applied(base: Option<Spec>, name: string, ov: Override): Spec {
    var b := if base.Some? then base.value else Spec(name, "", "", "", false);
    Spec(b.name,
         if ov.cnName != "" then ov.cnName else b.cnName,
         if ov.priority != "" then ov.priority else b.priority,
         if ov.unit != "" then ov.unit else b.unit,
         b.fixed || ov.fixed)
  }

  /** An entry of the catalogue after the overrides are in. */
  function Overridden(base: Option<Spec>, overrides: map<string, Override>, component: string, name: string):
    Option<Spec>
  {
    var key := Key(component, name);
    if NUL !in component && key in overrides then Some(Applied(base, name, overrides[key])) else base
  }

  // ----- what one metric's listings come to ---------------------------------------------------------------

  function ListingsFor(ls: seq<Listing>, key: string): seq<Listing> {
    if ls == [] then []
    else ListingsFor(ls[..|ls| - 1], key) + (if KeyOf(ls[|ls| - 1]) == key then [ls[|ls| - 1]] else [])
  }

  function Merged(ls: seq<Listing>): Override
    requires ls != []
  {
    if |ls| == 1 then First(ls[0].spec) else Join(Merged(ls[..|ls| - 1]), ls[|ls| - 1].spec)
  }

  lemma {:induction false} OverrideMergesListings(ls: seq<Listing>, key: string)
    ensures key in Overrides(ls) <==> ListingsFor(ls, key) != []
    ensures key in Overrides(ls) ==> Overrides(ls)[key] == Merged(ListingsFor(ls, key))
  {
    if ls != [] {
      var before, last := ls[..|ls| - 1], ls[|ls| - 1];
      OverrideMergesListings(before, key);
      var found := ListingsFor(before, key);
      if KeyOf(last) == key {
        MergedOfLonger(found, last);
      } else {
        assert ListingsFor(ls, key) == found + [] == found;
      }
    }
  }

  lemma MergedOfLonger(ls: seq<Listing>, l: Listing)
    ensures Merged(ls + [l]) == if ls == [] then First(l.spec) else Join(Merged(ls), l.spec)
  {
    assert (ls + [l])[..|ls + [l]| - 1] == ls;
  }

  lemma {:induction false} ListingsForMembers(ls: seq<Listing>, key: string, l: Listing)
    ensures multiset(ListingsFor(ls, key))[l] == if KeyOf(l) == key then multiset(ls)[l] else 0
  {
    if ls != [] {
      var before, last := ls[..|ls| - 1], ls[|ls| - 1];
      ListingsForMembers(before, key, l);
      assert ls == before + [last];
    }
  }

  lemma ListingsForPermuted(a: seq<Listing>, b: seq<Listing>, key: string)
    requires multiset(a) == multiset(b)
    ensures multiset(ListingsFor(a, key)) == multiset(ListingsFor(b, key))
  {
    forall l: Listing
      ensures multiset(ListingsFor(a, key))[l] == multiset(ListingsFor(b, key))[l]
    {
      ListingsForMembers(a, key, l);
      ListingsForMembers(b, key, l);
    }
  }

  function ValueAt(ls: seq<Listing>, i: nat): int
    requires i < |ls|
  {
    PriorityValue(ls[i].spec.priority)
  }

  /** Listing `i` has the greatest priority of all, and is the first that has it. */
  predicate FirstGreatest(ls: seq<Listing>, i: nat) {
    && i < |ls|
    && (forall j :: 0 <= j < |ls| ==> ValueAt(ls, j) <= ValueAt(ls, i))
    && (forall j :: 0 <= j < i ==> ValueAt(ls, j) < ValueAt(ls, i))
  }

  predicate AnyFixed(ls: seq<Listing>) {
    exists i :: 0 <= i < |ls| && ls[i].spec.fixed
  }

  predicate TakesFrom(ls: seq<Listing>, i: nat)
    requires ls != []
  {
    FirstGreatest(ls, i) && Merged(ls).priority == ls[i].spec.priority
  }

  /** The merged priority is that of the first listing with the greatest one; the static flag is
      that of any listing. */
  lemma {:induction false} MergedTakesFirstGreatest(ls: seq<Listing>)
    requires ls != []
    ensures exists i: nat :: TakesFrom(ls, i)
    ensures Merged(ls).fixed <==> AnyFixed(ls)
  {
    var n := |ls| - 1;
    if n == 0 {
      assert TakesFrom(ls, 0);
    } else {
      MergedTakesFirstGreatest(ls[..n]);
      var i: nat :| TakesFrom(ls[..n], i);
      TakesFromLonger(ls, i);
      FixedOfLonger(ls);
    }
  }

  lemma TakesFromLonger(ls: seq<Listing>, i: nat)
    requires |ls| > 1 && TakesFrom(ls[..|ls| - 1], i)
    ensures TakesFrom(ls, if ValueAt(ls, |ls| - 1) > ValueAt(ls, i) then |ls| - 1 else i)
  {
    var before := ls[..|ls| - 1];
    assert forall j :: 0 <= j < |before| ==> ValueAt(before, j) == ValueAt(ls, j);
  }

  lemma FixedOfLonger(ls: seq<Listing>)
    requires ls != []
    ensures AnyFixed(ls) <==> AnyFixed(ls[..|ls| - 1]) || ls[|ls| - 1].spec.fixed
  {
    var before := ls[..|ls| - 1];
    if AnyFixed(before) {
      var i :| 0 <= i < |before| && before[i].spec.fixed;
      assert ls[i].spec.fixed;
    }
    if AnyFixed(ls) {
      var i :| 0 <= i < |ls| && ls[i].spec.fixed;
      assert i < |before| ==> before[i].spec.fixed;
    }
  }

  // ----- whether the order of the files matters -------------------------------------------------------------

  /** The priority value of a catalogue entry after the listings of its metric are merged in. */
  function FinalValue(base: Option<Spec>, name: string, ls: seq<Listing>): int
    requires ls != []
  {
    PriorityValue(Applied(base, name, Merged(ls)).priority)
  }

  function BaseValue(base: Option<Spec>): int {
    if base.Some? then PriorityValue(base.value.priority) else 0
  }

  predicate SomeAboveLow(ls: seq<Listing>) {
    exists i :: 0 <= i < |ls| && ValueAt(ls, i) > 0
  }

  predicate AllBlank(ls: seq<Listing>) {
    forall i :: 0 <= i < |ls| ==> ls[i].spec.priority == ""
  }

  predicate NoneBlank(ls: seq<Listing>) {
    forall i :: 0 <= i < |ls| ==> ls[i].spec.priority != ""
  }

  /** With a listing above Low the greatest decides; otherwise the first listing decides whether the
      catalogue's own priority stays. */
  lemma FinalValueIs(base: Option<Spec>, name: string, ls: seq<Listing>)
    requires ls != []
    ensures SomeAboveLow(ls) ==> exists i: nat :: FirstGreatest(ls, i) && FinalValue(base, name, ls) == ValueAt(ls, i)
    ensures !SomeAboveLow(ls) ==>
              FinalValue(base, name, ls) == if ls[0].spec.priority == "" then BaseValue(base) else 0
  {
    MergedTakesFirstGreatest(ls);
    var i: nat :| TakesFrom(ls, i);
    BlankIsLow();
    if SomeAboveLow(ls) {
      assert ValueAt(ls, i) > 0;
      assert FirstGreatest(ls, i) && FinalValue(base, name, ls) == ValueAt(ls, i);
    } else {
      assert ValueAt(ls, 0) == 0;
      assert i == 0;
    }
  }

  lemma BlankIsLow()
    ensures PriorityValue("") == 0
  {
    assert |ToLower("")| == 0;
  }

  ghost predicate OrderIrrelevant(base: Option<Spec>, name: string, ls: seq<Listing>)
    requires ls != []
  {
    forall other: seq<Listing> :: multiset(other) == multiset(ls) && other != [] ==>
      FinalValue(base, name, other) == FinalValue(base, name, ls)
  }

  /** When a metric's final priority cannot depend on the order of its listings. */
  predicate OrderSafe(base: Option<Spec>, ls: seq<Listing>) {
    SomeAboveLow(ls) || AllBlank(ls) || NoneBlank(ls) || BaseValue(base) == 0
  }

  lemma PermutedTraits(a: seq<Listing>, b: seq<Listing>)
    requires multiset(a) == multiset(b)
    ensures SomeAboveLow(a) ==> SomeAboveLow(b)
    ensures AllBlank(b) ==> AllBlank(a)
    ensures NoneBlank(b) ==> NoneBlank(a)
    ensures AnyFixed(a) ==> AnyFixed(b)
  {
    forall i: nat | i < |a|
      ensures exists j :: 0 <= j < |b| && b[j] == a[i]
    {
      var j := SameMembers(a, b, i);
    }
    if SomeAboveLow(a) {
      var i :| 0 <= i < |a| && ValueAt(a, i) > 0;
      var j :| 0 <= j < |b| && b[j] == a[i];
      assert ValueAt(b, j) > 0;
    }
  }

  lemma GreatestOfPermuted(a: seq<Listing>, b: seq<Listing>, i: nat, j: nat)
    requires multiset(a) == multiset(b) && FirstGreatest(a, i) && FirstGreatest(b, j)
    ensures ValueAt(a, i) == ValueAt(b, j)
  {
    var k := SameMembers(a, b, i);
    var l := SameMembers(b, a, j);
    assert ValueAt(b, k) == ValueAt(a, i) && ValueAt(a, l) == ValueAt(b, j);
  }

  lemma SafeOrderIsIrrelevant(base: Option<Spec>, name: string, a: seq<Listing>, b: seq<Listing>)
    requires a != [] && b != [] && multiset(a) == multiset(b) && OrderSafe(base, a)
    ensures FinalValue(base, name, a) == FinalValue(base, name, b)
  {
    PermutedTraits(a, b);
    PermutedTraits(b, a);
    FinalValueIs(base, name, a);
    FinalValueIs(base, name, b);
    if SomeAboveLow(a) {
      var i: nat :| FirstGreatest(a, i) && FinalValue(base, name, a) == ValueAt(a, i);
      var j: nat :| FirstGreatest(b, j) && FinalValue(base, name, b) == ValueAt(b, j);
      GreatestOfPermuted(a, b, i, j);
    }
  }

  /** Bringing listing `k` to the front, when that changes whether the front is blank. */
  lemma FrontDecides(base: Option<Spec>, name: string, ls: seq<Listing>, k: nat)
    requires k < |ls| && !SomeAboveLow(ls) && BaseValue(base) != 0
    requires (ls[k].spec.priority == "") != (ls[0].spec.priority == "")
    ensures !OrderIrrelevant(base, name, ls)
  {
    var other := ls[0 := ls[k]][k := ls[0]];
    assert multiset(other) == multiset(ls);
    PermutedTraits(other, ls);
    FinalValueIs(base, name, ls);
    FinalValueIs(base, name, other);
    assert FinalValue(base, name, other) != FinalValue(base, name, ls);
  }

  /** A metric's final priority is the same in every order of its listings exactly when some listing
      is above Low, or all or none of them leave the priority blank, or the catalogue's own priority
      is Low. */
  lemma OrderIrrelevantExactlyWhenSafe(base: Option<Spec>, name: string, ls: seq<Listing>)
    requires ls != []
    ensures OrderIrrelevant(base, name, ls) <==> OrderSafe(base, ls)
  {
    if OrderSafe(base, ls) {
      forall other: seq<Listing> | multiset(other) == multiset(ls) && other != []
        ensures FinalValue(base, name, other) == FinalValue(base, name, ls)
      {
        SafeOrderIsIrrelevant(base, name, ls, other);
      }
    } else {
      var i :| 0 <= i < |ls| && ls[i].spec.priority != "";
      var j :| 0 <= j < |ls| && ls[j].spec.priority == "";
      FrontDecides(base, name, ls, if ls[0].spec.priority == "" then i else j);
    }
  }

  /** Two files list a metric that the catalogue has at High, one without a priority and one at Low:
      whichever is read first decides. */
  lemma BlankListingOrderMatters()
    ensures var base := Some(Spec("power", "", "High", "", false));
      var blank, low := Listing("npu", Spec("power", "", "", "", false)), Listing("npu", Spec("power", "", "Low", "", false));
      FinalValue(base, "power", [blank, low]) == 2 && FinalValue(base, "power", [low, blank]) == 0
  {
    var base := Some(Spec("power", "", "High", "", false));
    var blank, low := Listing("npu", Spec("power", "", "", "", false)), Listing("npu", Spec("power", "", "Low", "", false));
    PriorityNames();
    BlankIsLow();
    MergedOfLonger([blank], low);
    MergedOfLonger([low], blank);
    assert [blank] + [low] == [blank, low] && [low] + [blank] == [low, blank];
  }

  lemma PriorityNames()
    ensures PriorityValue("High") == 2 && PriorityValue("Low") == 0
  {
    assert ToLower("High") == "high";
    assert ToLower("Low") == "low";
  }

  // ----- the two gates ---------------------------------------------------------------------------------------

  datatype Gate = Gate(catalog: Option<Catalog>, scope: set<string>, scoped: bool, threshold: int) {
    predicate InScope(component: string, name: string) {
      !scoped || Key(component, name) in scope
    }

    function Entry(component: string, name: string): Option<Spec> {
      if catalog.Some? then Lookup(catalog.value, component, name) else None
    }

    /** `IsWanted`, the pre-filter. */
    predicate IsWanted(component: string, name: string) {
      InScope(component, name) &&
      match Entry(component, name)
      case None => true
      case Some(sp) => PriorityValue(sp.priority) >= threshold || (scoped && sp.fixed)
    }

    /** `Selected`, the filter. */
    predicate Selected(component: string, name: string) {
      InScope(component, name) &&
      match Entry(component, name)
      case None => true
      case Some(sp) =>
        if scoped then PriorityValue(sp.priority) >= threshold || sp.fixed
        else sp.priority == "High" || sp.priority == "Medium" || sp.fixed
    }

    predicate Keeps(m: Metric) {
      catalog.None? || Selected(m.component, m.name)
    }
  }

  datatype Metric = Metric(component: string, name: string, value: real)

  function Kept(g: Gate, batch: seq<Metric>): seq<Metric> {
    if batch == [] then []
    else Kept(g, batch[..|batch| - 1]) + (if g.Keeps(batch[|batch| - 1]) then [batch[|batch| - 1]] else [])
  }

  predicate SomeWanted(g: Gate, component: string, names: seq<string>) {
    exists i :: 0 <= i < |names| && g.IsWanted(component, names[i])
  }

  /** A batch holding one metric of the component for each name. */
  predicate OneEach(batch: seq<Metric>, component: string, names: seq<string>) {
    |batch| == |names| &&
    forall i :: 0 <= i < |names| ==> batch[i].component == component && batch[i].name == names[i]
  }

  lemma {:induction false} KeptIsEmpty(g: Gate, batch: seq<Metric>)
    ensures Kept(g, batch) == [] <==> forall i :: 0 <= i < |batch| ==> !g.Keeps(batch[i])
  {
    if batch != [] {
      KeptIsEmpty(g, batch[..|batch| - 1]);
      assert batch == batch[..|batch| - 1] + [batch[|batch| - 1]];
    }
  }

  /** The filter takes each metric by itself, and keeps the order. */
  lemma {:induction false} KeptOneByOne(g: Gate, a: seq<Metric>, b: seq<Metric>, m: Metric)
    ensures Kept(g, []) == [] && Kept(g, a + b) == Kept(g, a) + Kept(g, b)
    ensures Kept(g, [m]) == if g.catalog.None? || g.Selected(m.component, m.name) then [m] else []
    decreases |b|
  {
    assert [m][..0] == [];
    if b == [] {
      assert a + b == a;
    } else {
      assert (a + b)[..|a + b| - 1] == a + b[..|b| - 1];
      KeptOneByOne(g, a, b[..|b| - 1], m);
    }
  }

  /** Whatever catalogue and scope, all that is wanted under threshold `q` is wanted under `p`. */
  ghost predicate WantsAtLeast(p: string, q: string) {
    forall c: Option<Catalog>, scope: set<string>, scoped: bool, component: string, name: string ::
      Gate(c, scope, scoped, PriorityValue(q)).IsWanted(component, name) ==>
        Gate(c, scope, scoped, PriorityValue(p)).IsWanted(component, name)
  }

  /** A threshold collects all that another does exactly when its priority is not above the other's. */
  lemma ThresholdsNestExactly(p: string, q: string)
    ensures WantsAtLeast(p, q) <==> PriorityValue(p) <= PriorityValue(q)
  {
    if WantsAtLeast(p, q) {
      var c: Catalog := map["npu" := map["power" := Spec("power", "", q, "", false)]];
      assert Gate(Some(c), {}, false, PriorityValue(q)).IsWanted("npu", "power");
      assert Gate(Some(c), {}, false, PriorityValue(p)).IsWanted("npu", "power");
    }
  }

  /** Scoped: raising the threshold only narrows what the filter keeps, so filtering twice, first with the
      lower one, is filtering with the higher. */
  lemma {:induction false} HigherThresholdNarrows(g: Gate, higher: int, batch: seq<Metric>)
    requires g.scoped && g.threshold <= higher
    ensures var h := g.(threshold := higher); Kept(h, Kept(g, batch)) == Kept(h, batch)
  {
    if batch != [] {
      var h, before, last := g.(threshold := higher), batch[..|batch| - 1], batch[|batch| - 1];
      HigherThresholdNarrows(g, higher, before);
      assert h.Keeps(last) ==> g.Keeps(last);
      if g.Keeps(last) {
        assert (Kept(g, before) + [last])[..|Kept(g, before)|] == Kept(g, before);
      } else {
        assert Kept(g, batch) == Kept(g, before);
        assert Kept(h, batch) == Kept(h, before);
      }
    }
  }

  lemma {:induction false} FoldedIs(p: string, name: string)
    requires forall k :: 0 <= k < |name| ==> LowerChar(name[k]) == name[k]
    ensures ToLower(p) == name <==> EqualFold(p, name)
  {
    forall k | 0 <= k < |p|
      ensures ToLower(p)[k] == LowerChar(p[k])
    {
      ToLowerAt(p, k);
    }
    if EqualFold(p, name) {
      assert forall k :: 0 <= k < |p| ==> ToLower(p)[k] == name[k];
    }
  }

  /** One priority is no lower than another: high, then medium, then everything else, in any case. */
  predicate NoLower(p: string, q: string) {
    || EqualFold(p, "high")
    || (EqualFold(p, "medium") && !EqualFold(q, "high"))
    || (!EqualFold(q, "high") && !EqualFold(q, "medium"))
  }

  lemma NoLowerIsByValue(p: string, q: string)
    ensures NoLower(p, q) <==> PriorityValue(p) >= PriorityValue(q)
  {
    FoldedIs(p, "high");
    FoldedIs(p, "medium");
    FoldedIs(q, "high");
    FoldedIs(q, "medium");
    assert EqualFold(p, "high") ==> |p| == 4;
    assert EqualFold(p, "medium") ==> |p| == 6;
  }

  predicate IsCatalogued(c: Catalog, component: string, name: string) {
    component in c && name in c[component]
  }

  /** What each gate lets through when the threshold is set to `p`: what is in scope, if there is a scope, and
      is not catalogued, or of a priority that is no lower, or exempt as static. The pre-filter exempts
      static metrics only with a scope; the filter without one asks for the very names High and Medium. */
  lemma GatesExactly(g: Gate, p: string, component: string, name: string)
    requires g.threshold == PriorityValue(p)
    ensures var inScope := !g.scoped || component + "\0" + name in g.scope;
      var free := g.catalog.None? || !IsCatalogued(g.catalog.value, component, name);
      && (g.IsWanted(component, name) <==>
            inScope && (free || (var sp := g.catalog.value[component][name]; NoLower(sp.priority, p) || (g.scoped && sp.fixed))))
      && (g.Selected(component, name) <==>
            inScope && (free || (var sp := g.catalog.value[component][name];
              sp.fixed || if g.scoped then NoLower(sp.priority, p) else sp.priority in {"High", "Medium"})))
  {
    assert component + [NUL] + name == component + "\0" + name;
    var e := g.Entry(component, name);
    if e.Some? {
      NoLowerIsByValue(e.value.priority, p);
    }
  }

  /** Scoped, and with a catalogue: a sub-method is run exactly when the filter would keep some of
      what it emits. */
  lemma ScopedGatesAgree(g: Gate, component: string, names: seq<string>, batch: seq<Metric>)
    requires g.scoped && g.catalog.Some? && OneEach(batch, component, names)
    ensures SomeWanted(g, component, names) <==> Kept(g, batch) != []
  {
    KeptIsEmpty(g, batch);
    assert forall i :: 0 <= i < |names| ==> (g.Keeps(batch[i]) <==> g.IsWanted(component, names[i]));
  }

  /** Without a catalogue the filter keeps everything, so a sub-method is skipped whose output would
      be kept exactly when it emits something and none of it is in scope. */
  lemma UncataloguedGatesAgreeExactly(g: Gate, component: string, names: seq<string>, batch: seq<Metric>)
    requires g.catalog.None? && OneEach(batch, component, names)
    ensures (SomeWanted(g, component, names) <==> Kept(g, batch) != []) <==>
            names == [] || exists i :: 0 <= i < |names| && g.InScope(component, names[i])
  {
    KeptIsEmpty(g, batch);
    assert names != [] ==> g.Keeps(batch[0]);
    assert forall i :: 0 <= i < |names| ==> (g.InScope(component, names[i]) <==> g.IsWanted(component, names[i]));
  }

  /** Unscoped: everything the filter keeps is wanted, in every catalogue, exactly at threshold Low. */
  lemma UnscopedKeptIsWantedExactlyAtLow(threshold: int)
    ensures (forall c: Catalog, component: string, name: string ::
               var g := Gate(Some(c), {}, false, threshold);
               g.Selected(component, name) ==> g.IsWanted(component, name)) <==> threshold <= 0
  {
    if threshold > 0 {
      var low := Spec("serial", "", "", "", true);
      var c: Catalog := map["cpu" := map["serial" := low]];
      var g := Gate(Some(c), {}, false, threshold);
      BlankIsLow();
      assert g.Entry("cpu", "serial") == Some(low);
      assert g.Selected("cpu", "serial") && !g.IsWanted("cpu", "serial");
    }
  }

  /** Unscoped, in one catalogue: what is kept though it was not wanted, and what is dropped though
      it was wanted. */
  lemma UnscopedGatesDiffer(g: Gate, component: string, name: string)
    requires !g.scoped && g.catalog.Some?
    ensures g.Selected(component, name) && !g.IsWanted(component, name) <==>
            var e := g.Entry(component, name);
            && e.Some? && PriorityValue(e.value.priority) < g.threshold
            && (e.value.fixed || e.value.priority == "High" || e.value.priority == "Medium")
    ensures g.IsWanted(component, name) && !g.Selected(component, name) <==>
            var e := g.Entry(component, name);
            && e.Some? && PriorityValue(e.value.priority) >= g.threshold
            && !e.value.fixed && e.value.priority != "High" && e.value.priority != "Medium"
  {
  }

  /** Unscoped: a sub-method is skipped of whose output the filter would keep some, exactly when all it
      emits is catalogued below the threshold and some of it is static or has a priority the filter
      knows. */
  lemma UnscopedSkipsKeptExactly(g: Gate, component: string, names: seq<string>, batch: seq<Metric>)
    requires !g.scoped && g.catalog.Some? && OneEach(batch, component, names)
    ensures !SomeWanted(g, component, names) && Kept(g, batch) != [] <==>
            && (forall i :: 0 <= i < |names| ==>
                  var e := g.Entry(component, names[i]); e.Some? && PriorityValue(e.value.priority) < g.threshold)
            && (exists i :: 0 <= i < |names| && g.Entry(component, names[i]).Some? &&
                            Survives(g.Entry(component, names[i]).value))
  {
    KeptIsEmpty(g, batch);
    assert forall i :: 0 <= i < |names| ==> (g.Keeps(batch[i]) <==> g.Selected(component, names[i]));
  }

  /** The unscoped filter's test of a catalogued metric. */
  predicate Survives(sp: Spec) {
    sp.fixed || sp.priority == "High" || sp.priority == "Medium"
  }

  // ----- order of files and the scoped filter ------------------------------------------------------------------

  /** `after` is the catalogue once the overrides of `ls` are in `before`. */
  ghost predicate LoadedFrom(before: Catalog, ls: seq<Listing>, after: Catalog) {
    forall c, n :: Lookup(after, c, n) == Overridden(Lookup(before, c, n), Overrides(ls), c, n)
  }

  lemma {:induction false} ListingsForNoneBlank(ls: seq<Listing>, key: string)
    requires NoneBlank(ls)
    ensures NoneBlank(ListingsFor(ls, key))
  {
    if ls != [] {
      assert NoneBlank(ls[..|ls| - 1]);
      ListingsForNoneBlank(ls[..|ls| - 1], key);
    }
  }

  /** As far as the scoped gates can tell. */
  predicate Alike(x: Option<Spec>, y: Option<Spec>) {
    && x.Some? == y.Some?
    && (x.Some? ==> x.value.fixed == y.value.fixed
                    && PriorityValue(x.value.priority) == PriorityValue(y.value.priority))
  }

  lemma MergedAlike(base: Option<Spec>, n: string, a: seq<Listing>, b: seq<Listing>)
    requires a != [] && b != [] && multiset(a) == multiset(b) && NoneBlank(a)
    ensures Alike(Some(Applied(base, n, Merged(a))), Some(Applied(base, n, Merged(b))))
  {
    SafeOrderIsIrrelevant(base, n, a, b);
    MergedTakesFirstGreatest(a);
    MergedTakesFirstGreatest(b);
    PermutedTraits(a, b);
    PermutedTraits(b, a);
  }

  lemma EntryIgnoresOrder(base: Option<Spec>, a: seq<Listing>, b: seq<Listing>, c: string, n: string)
    requires multiset(a) == multiset(b) && NoneBlank(a)
    ensures Alike(Overridden(base, Overrides(a), c, n), Overridden(base, Overrides(b), c, n))
  {
    var key := Key(c, n);
    var la, lb := ListingsFor(a, key), ListingsFor(b, key);
    OverrideMergesListings(a, key);
    OverrideMergesListings(b, key);
    ListingsForPermuted(a, b, key);
    assert |la| == |multiset(la)| == |multiset(lb)| == |lb|;
    if la != [] {
      ListingsForNoneBlank(a, key);
      MergedAlike(base, n, la, lb);
    }
  }

  lemma {:induction false} KeysIgnoreOrder(a: seq<Listing>, b: seq<Listing>)
    requires multiset(a) == multiset(b)
    ensures KeysOf(a) == KeysOf(b)
  {
    forall key: string
      ensures key in KeysOf(a) <==> key in KeysOf(b)
    {
      KeyListed(a, key);
      KeyListed(b, key);
      forall i: nat | i < |a| ensures exists j :: 0 <= j < |b| && b[j] == a[i] { var j := SameMembers(a, b, i); }
      forall i: nat | i < |b| ensures exists j :: 0 <= j < |a| && a[j] == b[i] { var j := SameMembers(b, a, i); }
    }
  }

  lemma {:induction false} KeptAlike(g: Gate, h: Gate, batch: seq<Metric>)
    requires forall m: Metric :: g.Keeps(m) == h.Keeps(m)
    ensures Kept(g, batch) == Kept(h, batch)
  {
    if batch != [] {
      KeptAlike(g, h, batch[..|batch| - 1]);
    }
  }

  /** When every listing states a priority, what survives the scoped filter is the same in every
      order of the feature files and of the entries in them. */
  lemma SurvivorsIgnoreFileOrder(before: Catalog, a: seq<Listing>, b: seq<Listing>,
                                 afterA: Catalog, afterB: Catalog, threshold: int, batch: seq<Metric>)
    requires multiset(a) == multiset(b) && NoneBlank(a)
    requires LoadedFrom(before, a, afterA) && LoadedFrom(before, b, afterB)
    ensures Kept(Gate(Some(afterA), KeysOf(a), true, threshold), batch) ==
            Kept(Gate(Some(afterB), KeysOf(b), true, threshold), batch)
  {
    var g, h := Gate(Some(afterA), KeysOf(a), true, threshold), Gate(Some(afterB), KeysOf(b), true, threshold);
    KeysIgnoreOrder(a, b);
    forall m: Metric
      ensures g.Keeps(m) == h.Keeps(m)
    {
      EntryIgnoresOrder(Lookup(before, m.component, m.name), a, b, m.component, m.name);
      assert g.Entry(m.component, m.name) == Lookup(afterA, m.component, m.name);
      assert h.Entry(m.component, m.name) == Lookup(afterB, m.component, m.name);
    }
    KeptAlike(g, h, batch);
  }

  // ----- the package state and its operations ---------------------------------------------------------------------

  lemma OverridesOfLonger(ls: seq<Listing>, l: Listing)
    ensures Overrides(ls + [l]) == AddListing(Overrides(ls), l)
  {
    assert (ls + [l])[..|ls + [l]| - 1] == ls;
  }

  lemma LongerSection(before: seq<Listing>, component: string, metrics: seq<Spec>, k: nat)
    requires k < |metrics|
    ensures before + SectionListings(component, metrics[..k + 1]) ==
            before + SectionListings(component, metrics[..k]) + [Listing(component, metrics[k])]
  {
    assert metrics[..k + 1][..k] == metrics[..k];
  }

  lemma LongerFile(before: seq<Listing>, sections: seq<Section>, j: nat)
    requires j < |sections|
    ensures before + FileListings(sections[..j + 1]) ==
            before + FileListings(sections[..j]) + SectionListings(sections[j].component, sections[j].metrics)
  {
    assert sections[..j + 1][..j] == sections[..j];
  }

  /** One entry of a file: the greatest priority so far, the last name and unit given, and static
      once any entry says so. */
  method AddEntry(overrides: map<string, Override>, component: string, sp: Spec)
    returns (r: map<string, Override>)
    ensures r == AddListing(overrides, Listing(component, sp))
  {
    var key := Key(component, sp.name);
    if key !in overrides {
      return overrides[key := Override(sp.priority, sp.cnName, sp.unit, sp.fixed)];
    }
    var existing := overrides[key];
    if PriorityValue(sp.priority) > PriorityValue(existing.priority) {
      existing := existing.(priority := sp.priority);
    }
    if sp.cnName != "" {
      existing := existing.(cnName := sp.cnName);
    }
    if sp.unit != "" {
      existing := existing.(unit := sp.unit);
    }
    if sp.fixed {
      existing := existing.(fixed := true);
    }
    r := overrides[key := existing];
  }

  /** The overrides of one section, added to those of the listings `before` it. */
  method AddSection(overrides: map<string, Override>, section: Section, ghost before: seq<Listing>)
    returns (r: map<string, Override>)
    requires overrides == Overrides(before)
    ensures r == Overrides(before + SectionListings(section.component, section.metrics))
  {
    r := overrides;
    ghost var soFar := before;
    for k := 0 to |section.metrics|
      invariant soFar == before + SectionListings(section.component, section.metrics[..k])
      invariant r == Overrides(soFar)
    {
      r := AddEntry(r, section.component, section.metrics[k]);
      ghost var l := Listing(section.component, section.metrics[k]);
      OverridesOfLonger(soFar, l);
      LongerSection(before, section.component, section.metrics, k);
      soFar := soFar + [l];
    }
    assert section.metrics[..|section.metrics|] == section.metrics;
  }

  method AddFile(overrides: map<string, Override>, sections: seq<Section>, ghost before: seq<Listing>)
    returns (r: map<string, Override>)
    requires overrides == Overrides(before)
    ensures r == Overrides(before + FileListings(sections))
  {
    r := overrides;
    ghost var soFar := before;
    for j := 0 to |sections|
      invariant soFar == before + FileListings(sections[..j])
      invariant r == Overrides(soFar)
    {
      r := AddSection(r, sections[j], soFar);
      LongerFile(before, sections, j);
      soFar := soFar + SectionListings(sections[j].component, sections[j].metrics);
    }
    assert sections[..|sections|] == sections;
  }

  /** The overrides after the first `i` files, all of which decode or are absent. */
  ghost predicate ReadSoFar(sources: seq<Source>, i: nat, overrides: map<string, Override>) {
    && i <= |sources|
    && (forall k :: 0 <= k < i ==> !sources[k].Undecodable?)
    && overrides == Overrides(Listings(sources[..i]))
  }

  lemma ReadAll(sources: seq<Source>, overrides: map<string, Override>)
    requires ReadSoFar(sources, |sources|, overrides)
    ensures Undecodable !in sources && overrides == Overrides(Listings(sources))
  {
    assert sources[..|sources|] == sources;
  }

  /** One file that is absent or decodes. */
  method ReadOne(sources: seq<Source>, i: nat, overrides: map<string, Override>) returns (r: map<string, Override>)
    requires i < |sources| && ReadSoFar(sources, i, overrides) && !sources[i].Undecodable?
    ensures ReadSoFar(sources, i + 1, r)
  {
    LongerListings(sources, i);
    r := overrides;
    if sources[i].Loaded? {
      r := AddFile(overrides, sources[i].sections, Listings(sources[..i]));
    }
  }

  /** Read every file; one that does not decode gives up. */
  method ReadOverrides(sources: seq<Source>) returns (r: Option<map<string, Override>>)
    ensures r == if Undecodable in sources then None else Some(Overrides(Listings(sources)))
  {
    var overrides: map<string, Override> := map[];
    for i := 0 to |sources|
      invariant ReadSoFar(sources, i, overrides)
    {
      if sources[i].Undecodable? {
        assert sources[i] == Undecodable;
        return None;
      }
      overrides := ReadOne(sources, i, overrides);
    }
    ReadAll(sources, overrides);
    r := Some(overrides);
  }

  lemma LongerListings(sources: seq<Source>, i: nat)
    requires i < |sources|
    ensures Listings(sources[..i + 1]) ==
            if sources[i].Loaded? then Listings(sources[..i]) + FileListings(sources[i].sections)
            else Listings(sources[..i])
  {
    assert sources[..i + 1][..i] == sources[..i];
    assert Listings(sources[..i]) + [] == Listings(sources[..i]);
  }

  /** Put the overrides into the catalogue, in whatever order the map yields them. */
  method ApplyOverrides(catalog: Catalog, overrides: map<string, Override>) returns (r: Catalog)
    ensures forall c, n :: Lookup(r, c, n) == Overridden(Lookup(catalog, c, n), overrides, c, n)
  {
    r := catalog;
    var left := overrides.Keys;
    while left != {}
      invariant left <= overrides.Keys
      invariant PartlyApplied(catalog, overrides, left, r)
    {
      var key :| key in left;
      ghost var was := r;
      SplitIsKey(key);
      match SplitKey(key) {
        case None =>
        case Some(parts) =>
          var m := if parts.0 in r then r[parts.0] else map[];
          var base := if parts.1 in m then Some(m[parts.1]) else None;
          r := r[parts.0 := m[parts.1 := Applied(base, parts.1, overrides[key])]];
      }
      OneMoreApplied(catalog, overrides, left, was, key, r);
      left := left - {key};
    }
  }

  /** The overrides not in `left` are in `r`. */
  ghost predicate PartlyApplied(catalog: Catalog, overrides: map<string, Override>, left: set<string>, r: Catalog) {
    forall c, n :: Lookup(r, c, n) ==
      if Key(c, n) in left then Lookup(catalog, c, n) else Overridden(Lookup(catalog, c, n), overrides, c, n)
  }

  function PutOverride(r: Catalog, key: string, ov: Override): Catalog {
    match SplitKey(key)
    case None => r
    case Some(parts) =>
      var m := if parts.0 in r then r[parts.0] else map[];
      r[parts.0 := m[parts.1 := Applied(Lookup(r, parts.0, parts.1), parts.1, ov)]]
  }

  lemma OneMoreApplied(catalog: Catalog, overrides: map<string, Override>, left: set<string>,
                       was: Catalog, key: string, now: Catalog)
    requires key in left && left <= overrides.Keys
    requires PartlyApplied(catalog, overrides, left, was) && now == PutOverride(was, key, overrides[key])
    ensures PartlyApplied(catalog, overrides, left - {key}, now)
  {
    SplitIsKey(key);
    forall c, n
      ensures Lookup(now, c, n) ==
              if Key(c, n) in left - {key} then Lookup(catalog, c, n)
              else Overridden(Lookup(catalog, c, n), overrides, c, n)
    {
      SplitUndoesKey(c, n);
      assert Lookup(was, c, n) ==
        if Key(c, n) in left then Lookup(catalog, c, n) else Overridden(Lookup(catalog, c, n), overrides, c, n);
    }
  }

  /** The package variables. */
  class Selection {
    var catalog: Option<Catalog>
    var scope: set<string>
    var scoped: bool
    var threshold: int

    function TheGate(): Gate
      reads this
    {
      Gate(catalog, scope, scoped, threshold)
    }

    constructor (catalog: Option<Catalog>)
      ensures TheGate() == Gate(catalog, {}, false, 0)
    {
      this.catalog := catalog;
      scope, scoped, threshold := {}, false, 0;
    }

    /** `SetFeatureScope`. A file that is absent or does not decode contributes nothing. */
    method SetFeatureScope(sources: seq<Source>)
      modifies `scope, `scoped
      ensures scope == KeysOf(Listings(sources)) && scoped == (scope != {})
    {
      scope, scoped := {}, false;
      for i := 0 to |sources|
        invariant scope == KeysOf(Listings(sources[..i])) && !scoped
      {
        LongerListings(sources, i);
        if sources[i].Loaded? {
          var more := ScopeOfFile(sources[i].sections);
          KeysOfConcat(Listings(sources[..i]), FileListings(sources[i].sections));
          scope := scope + more;
        }
      }
      assert sources[..|sources|] == sources;
      if scope != {} {
        scoped := true;
      }
    }

    method SetCollectionThreshold(p: string)
      modifies `threshold
      ensures threshold == PriorityValue(p)
    {
      threshold := PriorityValue(p);
    }

    /** `LoadFeatureOverrides`. Nothing changes before `Init` or when a file does not decode. */
    method LoadFeatureOverrides(sources: seq<Source>) returns (ok: bool)
      modifies `catalog
      ensures ok == (old(catalog).Some? && Undecodable !in sources)
      ensures !ok ==> catalog == old(catalog)
      ensures ok ==> catalog.Some? && LoadedFrom(old(catalog).value, Listings(sources), catalog.value)
    {
      if catalog.None? {
        return false;
      }
      var overrides := ReadOverrides(sources);
      if overrides.None? {
        return false;
      }
      var after := ApplyOverrides(catalog.value, overrides.value);
      catalog := Some(after);
      ok := true;
    }

    /** `AnyWanted`. */
    method AnyWanted(component: string, names: seq<string>) returns (any: bool)
      ensures any <==> SomeWanted(TheGate(), component, names)
    {
      for i := 0 to |names|
        invariant forall k :: 0 <= k < i ==> !TheGate().IsWanted(component, names[k])
      {
        if TheGate().IsWanted(component, names[i]) {
          return true;
        }
      }
      any := false;
    }

    /** `Filter`. */
    method Filter(batch: seq<Metric>) returns (out: seq<Metric>)
      ensures out == Kept(TheGate(), batch)
    {
      if catalog.None? {
        AllKept(TheGate(), batch);
        return batch;
      }
      out := [];
      for i := 0 to |batch|
        invariant out == Kept(TheGate(), batch[..i])
      {
        assert batch[..i + 1][..i] == batch[..i];
        if TheGate().Selected(batch[i].component, batch[i].name) {
          out := out + [batch[i]];
        }
      }
      assert batch[..|batch|] == batch;
    }
  }

  lemma {:induction false} AllKept(g: Gate, batch: seq<Metric>)
    requires g.catalog.None?
    ensures Kept(g, batch) == batch
  {
    if batch != [] {
      AllKept(g, batch[..|batch| - 1]);
    }
  }

  lemma {:induction false} KeysOfConcat(a: seq<Listing>, b: seq<Listing>)
    ensures KeysOf(a + b) == KeysOf(a) + KeysOf(b)
  {
    if b == [] {
      assert a + b == a;
    } else {
      assert (a + b)[..|a + b| - 1] == a + b[..|b| - 1];
      KeysOfConcat(a, b[..|b| - 1]);
    }
  }

  method ScopeOfFile(sections: seq<Section>) returns (r: set<string>)
    ensures r == KeysOf(FileListings(sections))
  {
    r := {};
    for j := 0 to |sections|
      invariant r == KeysOf(FileListings(sections[..j]))
    {
      assert sections[..j + 1][..j] == sections[..j];
      var more := ScopeOfSection(sections[j].component, sections[j].metrics);
      KeysOfConcat(FileListings(sections[..j]), SectionListings(sections[j].component, sections[j].metrics));
      r := r + more;
    }
    assert sections[..|sections|] == sections;
  }

  method ScopeOfSection(component: string, metrics: seq<Spec>) returns (r: set<string>)
    ensures r == KeysOf(SectionListings(component, metrics))
  {
    r := {};
    for k := 0 to |metrics|
      invariant r == KeysOf(SectionListings(component, metrics[..k]))
    {
      assert metrics[..k + 1][..k] == metrics[..k];
      r := r + {Key(component, metrics[k].name)};
    }
    assert metrics[..|metrics|] == metrics;
  }
}
