/** What a catalogue entry is once the feature files are in, told on what the files list, in the order in which
    they are read: internal/metrics/metrics.go. */
module MetricListings {
  import opened GoText
  import opened MetricCatalog

  /** The listing is about that metric of that component. */
  predicate IsAbout(l: Listing, component: string, name: string) {
    l.component == component && l.spec.name == name
  }

  predicate Listed(ls: seq<Listing>, component: string, name: string) {
    exists i :: 0 <= i < |ls| && IsAbout(ls[i], component, name)
  }

  /** Components hold no NUL, as file formats see to. */
  predicate Separable(ls: seq<Listing>, component: string) {
    NUL !in component && forall i :: 0 <= i < |ls| ==> NUL !in ls[i].component
  }

  predicate AnyStatic(ls: seq<Listing>, component: string, name: string) {
    exists i :: 0 <= i < |ls| && IsAbout(ls[i], component, name) && ls[i].spec.fixed
  }

  /** Listing `i` is the last about the metric that gives a display name. */
  predicate LastNamed(ls: seq<Listing>, component: string, name: string, i: nat) {
    && i < |ls| && IsAbout(ls[i], component, name) && ls[i].spec.cnName != ""
    && forall k :: i < k < |ls| && IsAbout(ls[k], component, name) ==> ls[k].spec.cnName == ""
  }

  predicate LastMeasured(ls: seq<Listing>, component: string, name: string, i: nat) {
    && i < |ls| && IsAbout(ls[i], component, name) && ls[i].spec.unit != ""
    && forall k :: i < k < |ls| && IsAbout(ls[k], component, name) ==> ls[k].spec.unit == ""
  }

  /** Listing `i` is the first about the metric whose priority none about it exceeds. */
  predicate FirstHighest(ls: seq<Listing>, component: string, name: string, i: nat) {
    && i < |ls| && IsAbout(ls[i], component, name)
    && (forall k :: 0 <= k < |ls| && IsAbout(ls[k], component, name) ==> NoLower(ls[i].spec.priority, ls[k].spec.priority))
    && (forall k :: 0 <= k < i && IsAbout(ls[k], component, name) ==> !NoLower(ls[k].spec.priority, ls[i].spec.priority))
  }

  /** Either `text` comes from the last listing that gives one, or none does and it is blank. */
  ghost predicate NameFits(ls: seq<Listing>, component: string, name: string, text: string) {
    if text == "" then forall i :: 0 <= i < |ls| && IsAbout(ls[i], component, name) ==> ls[i].spec.cnName == ""
    else exists i: nat :: LastNamed(ls, component, name, i) && ls[i].spec.cnName == text
  }

  ghost predicate UnitFits(ls: seq<Listing>, component: string, name: string, text: string) {
    if text == "" then forall i :: 0 <= i < |ls| && IsAbout(ls[i], component, name) ==> ls[i].spec.unit == ""
    else exists i: nat :: LastMeasured(ls, component, name, i) && ls[i].spec.unit == text
  }

  ghost predicate PriorityFits(ls: seq<Listing>, component: string, name: string, priority: string) {
    exists i: nat :: FirstHighest(ls, component, name, i) && ls[i].spec.priority == priority
  }

  ghost predicate OverrideFits(ls: seq<Listing>, component: string, name: string, ov: Override) {
    && (ov.fixed <==> AnyStatic(ls, component, name))
    && NameFits(ls, component, name, ov.cnName) && UnitFits(ls, component, name, ov.unit)
    && PriorityFits(ls, component, name, ov.priority)
  }

  lemma KeyIsAbout(l: Listing, component: string, name: string)
    requires NUL !in component && NUL !in l.component
    ensures KeyOf(l) == Key(component, name) <==> IsAbout(l, component, name)
  {
    if KeyOf(l) == Key(component, name) {
      KeyIsInjective(l.component, l.spec.name, component, name);
    }
  }

  // ----- one more listing ---------------------------------------------------------------------------------------

  lemma ListedOneMore(ls: seq<Listing>, l: Listing, component: string, name: string)
    ensures Listed(ls + [l], component, name) <==> Listed(ls, component, name) || IsAbout(l, component, name)
    ensures AnyStatic(ls + [l], component, name) <==>
            AnyStatic(ls, component, name) || (IsAbout(l, component, name) && l.spec.fixed)
  {
    var all := ls + [l];
    assert all[|ls|] == l && forall i :: 0 <= i < |ls| ==> all[i] == ls[i];
    if Listed(ls, component, name) {
      var i :| 0 <= i < |ls| && IsAbout(ls[i], component, name);
      assert IsAbout(all[i], component, name);
    }
    if AnyStatic(ls, component, name) {
      var i :| 0 <= i < |ls| && IsAbout(ls[i], component, name) && ls[i].spec.fixed;
      assert IsAbout(all[i], component, name);
    }
  }

  lemma NameOneMore(ls: seq<Listing>, l: Listing, component: string, name: string, text: string)
    requires NameFits(ls, component, name, text)
    ensures NameFits(ls + [l], component, name,
                     if IsAbout(l, component, name) && l.spec.cnName != "" then l.spec.cnName else text)
  {
    var all := ls + [l];
    assert all[|ls|] == l && forall i :: 0 <= i < |ls| ==> all[i] == ls[i];
    if IsAbout(l, component, name) && l.spec.cnName != "" {
      assert LastNamed(all, component, name, |ls|);
    } else if text != "" {
      var i: nat :| LastNamed(ls, component, name, i) && ls[i].spec.cnName == text;
      assert LastNamed(all, component, name, i);
    }
  }

  lemma UnitOneMore(ls: seq<Listing>, l: Listing, component: string, name: string, text: string)
    requires UnitFits(ls, component, name, text)
    ensures UnitFits(ls + [l], component, name,
                     if IsAbout(l, component, name) && l.spec.unit != "" then l.spec.unit else text)
  {
    var all := ls + [l];
    assert all[|ls|] == l && forall i :: 0 <= i < |ls| ==> all[i] == ls[i];
    if IsAbout(l, component, name) && l.spec.unit != "" {
      assert LastMeasured(all, component, name, |ls|);
    } else if text != "" {
      var i: nat :| LastMeasured(ls, component, name, i) && ls[i].spec.unit == text;
      assert LastMeasured(all, component, name, i);
    }
  }

  lemma HighestOneMore(ls: seq<Listing>, l: Listing, component: string, name: string, i: nat)
    requires FirstHighest(ls, component, name, i)
    ensures var higher := IsAbout(l, component, name) && PriorityValue(l.spec.priority) > PriorityValue(ls[i].spec.priority);
      FirstHighest(ls + [l], component, name, if higher then |ls| else i)
  {
    var all := ls + [l];
    assert all[|ls|] == l && forall k :: 0 <= k < |ls| ==> all[k] == ls[k];
    forall k | 0 <= k < |all|
      ensures NoLower(all[i].spec.priority, all[k].spec.priority) <==>
              PriorityValue(all[i].spec.priority) >= PriorityValue(all[k].spec.priority)
      ensures NoLower(l.spec.priority, all[k].spec.priority) <==>
              PriorityValue(l.spec.priority) >= PriorityValue(all[k].spec.priority)
      ensures NoLower(all[k].spec.priority, l.spec.priority) <==>
              PriorityValue(all[k].spec.priority) >= PriorityValue(l.spec.priority)
    {
      NoLowerIsByValue(all[i].spec.priority, all[k].spec.priority);
      NoLowerIsByValue(l.spec.priority, all[k].spec.priority);
      NoLowerIsByValue(all[k].spec.priority, l.spec.priority);
    }
  }

  lemma FirstListing(ls: seq<Listing>, l: Listing, component: string, name: string)
    requires !Listed(ls, component, name) && IsAbout(l, component, name)
    ensures OverrideFits(ls + [l], component, name, First(l.spec))
  {
    var all := ls + [l];
    assert all[|ls|] == l && forall i :: 0 <= i < |ls| ==> all[i] == ls[i];
    ListedOneMore(ls, l, component, name);
    NameOneMore(ls, l, component, name, "");
    UnitOneMore(ls, l, component, name, "");
    NoLowerIsByValue(l.spec.priority, l.spec.priority);
    assert FirstHighest(all, component, name, |ls|);
  }

  lemma AnotherListing(ls: seq<Listing>, l: Listing, component: string, name: string, ov: Override)
    requires OverrideFits(ls, component, name, ov) && IsAbout(l, component, name)
    ensures OverrideFits(ls + [l], component, name, Join(ov, l.spec))
  {
    ListedOneMore(ls, l, component, name);
    NameOneMore(ls, l, component, name, ov.cnName);
    UnitOneMore(ls, l, component, name, ov.unit);
    var i: nat :| FirstHighest(ls, component, name, i) && ls[i].spec.priority == ov.priority;
    HighestOneMore(ls, l, component, name, i);
    assert (ls + [l])[i] == ls[i] && (ls + [l])[|ls|] == l;
  }

  lemma OtherListing(ls: seq<Listing>, l: Listing, component: string, name: string, ov: Override)
    requires OverrideFits(ls, component, name, ov) && !IsAbout(l, component, name)
    ensures OverrideFits(ls + [l], component, name, ov)
  {
    ListedOneMore(ls, l, component, name);
    NameOneMore(ls, l, component, name, ov.cnName);
    UnitOneMore(ls, l, component, name, ov.unit);
    var i: nat :| FirstHighest(ls, component, name, i) && ls[i].spec.priority == ov.priority;
    HighestOneMore(ls, l, component, name, i);
    assert (ls + [l])[i] == ls[i];
  }

  // ----- all of them ----------------------------------------------------------------------------------------------

  /** The merged override of a metric: static if any listing is, the display name and the unit of the last
      listing that gives one, and the priority of the first listing that none exceeds. */
  lemma {:induction false} OverrideExactly(ls: seq<Listing>, component: string, name: string)
    requires Separable(ls, component)
    ensures Key(component, name) in Overrides(ls) <==> Listed(ls, component, name)
    ensures Listed(ls, component, name) ==> OverrideFits(ls, component, name, Overrides(ls)[Key(component, name)])
  {
    if ls != [] {
      var before, l := ls[..|ls| - 1], ls[|ls| - 1];
      assert ls == before + [l];
      OverrideExactly(before, component, name);
      ListedOneMore(before, l, component, name);
      KeyIsAbout(l, component, name);
      var key := Key(component, name);
      if IsAbout(l, component, name) {
        if Listed(before, component, name) {
          AnotherListing(before, l, component, name, Overrides(before)[key]);
        } else {
          FirstListing(before, l, component, name);
        }
      } else if Listed(before, component, name) {
        OtherListing(before, l, component, name, Overrides(before)[key]);
      }
    }
  }

  /** A catalogue entry after the feature files: as it was if they do not list it; else with what they give,
      and what was there where they give nothing, and static if it was or they say so. */
  ghost predicate EntryFits(was: Option<Spec>, ls: seq<Listing>, component: string, name: string, now: Option<Spec>) {
    if !Listed(ls, component, name) then now == was
    else
      var base := if was.Some? then was.value else Spec(name, "", "", "", false);
      && now.Some? && now.value.name == base.name
      && (now.value.fixed <==> base.fixed || AnyStatic(ls, component, name))
      && (exists p :: PriorityFits(ls, component, name, p) && now.value.priority == if p != "" then p else base.priority)
      && (exists t :: NameFits(ls, component, name, t) && now.value.cnName == if t != "" then t else base.cnName)
      && (exists t :: UnitFits(ls, component, name, t) && now.value.unit == if t != "" then t else base.unit)
  }

  lemma LoadedEntryExactly(before: Catalog, ls: seq<Listing>, after: Catalog, component: string, name: string)
    requires LoadedFrom(before, ls, after) && Separable(ls, component)
    ensures EntryFits(Lookup(before, component, name), ls, component, name, Lookup(after, component, name))
  {
    OverrideExactly(ls, component, name);
    assert Lookup(after, component, name) == Overridden(Lookup(before, component, name), Overrides(ls), component, name);
    if Listed(ls, component, name) {
      var ov := Overrides(ls)[Key(component, name)];
      assert PriorityFits(ls, component, name, ov.priority) && NameFits(ls, component, name, ov.cnName);
      assert UnitFits(ls, component, name, ov.unit);
    }
  }

  // ----- the files ------------------------------------------------------------------------------------------------

  /** Entry `k` of section `j` of file `i` is the listing. */
  predicate IsEntry(sources: seq<Source>, l: Listing, i: nat, j: nat, k: nat) {
    && i < |sources| && sources[i].Loaded? && j < |sources[i].sections|
    && k < |sources[i].sections[j].metrics|
    && l == Listing(sources[i].sections[j].component, sources[i].sections[j].metrics[k])
  }

  lemma {:induction false} SectionHas(component: string, metrics: seq<Spec>, l: Listing)
    ensures l in SectionListings(component, metrics) <==> l.component == component && l.spec in metrics
  {
    if metrics != [] {
      SectionHas(component, metrics[..|metrics| - 1], l);
      assert metrics == metrics[..|metrics| - 1] + [metrics[|metrics| - 1]];
    }
  }

  lemma {:induction false} FileHas(sections: seq<Section>, l: Listing)
    ensures l in FileListings(sections) <==>
            exists j :: 0 <= j < |sections| && l.component == sections[j].component && l.spec in sections[j].metrics
  {
    if sections != [] {
      var last := |sections| - 1;
      FileHas(sections[..last], l);
      SectionHas(sections[last].component, sections[last].metrics, l);
      assert forall j :: 0 <= j < last ==> sections[..last][j] == sections[j];
    }
  }

  lemma {:induction false} FilesHave(sources: seq<Source>, l: Listing)
    ensures l in Listings(sources) <==>
            exists i :: 0 <= i < |sources| && sources[i].Loaded? && l in FileListings(sources[i].sections)
  {
    if sources != [] {
      var last := |sources| - 1;
      FilesHave(sources[..last], l);
      assert forall i :: 0 <= i < last ==> sources[..last][i] == sources[i];
    }
  }

  /** The listings are exactly the entries of the sections of the files that decode. */
  lemma ListingsExactly(sources: seq<Source>, l: Listing)
    ensures l in Listings(sources) <==> exists i: nat, j: nat, k: nat :: IsEntry(sources, l, i, j, k)
  {
    FilesHave(sources, l);
    if l in Listings(sources) {
      var i :| 0 <= i < |sources| && sources[i].Loaded? && l in FileListings(sources[i].sections);
      FileHas(sources[i].sections, l);
      var j :| 0 <= j < |sources[i].sections| && l.component == sources[i].sections[j].component &&
               l.spec in sources[i].sections[j].metrics;
      var k :| 0 <= k < |sources[i].sections[j].metrics| && sources[i].sections[j].metrics[k] == l.spec;
      assert IsEntry(sources, l, i, j, k);
    }
    if i: nat, j: nat, k: nat :| IsEntry(sources, l, i, j, k) {
      FileHas(sources[i].sections, l);
    }
  }
}
