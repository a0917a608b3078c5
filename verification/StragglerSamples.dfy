/** What the sample of a batch says, told on the batch: features/stragglerout/sample.go. */
module StragglerSamples {
  import opened GoText
  import opened StragglerKeys

  /** The metric gives a value for the field of the key, with `n` chips to a card. */
  predicate Gives(m: Metric, fields: Fields, n: int, key: string, field: string) {
    && m.component == "npu" && m.name in fields && fields[m.name] == field
    && (m.deviceId != "" || m.npuId != "") && HasKey(m, n, key)
  }

  /** The device label if there is one; the number of the chip over all cards if card and chip are numbers and
      some chip has been seen; and else the card label. */
  predicate HasKey(m: Metric, n: int, key: string) {
    var card, chip := Atoi(m.npuId), Atoi(m.chipId);
    if m.deviceId != "" then key == m.deviceId
    else if card.Some? && chip.Some? && n > 0 then key == Itoa(card.value * n + chip.value)
    else key == m.npuId
  }

  /** Metric `i` is the last that gives one. */
  predicate LastGiven(batch: seq<Metric>, fields: Fields, n: int, key: string, field: string, i: nat) {
    && i < |batch| && Gives(batch[i], fields, n, key, field)
    && forall k :: i < k < |batch| ==> !Gives(batch[k], fields, n, key, field)
  }

  /** The metric is the usage of one CPU or core. */
  predicate GivesUsage(m: Metric, name: string) {
    && m.component == "cpu" && m.name == "usage" && name != "" && name != "total"
    && name == (if m.cpu != "" then m.cpu else m.core)
  }

  predicate LastUsageAt(batch: seq<Metric>, name: string, i: nat) {
    i < |batch| && GivesUsage(batch[i], name) && forall k :: i < k < |batch| ==> !GivesUsage(batch[k], name)
  }

  lemma KeyExactly(m: Metric, n: int, key: string)
    requires m.deviceId != "" || m.npuId != ""
    ensures HasKey(m, n, key) <==> DeviceKey(m, n) == key
  {
  }

  lemma {:induction false} LastGivenIsValue(batch: seq<Metric>, fields: Fields, n: int, key: string, field: string, i: nat)
    requires LastGiven(batch, fields, n, key, field, i)
    ensures LastValue(Kpis(batch, fields), fields, n, key, field) == Some(batch[i].value)
  {
    var last := |batch| - 1;
    var before, m := batch[..last], batch[last];
    assert batch == before + [m];
    LongerBatch(before, m, fields);
    if IsKpi(m, fields) {
      KeyExactly(m, n, key);
      var kpis := Kpis(before, fields);
      assert (kpis + [m])[..|kpis|] == kpis;
    }
    if i < last {
      assert LastGiven(before, fields, n, key, field, i);
      LastGivenIsValue(before, fields, n, key, field, i);
    }
  }

  lemma {:induction false} NoneGivenNoValue(batch: seq<Metric>, fields: Fields, n: int, key: string, field: string)
    requires forall i :: 0 <= i < |batch| ==> !Gives(batch[i], fields, n, key, field)
    ensures LastValue(Kpis(batch, fields), fields, n, key, field).None?
  {
    if batch != [] {
      var last := |batch| - 1;
      var before, m := batch[..last], batch[last];
      assert batch == before + [m];
      LongerBatch(before, m, fields);
      NoneGivenNoValue(before, fields, n, key, field);
      if IsKpi(m, fields) {
        KeyExactly(m, n, key);
        var kpis := Kpis(before, fields);
        assert (kpis + [m])[..|kpis|] == kpis;
      }
    }
  }

  lemma UsageExactly(m: Metric, name: string)
    ensures GivesUsage(m, name) <==> IsCpuUsage(m) && CpuName(m) == name
  {
  }

  lemma {:induction false} LastUsageIsUsage(batch: seq<Metric>, name: string, i: nat)
    requires LastUsageAt(batch, name, i)
    ensures LastUsage(batch, name) == Some(batch[i].value)
  {
    var last := |batch| - 1;
    UsageExactly(batch[last], name);
    if i < last {
      assert LastUsageAt(batch[..last], name, i);
      LastUsageIsUsage(batch[..last], name, i);
    }
  }

  lemma {:induction false} NoUsageGiven(batch: seq<Metric>, name: string)
    requires forall i :: 0 <= i < |batch| ==> !GivesUsage(batch[i], name)
    ensures LastUsage(batch, name).None?
  {
    if batch != [] {
      UsageExactly(batch[|batch| - 1], name);
      NoUsageGiven(batch[..|batch| - 1], name);
    }
  }

  lemma UsedExactly(usage: map<string, real>, batch: seq<Metric>, name: string)
    requires Uses(usage, batch)
    ensures name in usage <==> LastUsage(batch, name).Some?
    ensures name in usage ==> usage[name] == LastUsage(batch, name).value
  {
    assert (if name in usage then Some(usage[name]) else None) == LastUsage(batch, name);
  }

  /** `time` is the first time of the batch that is not zero, or zero if there is none. */
  predicate IsFirstTime(batch: seq<Metric>, time: int) {
    if time == 0 then forall i :: 0 <= i < |batch| ==> batch[i].time == 0
    else exists i :: 0 <= i < |batch| && batch[i].time == time && forall k :: 0 <= k < i ==> batch[k].time == 0
  }

  lemma {:induction false} TimeIsFirst(batch: seq<Metric>)
    ensures IsFirstTime(batch, TimeOf(batch))
  {
    if batch != [] {
      var last := |batch| - 1;
      TimeIsFirst(batch[..last]);
      if TimeOf(batch[..last]) != 0 {
        var i :| 0 <= i < last && batch[..last][i].time == TimeOf(batch) && forall k :: 0 <= k < i ==> batch[..last][k].time == 0;
        assert batch[i].time == TimeOf(batch);
        assert forall k :: 0 <= k < i ==> batch[k] == batch[..last][k];
      } else {
        assert forall k :: 0 <= k < last ==> batch[k] == batch[..last][k];
        assert batch[last].time == TimeOf(batch);
      }
    }
  }

  /** The sample of a batch holds, for each field of each key, the last value the batch gives for it, for each
      CPU its last usage, and nothing else; its time is the first that is not zero. */
  lemma SampleExactly(s: Sample, batch: seq<Metric>, fields: Fields, n: int)
    requires Records(s, batch, fields, n)
    ensures forall key, field, i: nat :: LastGiven(batch, fields, n, key, field, i) ==>
              key in s.values && field in s.values[key] && s.values[key][field] == batch[i].value
    ensures forall key, field :: (forall i :: 0 <= i < |batch| ==> !Gives(batch[i], fields, n, key, field)) ==>
              key !in s.values || field !in s.values[key]
    ensures forall name, i: nat :: LastUsageAt(batch, name, i) ==> name in s.usage && s.usage[name] == batch[i].value
    ensures forall name :: (forall i :: 0 <= i < |batch| ==> !GivesUsage(batch[i], name)) ==> name !in s.usage
    ensures IsFirstTime(batch, s.time)
  {
    forall key, field, i: nat | LastGiven(batch, fields, n, key, field, i)
      ensures key in s.values && field in s.values[key] && s.values[key][field] == batch[i].value
    {
      LastGivenIsValue(batch, fields, n, key, field, i);
      assert ValueOf(s.values, key, field) == Some(batch[i].value);
    }
    forall key, field | forall i :: 0 <= i < |batch| ==> !Gives(batch[i], fields, n, key, field)
      ensures key !in s.values || field !in s.values[key]
    {
      NoneGivenNoValue(batch, fields, n, key, field);
      assert ValueOf(s.values, key, field).None?;
    }
    forall name, i: nat | LastUsageAt(batch, name, i)
      ensures name in s.usage && s.usage[name] == batch[i].value
    {
      LastUsageIsUsage(batch, name, i);
      UsedExactly(s.usage, batch, name);
    }
    forall name | forall i :: 0 <= i < |batch| ==> !GivesUsage(batch[i], name)
      ensures name !in s.usage
    {
      NoUsageGiven(batch, name);
      UsedExactly(s.usage, batch, name);
    }
    TimeIsFirst(batch);
  }

  predicate NumberedChip(kpis: seq<Metric>, chip: int) {
    exists i :: 0 <= i < |kpis| && Atoi(kpis[i].chipId) == Some(chip)
  }

  /** The running maximum is the greatest chip number that has been seen, or the one before. */
  lemma {:induction false} MaxChipExactly(start: int, kpis: seq<Metric>)
    requires start >= -1
    ensures var r := MaxChip(start, kpis);
      && (r == start || NumberedChip(kpis, r)) && r >= start
      && forall chip :: NumberedChip(kpis, chip) ==> chip <= r
  {
    if kpis != [] {
      var last := |kpis| - 1;
      MaxChipExactly(start, kpis[..last]);
      var before, r := MaxChip(start, kpis[..last]), MaxChip(start, kpis);
      forall chip | NumberedChip(kpis, chip)
        ensures chip <= r
      {
        var i :| 0 <= i < |kpis| && Atoi(kpis[i].chipId) == Some(chip);
        assert i < last ==> Atoi(kpis[..last][i].chipId) == Some(chip);
        assert i < last ==> NumberedChip(kpis[..last], chip);
      }
      if NumberedChip(kpis[..last], before) {
        var i :| 0 <= i < last && Atoi(kpis[..last][i].chipId) == Some(before);
        assert Atoi(kpis[i].chipId) == Some(before);
      }
      assert Atoi(kpis[last].chipId) == Some(r) ==> NumberedChip(kpis, r);
    }
  }
}
