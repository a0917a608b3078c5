/** The KPI mapper of features/stragglerout/sample.go: which device each NPU metric is recorded under. */
module StragglerKeys {
  import opened GoNumbers
  import opened GoText

  // ----- strconv.Atoi and strconv.Itoa ----------------------------------------------------------------

  predicate IsDigit(c: char) {
    '0' <= c <= '9'
  }

  function Unsigned(s: string): Option<nat>
    requires s != ""
  {
    var c := s[|s| - 1];
    if !IsDigit(c) then None
    else if |s| == 1 then Some(c as int - '0' as int)
    else
      match Unsigned(s[..|s| - 1])
      case None => None
      case Some(v) => Some(10 * v + (c as int - '0' as int))
  }

  function Atoi(s: string): Option<int> {
    if s == "" then None
    else if s[0] == '-' || s[0] == '+' then
      if |s| == 1 then None
      else
        match Unsigned(s[1..])
        case None => None
        case Some(v) => var n: int := v; Some(if s[0] == '-' then -n else n)
    else
      match Unsigned(s)
      case None => None
      case Some(v) => Some(v)
  }

  function Decimal(n: nat): (s: string)
    ensures s != "" && IsDigit(s[0])
  {
    if n < 10 then [Digit(n)] else Decimal(n / 10) + [Digit(n % 10)]
  }

  function Itoa(n: int): string {
    if n < 0 then "-" + Decimal(-n) else Decimal(n)
  }

  lemma {:induction false} UnsignedOfDecimal(n: nat)
    ensures Unsigned(Decimal(n)) == Some(n)
  {
    if n >= 10 {
      UnsignedOfDecimal(n / 10);
      var s := Decimal(n);
      assert s[..|s| - 1] == Decimal(n / 10);
    }
  }

  lemma AtoiOfDecimal(n: nat)
    ensures Atoi(Decimal(n)) == Some(n)
  {
    UnsignedOfDecimal(n);
    assert Decimal(n)[0] != '-' && Decimal(n)[0] != '+';
  }

  predicate AllDigits(s: string) {
    forall k :: 0 <= k < |s| ==> IsDigit(s[k])
  }

  lemma {:induction false} UnsignedExactly(s: string)
    requires s != ""
    ensures Unsigned(s).Some? <==> AllDigits(s)
  {
    var before, c := s[..|s| - 1], s[|s| - 1];
    assert s == before + [c];
    if |s| > 1 {
      UnsignedExactly(before);
    }
  }

  /** Which texts are numbers: digits, after a sign or not. */
  lemma AtoiExactly(s: string)
    ensures Atoi(s).Some? <==>
            || (s != "" && AllDigits(s))
            || (|s| > 1 && (s[0] == '-' || s[0] == '+') && AllDigits(s[1..]))
  {
    if s != "" {
      UnsignedExactly(s);
      if |s| > 1 {
        UnsignedExactly(s[1..]);
      }
    }
  }

  /** Which number a text is: one digit more makes it ten times as large, and more by the digit. */
  lemma AtoiByDigits(s: string, d: nat)
    requires AllDigits(s) && d < 10
    ensures Atoi([Digit(d)]) == Some(d)
    ensures s != "" ==> Atoi(s).Some? && Atoi(s + [Digit(d)]) == Some(10 * Atoi(s).value + d)
    ensures s != "" ==> Atoi("+" + s) == Atoi(s) && Atoi("-" + s) == Some(-Atoi(s).value)
  {
    if s != "" {
      UnsignedExactly(s);
      assert (s + [Digit(d)])[..|s|] == s;
      assert ("+" + s)[1..] == s && ("-" + s)[1..] == s;
    }
  }

  lemma AtoiOfNegative(n: int)
    requires n < 0
    ensures Atoi("-" + Decimal(-n)) == Some(n)
  {
    UnsignedOfDecimal(-n);
    assert ("-" + Decimal(-n))[1..] == Decimal(-n);
  }

  lemma AtoiOfItoa(n: int)
    ensures Atoi(Itoa(n)) == Some(n)
  {
    if n < 0 {
      AtoiOfNegative(n);
    } else {
      AtoiOfDecimal(n);
    }
  }

  lemma {:induction false} DecimalHasNoLeadingZero(n: nat)
    ensures AllDigits(Decimal(n)) && (n > 0 ==> Decimal(n)[0] != '0')
  {
    if n >= 10 {
      DecimalHasNoLeadingZero(n / 10);
    }
  }

  /** How a number is spelled: its digits without a leading zero, after a minus if it is negative. */
  lemma ItoaExactly(n: int)
    ensures Itoa(0) == "0" && Atoi(Itoa(n)) == Some(n)
    ensures n > 0 ==> AllDigits(Itoa(n)) && Itoa(n)[0] != '0'
    ensures n < 0 ==> Itoa(n) == "-" + Itoa(-n)
  {
    AtoiOfItoa(n);
    if n > 0 {
      DecimalHasNoLeadingZero(n);
    }
  }

  // ----- the key of one metric ------------------------------------------------------------------------

  /** A collected metric; a label it does not carry is empty. */
  datatype Metric = Metric(component: string, name: string, value: real, time: int,
                           deviceId: string, npuId: string, chipId: string, cpu: string, core: string)

  /** `deviceKey`. */
  function DeviceKey(m: Metric, chipsPerCard: int): string {
    if m.deviceId != "" then m.deviceId
    else if m.npuId == "" then ""
    else if Atoi(m.npuId).None? then m.npuId
    else if m.chipId == "" || chipsPerCard <= 0 then m.npuId
    else if Atoi(m.chipId).None? then m.npuId
    else Itoa(Atoi(m.npuId).value * chipsPerCard + Atoi(m.chipId).value)
  }

  /** What a metric is about: a numbered chip of a numbered card, or whatever its labels name. */
  datatype Subject = Chip(card: int, chip: int) | Named(id: string)

  function SubjectOf(m: Metric): Subject {
    if m.deviceId != "" then Named(m.deviceId)
    else if Atoi(m.npuId).None? || Atoi(m.chipId).None? then Named(m.npuId)
    else Chip(Atoi(m.npuId).value, Atoi(m.chipId).value)
  }

  function KeyOf(s: Subject, chipsPerCard: int): string {
    match s
    case Chip(card, chip) => Itoa(card * chipsPerCard + chip)
    case Named(id) => id
  }

  /** Once a chip has been seen, the key depends only on the subject. */
  lemma KeyIsOfSubject(m: Metric, chipsPerCard: int)
    requires chipsPerCard > 0
    ensures DeviceKey(m, chipsPerCard) == KeyOf(SubjectOf(m), chipsPerCard)
  {
  }

  lemma SlotIsUnique(card: int, chip: int, otherCard: int, otherChip: int, n: int)
    requires 0 <= chip < n && 0 <= otherChip < n
    requires card * n + chip == otherCard * n + otherChip
    ensures card == otherCard && chip == otherChip
  {
    if card > otherCard {
      MultiplesApart(card, otherCard, n);
    } else if card < otherCard {
      MultiplesApart(otherCard, card, n);
    }
  }

  predicate Shares(s: Subject, t: Subject, n: int) {
    match (s, t)
    case (Chip(_, _), Chip(_, _)) => s == t
    case (Named(a), Named(b)) => a == b
    case (Chip(card, chip), Named(id)) => id == Itoa(card * n + chip)
    case (Named(id), Chip(card, chip)) => id == Itoa(card * n + chip)
  }

  predicate InStride(s: Subject, n: int) {
    s.Chip? ==> 0 <= s.chip < n
  }

  /** Two subjects share a key exactly when they are the same chip, the same name, or a chip and a
      name that spells the chip's global number. */
  lemma KeysMeetExactly(s: Subject, t: Subject, n: int)
    requires InStride(s, n) && InStride(t, n)
    ensures KeyOf(s, n) == KeyOf(t, n) <==> Shares(s, t, n)
  {
    if s.Chip? && t.Chip? {
      AtoiOfItoa(s.card * n + s.chip);
      AtoiOfItoa(t.card * n + t.chip);
      if KeyOf(s, n) == KeyOf(t, n) {
        SlotIsUnique(s.card, s.chip, t.card, t.chip, n);
      }
    }
  }

  predicate OnOwnCard(card: nat, n: nat, chip: nat) {
    chip < n && KeyOf(Named(Itoa(card)), n) == KeyOf(Chip(card, chip), n)
  }

  /** A card-level metric of card `card` is recorded under chip `card % n` of card `card / n`. That
      is a chip of its own card exactly for card 0, or with one chip to a card. */
  lemma CardLevelKeyExactly(card: nat, n: nat)
    requires n > 0
    ensures KeyOf(Named(Itoa(card)), n) == KeyOf(Chip(card / n, card % n), n)
    ensures (exists chip: nat :: OnOwnCard(card, n, chip)) <==> card == 0 || n == 1
  {
    assert card / n * n + card % n == card;
    if chip: nat :| OnOwnCard(card, n, chip) {
      AtoiOfItoa(card);
      AtoiOfItoa(card * n + chip);
      GrowsWithStride(card, n);
    }
    if card == 0 || n == 1 {
      StaysWithStride(card, n);
      assert OnOwnCard(card, n, 0);
    }
  }

  lemma GrowsWithStride(card: nat, n: nat)
    requires n > 0
    ensures card == 0 || n == 1 || card * n > card
  {
    if card > 0 && n > 1 {
      assert card * (n - 1) > 0;
      assert card * n == card * (n - 1) + card;
    }
  }

  lemma StaysWithStride(card: nat, n: nat)
    requires card == 0 || n == 1
    ensures card * n + 0 == card
  {
  }

  lemma ItoaIsInjective(x: int, y: int)
    ensures Itoa(x) == Itoa(y) <==> x == y
  {
    AtoiOfItoa(x);
    AtoiOfItoa(y);
  }

  lemma ChipKeysEqual(s: Subject, n: int, t: Subject, m: int)
    requires s.Chip? && t.Chip?
    ensures KeyOf(s, n) == KeyOf(t, m) <==> s.card * n + s.chip == t.card * m + t.chip
  {
    ItoaIsInjective(s.card * n + s.chip, t.card * m + t.chip);
  }

  /** When the stride grows from `n` to `m`, a chip keeps its key exactly if it is on card 0. */
  lemma KeySurvivesStrideExactly(card: nat, chip: nat, n: nat, m: nat)
    requires chip < n < m
    ensures KeyOf(Chip(card, chip), n) == KeyOf(Chip(card, chip), m) <==> card == 0
  {
    ChipKeysEqual(Chip(card, chip), n, Chip(card, chip), m);
    StridesDiffer(card, n, m);
  }

  /** The chip that a global number stands for. */
  function ChipOf(number: nat, m: nat): Subject
    requires m > 0
  {
    Chip(number / m, number % m)
  }

  lemma ChipOfNumber(number: nat, m: nat)
    requires m > 0
    ensures ChipOf(number, m).card * m + ChipOf(number, m).chip == number
  {
    SlotOf(number, m, number / m, number % m);
  }

  /** The key a chip had under the smaller stride then names a chip again: another one, exactly if it is
      not on card 0. */
  lemma OldKeyNamesAnother(card: nat, chip: nat, n: nat, m: nat)
    requires chip < n < m
    ensures KeyOf(Chip(card, chip), n) == KeyOf(ChipOf(card * n + chip, m), m)
    ensures ChipOf(card * n + chip, m) == Chip(card, chip) <==> card == 0
  {
    ChipOfNumber(card * n + chip, m);
    ChipKeysEqual(Chip(card, chip), n, ChipOf(card * n + chip, m), m);
    NumberStaysExactly(card, chip, n, m);
  }

  lemma NumberStaysExactly(card: nat, chip: nat, n: nat, m: nat)
    requires chip < n < m
    ensures ChipOf(card * n + chip, m) == Chip(card, chip) <==> card == 0
  {
    SlotOf(card * n + chip, m, card, chip);
    StridesDiffer(card, n, m);
  }

  lemma StridesDiffer(card: nat, n: nat, m: nat)
    requires n < m
    ensures card * n == card * m <==> card == 0
  {
    assert card * m == card * n + card * (m - n);
    if card > 0 {
      assert card * (m - n) > 0;
    }
  }

  /** The slot of a global number under a stride. */
  lemma SlotOf(number: nat, m: nat, card: nat, chip: nat)
    requires chip < m
    ensures number / m == card && number % m == chip <==> number == card * m + chip
  {
    if number == card * m + chip {
      QuotientUnique(number, m, card, chip);
    } else {
      assert number == number / m * m + number % m;
    }
  }

  // ----- a batch -----------------------------------------------------------------------------------------

  /** The names under which each KPI field may be collected, in order of preference. */
  type Aliases = map<string, seq<string>>

  /** The KPI field each metric name feeds. */
  type Fields = map<string, string>

  /** Every name listed feeds a field that lists it, and no other name feeds any. */
  ghost predicate Reverses(fields: Fields, aliases: Aliases) {
    && (forall name :: name in fields ==> fields[name] in aliases && name in aliases[fields[name]])
    && (forall name, field :: field in aliases && name in aliases[field] ==> name in fields)
  }

  /** The table built when the package starts: the field lists are visited in whatever order the map
      yields them, and the first that holds a name gets it. */
  method BuildReverse(aliases: Aliases) returns (fields: Fields)
    ensures Reverses(fields, aliases)
  {
    fields := map[];
    var todo := aliases.Keys;
    while todo != {}
      invariant todo <= aliases.Keys
      invariant forall name :: name in fields ==> fields[name] in aliases && name in aliases[fields[name]]
      invariant forall name, field :: field in aliases && field !in todo && name in aliases[field] ==> name in fields
    {
      var field :| field in todo;
      fields := AddNames(fields, field, aliases[field]);
      todo := todo - {field};
    }
  }

  method AddNames(fields: Fields, field: string, names: seq<string>) returns (r: Fields)
    ensures forall name :: name in r <==> name in fields || name in names
    ensures forall name :: name in r ==> r[name] == if name in fields then fields[name] else field
  {
    r := fields;
    for i := 0 to |names|
      invariant forall name :: name in r <==> name in fields || name in names[..i]
      invariant forall name :: name in r ==> r[name] == if name in fields then fields[name] else field
    {
      if names[i] !in r {
        r := r[names[i] := field];
      }
      assert names[..i + 1] == names[..i] + [names[i]];
    }
    assert names[..|names|] == names;
  }

  predicate IsKpi(m: Metric, fields: Fields) {
    m.component == "npu" && m.name in fields && (m.npuId != "" || m.deviceId != "")
  }

  function Kpis(batch: seq<Metric>, fields: Fields): (r: seq<Metric>)
    ensures forall i :: 0 <= i < |r| ==> IsKpi(r[i], fields)
  {
    if batch == [] then []
    else
      var last := batch[|batch| - 1];
      Kpis(batch[..|batch| - 1], fields) + (if IsKpi(last, fields) then [last] else [])
  }

  predicate IsCpuUsage(m: Metric) {
    m.component == "cpu" && m.name == "usage" && CpuName(m) != "" && CpuName(m) != "total"
  }

  function CpuName(m: Metric): string {
    if m.cpu == "" then m.core else m.cpu
  }

  /** The greatest chip number seen. */
  function MaxChip(start: int, kpis: seq<Metric>): (r: int)
    ensures r >= start
  {
    if kpis == [] then start
    else
      var before, chip := MaxChip(start, kpis[..|kpis| - 1]), Atoi(kpis[|kpis| - 1].chipId);
      if chip.Some? && chip.value >= 0 && chip.value > before then chip.value else before
  }

  lemma {:induction false} MaxChipIsGreatest(start: int, kpis: seq<Metric>, i: nat)
    requires i < |kpis| && Atoi(kpis[i].chipId).Some?
    ensures Atoi(kpis[i].chipId).value <= MaxChip(start, kpis) || Atoi(kpis[i].chipId).value < 0
  {
    if i < |kpis| - 1 {
      MaxChipIsGreatest(start, kpis[..|kpis| - 1], i);
    }
  }

  type Values = map<string, map<string, real>>

  function ValueOf(v: Values, key: string, field: string): Option<real> {
    if key in v && field in v[key] then Some(v[key][field]) else None
  }

  /** The last value a batch gives for the field of the key. */
  function LastValue(kpis: seq<Metric>, fields: Fields, n: int, key: string, field: string): Option<real>
    requires forall i :: 0 <= i < |kpis| ==> IsKpi(kpis[i], fields)
  {
    if kpis == [] then None
    else
      var last := kpis[|kpis| - 1];
      assert IsKpi(last, fields);
      if DeviceKey(last, n) == key && fields[last.name] == field then Some(last.value)
      else LastValue(kpis[..|kpis| - 1], fields, n, key, field)
  }

  function LastUsage(batch: seq<Metric>, name: string): Option<real> {
    if batch == [] then None
    else
      var last := batch[|batch| - 1];
      if IsCpuUsage(last) && CpuName(last) == name then Some(last.value)
      else LastUsage(batch[..|batch| - 1], name)
  }

  /** The first time that is not zero. */
  function TimeOf(batch: seq<Metric>): int {
    if batch == [] then 0
    else
      var before := TimeOf(batch[..|batch| - 1]);
      if before == 0 then batch[|batch| - 1].time else before
  }

  datatype Sample = Sample(time: int, values: Values, usage: map<string, real>)

  predicate NoUsage(batch: seq<Metric>) {
    forall i :: 0 <= i < |batch| ==> !IsCpuUsage(batch[i])
  }

  /** What the sample of a batch says, with `n` chips to a card. */
  ghost predicate Records(s: Sample, batch: seq<Metric>, fields: Fields, n: int) {
    && s.time == TimeOf(batch)
    && (forall key, field :: ValueOf(s.values, key, field) == LastValue(Kpis(batch, fields), fields, n, key, field))
    && Uses(s.usage, batch)
  }

  ghost predicate Uses(usage: map<string, real>, batch: seq<Metric>) {
    && (forall name {:trigger LastUsage(batch, name)} :: (if name in usage then Some(usage[name]) else None) == LastUsage(batch, name))
    && (usage == map[] <==> NoUsage(batch))
  }

  lemma LongerBatch(batch: seq<Metric>, m: Metric, fields: Fields)
    ensures TimeOf(batch + [m]) == if TimeOf(batch) == 0 then m.time else TimeOf(batch)
    ensures Kpis(batch + [m], fields) == if IsKpi(m, fields) then Kpis(batch, fields) + [m] else Kpis(batch, fields)
  {
    assert (batch + [m])[..|batch|] == batch;
  }

  lemma LongerKpis(start: int, kpis: seq<Metric>, m: Metric)
    ensures var before, chip := MaxChip(start, kpis), Atoi(m.chipId);
            MaxChip(start, kpis + [m]) ==
            if chip.Some? && chip.value >= 0 && chip.value > before then chip.value else before
  {
    assert (kpis + [m])[..|kpis|] == kpis;
  }

  lemma LongerUsage(usage: map<string, real>, batch: seq<Metric>, m: Metric)
    requires Uses(usage, batch)
    ensures Uses(if IsCpuUsage(m) then usage[CpuName(m) := m.value] else usage, batch + [m])
  {
    var all := batch + [m];
    assert all[..|batch|] == batch && all[|batch|] == m;
    if IsCpuUsage(m) {
      assert CpuName(m) in usage[CpuName(m) := m.value];
      assert !NoUsage(all);
    } else {
      assert NoUsage(batch) ==> NoUsage(all);
      assert NoUsage(all) ==> forall i :: 0 <= i < |batch| ==> !IsCpuUsage(all[i]) && all[i] == batch[i];
    }
  }

  /** What the scan of a batch has collected from `part`. */
  ghost predicate Scanned(part: seq<Metric>, fields: Fields, start: int, maxChip: int,
                          kpis: seq<Metric>, time: int, usage: map<string, real>)
  {
    kpis == Kpis(part, fields) && maxChip == MaxChip(start, kpis) && time == TimeOf(part) && Uses(usage, part)
  }

  function Higher(maxChip: int, chip: Option<int>): int {
    if chip.Some? && chip.value >= 0 && chip.value > maxChip then chip.value else maxChip
  }

  lemma ScannedOneMore(part: seq<Metric>, m: Metric, fields: Fields, start: int, maxChip: int,
                       kpis: seq<Metric>, time: int, usage: map<string, real>)
    requires Scanned(part, fields, start, maxChip, kpis, time, usage)
    ensures Scanned(part + [m], fields, start,
                    if IsKpi(m, fields) then Higher(maxChip, Atoi(m.chipId)) else maxChip,
                    if IsKpi(m, fields) then kpis + [m] else kpis,
                    if time == 0 then m.time else time,
                    if IsCpuUsage(m) then usage[CpuName(m) := m.value] else usage)
  {
    LongerBatch(part, m, fields);
    LongerUsage(usage, part, m);
    LongerKpis(start, kpis, m);
  }

  class KpiMapper {
    const fields: Fields
    var maxChip: int

    constructor (aliases: Aliases)
      ensures Reverses(fields, aliases) && maxChip == -1
    {
      var table := BuildReverse(aliases);
      fields := table;
      maxChip := -1;
    }

    method RaiseMaxChip(chipId: string)
      modifies this
      ensures maxChip == Higher(old(maxChip), Atoi(chipId))
    {
      var chip := Atoi(chipId);
      if chip.Some? && chip.value >= 0 && chip.value > maxChip {
        maxChip := chip.value;
      }
    }

    /** The first loop of `Extract`. */
    method Scan(batch: seq<Metric>) returns (kpis: seq<Metric>, time: int, usage: map<string, real>)
      modifies this
      ensures Scanned(batch, fields, old(maxChip), maxChip, kpis, time, usage)
    {
      kpis, time, usage := [], 0, map[];
      NothingScanned(fields, maxChip);
      for i := 0 to |batch|
        invariant Scanned(batch[..i], fields, old(maxChip), maxChip, kpis, time, usage)
      {
        var m := batch[i];
        assert batch[..i + 1] == batch[..i] + [m];
        ScannedOneMore(batch[..i], m, fields, old(maxChip), maxChip, kpis, time, usage);
        if time == 0 {
          time := m.time;
        }
        if IsKpi(m, fields) {
          kpis := kpis + [m];
          RaiseMaxChip(m.chipId);
        } else if IsCpuUsage(m) {
          usage := usage[CpuName(m) := m.value];
        }
      }
      assert batch[..|batch|] == batch;
    }

    /** `Extract`. The stride takes in the whole batch before any key is formed, and never shrinks. */
    method Extract(batch: seq<Metric>) returns (sample: Option<Sample>)
      modifies this
      ensures maxChip == MaxChip(old(maxChip), Kpis(batch, fields)) >= old(maxChip)
      ensures sample.None? <==> Kpis(batch, fields) == [] && NoUsage(batch)
      ensures sample.Some? ==> Records(sample.value, batch, fields, maxChip + 1)
    {
      if batch == [] {
        return None;
      }
      var kpis, time, usage := Scan(batch);
      if kpis == [] && usage == map[] {
        return None;
      }
      var values := ValuesOf(kpis, fields, maxChip + 1);
      sample := Some(Sample(time, values, usage));
    }
  }

  lemma NothingScanned(fields: Fields, maxChip: int)
    ensures Scanned([], fields, maxChip, maxChip, [], 0, map[])
  {
  }

  /** One map of fields for each key, later metrics overwriting earlier ones. */
  method ValuesOf(kpis: seq<Metric>, fields: Fields, n: int) returns (values: Values)
    requires forall i :: 0 <= i < |kpis| ==> IsKpi(kpis[i], fields)
    ensures forall key, field :: ValueOf(values, key, field) == LastValue(kpis, fields, n, key, field)
  {
    values := map[];
    for i := 0 to |kpis|
      invariant forall key, field :: ValueOf(values, key, field) == LastValue(kpis[..i], fields, n, key, field)
    {
      var m := kpis[i];
      assert kpis[..i + 1][..i] == kpis[..i];
      var key := DeviceKey(m, n);
      var row := if key in values then values[key] else map[];
      values := values[key := row[fields[m.name] := m.value]];
    }
    assert kpis[..|kpis|] == kpis;
  }

  /** No two chips share an entry of a sample: metrics `i` and `j` of a batch that carry chip numbers
      have the same key exactly when they are of the same chip of the same card. */
  lemma ChipsKeptApart(start: int, kpis: seq<Metric>, i: nat, j: nat)
    requires start >= -1 && i < |kpis| && j < |kpis|
    requires SubjectOf(kpis[i]).Chip? && SubjectOf(kpis[i]).chip >= 0
    requires SubjectOf(kpis[j]).Chip? && SubjectOf(kpis[j]).chip >= 0
    ensures var n := MaxChip(start, kpis) + 1;
            DeviceKey(kpis[i], n) == DeviceKey(kpis[j], n) <==> SubjectOf(kpis[i]) == SubjectOf(kpis[j])
  {
    var n := MaxChip(start, kpis) + 1;
    MaxChipIsGreatest(start, kpis, i);
    MaxChipIsGreatest(start, kpis, j);
    KeyIsOfSubject(kpis[i], n);
    KeyIsOfSubject(kpis[j], n);
    KeysMeetExactly(SubjectOf(kpis[i]), SubjectOf(kpis[j]), n);
  }
}
