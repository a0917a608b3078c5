/** The alias lists of features/stragglerout/sample.go: which metric gives a KPI field its value when
    several of the field's names are present. */
module StragglerAliases {
  import opened GoText
  import opened Sequences
  import opened StragglerKeys

  const METRIC_ALIASES: Aliases := map[
    "temp" := ["temperature"],
    "power" := ["power_draw"],
    "aicore_freq" := ["aicore_freq"],
    "aicore_util" := ["utilization"],
    "hbm_util" := ["memory_usage"],
    "tx_bandwidth" := ["net_tx_bandwidth"],
    "rx_pfc_pkt" := ["mac_rx_pfc_pkt_num"],
    "roce_tx_err_pkt" := ["roce_tx_err_pkt_num"],
    "roce_out_of_order" := ["roce_out_of_order_num"],
    "roce_new_pkt_rty" := ["roce_new_pkt_rty_num", "roce_new_pkt_rty", "roce_retrans_pkt_num", "roce_rx_retrans_pkt_num"],
    "hbm_bandwidth_util" := ["hbm_bandwidth_util"]]

  /** No name is listed for two fields. */
  ghost predicate Disjoint(aliases: Aliases) {
    forall f, g, name :: f in aliases && g in aliases && name in aliases[f] && name in aliases[g] ==> f == g
  }

  /** With disjoint lists the order in which they are visited makes no difference. */
  lemma ReverseIsUnique(aliases: Aliases, a: Fields, b: Fields)
    requires Disjoint(aliases) && Reverses(a, aliases) && Reverses(b, aliases)
    ensures a == b
  {
    forall name
      ensures name in a <==> name in b
      ensures name in a && name in b ==> a[name] == b[name]
    {
    }
  }

  function TableField(name: string): string {
    match name
    case "temperature" => "temp"
    case "power_draw" => "power"
    case "aicore_freq" => "aicore_freq"
    case "utilization" => "aicore_util"
    case "memory_usage" => "hbm_util"
    case "net_tx_bandwidth" => "tx_bandwidth"
    case "mac_rx_pfc_pkt_num" => "rx_pfc_pkt"
    case "roce_tx_err_pkt_num" => "roce_tx_err_pkt"
    case "roce_out_of_order_num" => "roce_out_of_order"
    case "hbm_bandwidth_util" => "hbm_bandwidth_util"
    case _ => FIELD
  }

  lemma ListedOnce(field: string, name: string)
    requires field in METRIC_ALIASES && name in METRIC_ALIASES[field]
    ensures field == TableField(name)
  {
  }

  /** The names of the table are all different. */
  lemma TableIsDisjoint()
    ensures Disjoint(METRIC_ALIASES)
  {
    forall f, g, name | f in METRIC_ALIASES && g in METRIC_ALIASES && name in METRIC_ALIASES[f] && name in METRIC_ALIASES[g]
      ensures f == g
    {
      ListedOnce(f, name);
      ListedOnce(g, name);
    }
  }

  // ----- one field of one key -----------------------------------------------------------------------------

  predicate AllKpis(kpis: seq<Metric>, fields: Fields) {
    forall i :: 0 <= i < |kpis| ==> IsKpi(kpis[i], fields)
  }

  /** A field of a key, with the names the field may be collected under. */
  datatype Cell = Cell(fields: Fields, stride: int, key: string, field: string, names: seq<string>)

  predicate Feeds(m: Metric, c: Cell) {
    IsKpi(m, c.fields) && DeviceKey(m, c.stride) == c.key && c.fields[m.name] == c.field
  }

  /** The first place of a name in the list, or its length. */
  function Place(names: seq<string>, name: string): nat {
    if names == [] || names[0] == name then 0 else 1 + Place(names[1..], name)
  }

  /** Metric `i` feeds the cell under the first alias present. */
  predicate FirstAlias(kpis: seq<Metric>, c: Cell, i: nat) {
    && i < |kpis| && Feeds(kpis[i], c)
    && forall j :: 0 <= j < |kpis| && Feeds(kpis[j], c) ==> Place(c.names, kpis[i].name) <= Place(c.names, kpis[j].name)
  }

  function CellValue(kpis: seq<Metric>, c: Cell): Option<real>
    requires AllKpis(kpis, c.fields)
  {
    LastValue(kpis, c.fields, c.stride, c.key, c.field)
  }

  /** The documented choice: the cell has the value given under the first alias present. */
  ghost predicate FirstAliasWins(kpis: seq<Metric>, c: Cell)
    requires AllKpis(kpis, c.fields)
  {
    forall i: nat :: FirstAlias(kpis, c, i) ==> CellValue(kpis, c) == Some(kpis[i].value)
  }

  /** No metric of a later alias, and no repeat of the first, carries a different value. */
  predicate ValuesAgree(kpis: seq<Metric>, c: Cell) {
    forall i: nat, j: nat :: i < |kpis| && j < |kpis| && FirstAlias(kpis, c, i) && Feeds(kpis[j], c) ==>
      kpis[i].value == kpis[j].value
  }

  /** The value of a cell is that of its last metric. */
  lemma {:induction false} CellValueIsLast(kpis: seq<Metric>, c: Cell, i: nat) returns (j: nat)
    requires AllKpis(kpis, c.fields) && i < |kpis| && Feeds(kpis[i], c)
    ensures i <= j < |kpis| && Feeds(kpis[j], c) && CellValue(kpis, c) == Some(kpis[j].value)
  {
    j := |kpis| - 1;
    if !Feeds(kpis[j], c) {
      j := CellValueIsLast(kpis[..j], c, i);
    }
  }

  lemma FirstAliasPermuted(a: seq<Metric>, b: seq<Metric>, c: Cell, i: nat) returns (j: nat)
    requires multiset(a) == multiset(b) && FirstAlias(a, c, i)
    ensures FirstAlias(b, c, j) && b[j] == a[i]
  {
    j := SameMembers(a, b, i);
    forall k: nat | k < |b| && Feeds(b[k], c)
      ensures Place(c.names, b[j].name) <= Place(c.names, b[k].name)
    {
      var l := SameMembers(b, a, k);
      assert Feeds(a[l], c);
    }
  }

  lemma AgreementKeepsFirst(kpis: seq<Metric>, other: seq<Metric>, c: Cell)
    requires multiset(other) == multiset(kpis) && AllKpis(other, c.fields) && ValuesAgree(kpis, c)
    ensures FirstAliasWins(other, c)
  {
    forall i: nat | FirstAlias(other, c, i)
      ensures CellValue(other, c) == Some(other[i].value)
    {
      var j := CellValueIsLast(other, c, i);
      var i' := FirstAliasPermuted(other, kpis, c, i);
      var j' := SameMembers(other, kpis, j);
      assert Feeds(kpis[j'], c);
    }
  }

  /** The metrics with metric `j` brought to the end. */
  function WithLast(kpis: seq<Metric>, j: nat): (other: seq<Metric>)
    requires j < |kpis|
    ensures multiset(other) == multiset(kpis)
  {
    kpis[j := kpis[|kpis| - 1]][|kpis| - 1 := kpis[j]]
  }

  lemma LaterValueWins(kpis: seq<Metric>, c: Cell, i: nat, j: nat)
    requires AllKpis(kpis, c.fields) && FirstAlias(kpis, c, i)
    requires j < |kpis| && Feeds(kpis[j], c) && kpis[i].value != kpis[j].value
    ensures var other := WithLast(kpis, j); AllKpis(other, c.fields) && !FirstAliasWins(other, c)
  {
    var other := WithLast(kpis, j);
    forall k: nat | k < |other|
      ensures IsKpi(other[k], c.fields)
    {
      var l := SameMembers(other, kpis, k);
    }
    assert other[|other| - 1] == kpis[j];
    assert CellValue(other, c) == Some(kpis[j].value);
    var i' := FirstAliasPermuted(kpis, other, c, i);
  }

  /** In every order of the metrics the first alias present gives the value: exactly when no metric of a
      later alias, and no repeat of the first, carries a different one. */
  lemma FirstAliasWinsExactly(kpis: seq<Metric>, c: Cell)
    requires AllKpis(kpis, c.fields)
    ensures (forall other: seq<Metric> :: multiset(other) == multiset(kpis) && AllKpis(other, c.fields) ==>
               FirstAliasWins(other, c)) <==> ValuesAgree(kpis, c)
  {
    if ValuesAgree(kpis, c) {
      forall other: seq<Metric> | multiset(other) == multiset(kpis) && AllKpis(other, c.fields)
        ensures FirstAliasWins(other, c)
      {
        AgreementKeepsFirst(kpis, other, c);
      }
    } else {
      var i: nat, j: nat :| i < |kpis| && j < |kpis| && FirstAlias(kpis, c, i) && Feeds(kpis[j], c) &&
                            kpis[i].value != kpis[j].value;
      LaterValueWins(kpis, c, i, j);
      assert multiset(WithLast(kpis, j)) == multiset(kpis);
    }
  }

  // ----- a batch on which the second alias wins ----------------------------------------------------------------

  const FIELD := "roce_new_pkt_rty"
  const NAMES := ["roce_new_pkt_rty_num", "roce_new_pkt_rty", "roce_retrans_pkt_num", "roce_rx_retrans_pkt_num"]

  function Reading(name: string, value: real): Metric {
    Metric("npu", name, value, 1, "", "0", "", "", "")
  }

  lemma TwoReadings(first: Metric, second: Metric, c: Cell)
    requires Feeds(first, c) && Feeds(second, c) && Place(c.names, first.name) == 0 && first.value != second.value
    ensures Kpis([first, second], c.fields) == [first, second] && FirstAlias([first, second], c, 0)
    ensures CellValue([first, second], c) == Some(second.value) && !FirstAliasWins([first, second], c)
  {
    var batch := [first, second];
    assert batch[..1] == [first] && [first][..0] == [];
    assert Kpis([first], c.fields) == [first];
    assert FirstAlias(batch, c, 0);
  }

  /** Both names are present, the preferred one first, and the value is that of the other. */
  lemma SecondAliasWins(fields: Fields, stride: int)
    requires Reverses(fields, METRIC_ALIASES)
    ensures METRIC_ALIASES[FIELD] == NAMES
    ensures var batch := [Reading(NAMES[0], 1.0), Reading(NAMES[1], 2.0)];
      var c := Cell(fields, stride, "0", FIELD, NAMES);
      && Kpis(batch, fields) == batch && FirstAlias(batch, c, 0)
      && CellValue(batch, c) == Some(2.0) && !FirstAliasWins(batch, c)
  {
    var first, second := Reading(NAMES[0], 1.0), Reading(NAMES[1], 2.0);
    assert NAMES[0] in METRIC_ALIASES[FIELD] && NAMES[1] in METRIC_ALIASES[FIELD];
    ListedOnce(fields[NAMES[0]], NAMES[0]);
    ListedOnce(fields[NAMES[1]], NAMES[1]);
    TwoReadings(first, second, Cell(fields, stride, "0", FIELD, NAMES));
  }
}
