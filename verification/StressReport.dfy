/** What a stress report says: features/stress/stress.go and the parts of
    features/stress/manager.go that build, update and conclude a report. */
module StressReport {
  import opened GoText

  datatype Status =
    | Pending | Running
    | Healthy | TimeLimitReached | Unhealthy | Unavailable | Unsupported | Cancelled

  datatype Benchmark = Benchmark(name: string, status: Status, output: string)

  datatype Report = Report(jobId: string, status: Status, benchmarks: seq<Benchmark>,
                           persistFailed: bool, cancellable: bool)

  predicate Terminal(s: Status) {
    s != Pending && s != Running
  }

  // ----- which benchmarks a request selects ---------------------------------------------

  /** `benchmarks` maps each configured benchmark to its enabled flag. */
  datatype Config = Config(enabled: bool, defaults: seq<string>, benchmarks: map<string, bool>)

  datatype SelectError =
    | NothingConfigured
    | NothingSelected
    | NotSupported(name: string)
    | NotConfigured(name: string)
    | Disabled(name: string)

  predicate Supported(name: string) {
    name == "stream" || name == "hpl" || name == "hpcg" || name == "npu_burn"
  }

  function Normalised(raw: string): string {
    ToLower(TrimSpace(raw))
  }

  predicate Runnable(cfg: Config, name: string) {
    Supported(name) && name in cfg.benchmarks && cfg.benchmarks[name]
  }

  /** The request at index `i` names a benchmark that cannot be run. */
  ghost predicate BadAt(cfg: Config, names: seq<string>, i: nat)
    requires i < |names|
  {
    Normalised(names[i]) != "" && !Runnable(cfg, Normalised(names[i]))
  }

  function RefusalOf(cfg: Config, name: string): SelectError {
    if !Supported(name) then NotSupported(name)
    else if name !in cfg.benchmarks then NotConfigured(name)
    else Disabled(name)
  }

  /** The refusal is for the first entry that cannot be run. */
  ghost predicate RefusedFor(cfg: Config, names: seq<string>, e: SelectError) {
    exists i: nat :: i < |names| && BadAt(cfg, names, i) && e == RefusalOf(cfg, Normalised(names[i])) &&
             forall k: nat :: k < i ==> !BadAt(cfg, names, k)
  }

  predicate Distinct<T(==)>(s: seq<T>) {
    forall i, j :: 0 <= i < j < |s| ==> s[i] != s[j]
  }

  function Elems<T>(s: seq<T>): set<T> {
    set x | x in s
  }

  /** The names a request asks for: blanks around them, case and empty entries do not count. */
  function Asked(names: seq<string>): set<string> {
    if names == [] then {}
    else
      var n := Normalised(names[|names| - 1]);
      Asked(names[..|names| - 1]) + (if n == "" then {} else {n})
  }

  /** What the first `m` entries ask for is what some prefix of the selection lists. */
  ghost predicate PrefixCovers(names: seq<string>, sel: seq<string>, m: nat)
    requires m <= |names|
  {
    exists p :: 0 <= p <= |sel| && Elems(sel[..p]) == Asked(names[..m])
  }

  /** `sel` lists every name asked for exactly once, in the order in which each was first
      asked for. */
  ghost predicate IsSelectionOf(names: seq<string>, sel: seq<string>) {
    && Distinct(sel)
    && Elems(sel) == Asked(names)
    && forall m :: 0 <= m <= |names| ==> PrefixCovers(names, sel, m)
  }

  lemma AskedByOneMore(names: seq<string>, i: nat)
    requires i < |names|
    ensures var n := Normalised(names[i]);
      Asked(names[..i + 1]) == Asked(names[..i]) + (if n == "" then {} else {n})
  {
    assert names[..i + 1][..i] == names[..i];
  }

  lemma PrefixStillCovers(names: seq<string>, i: nat, sel: seq<string>, sel': seq<string>, m: nat)
    requires m <= i < |names| && PrefixCovers(names[..i], sel, m) && sel <= sel'
    ensures PrefixCovers(names[..i + 1], sel', m)
  {
    assert names[..i][..m] == names[..i + 1][..m];
    var p :| 0 <= p <= |sel| && Elems(sel[..p]) == Asked(names[..i][..m]);
    assert sel'[..p] == sel[..p];
  }

  /** The selection after the first `i` entries, extended (or not) by entry `i`. */
  lemma SelectionExtended(names: seq<string>, i: nat, sel: seq<string>)
    requires i < |names| && IsSelectionOf(names[..i], sel)
    ensures var n := Normalised(names[i]);
      IsSelectionOf(names[..i + 1], if n == "" || n in sel then sel else sel + [n])
  {
    var n := Normalised(names[i]);
    var sel' := if n == "" || n in sel then sel else sel + [n];
    var more := names[..i + 1];
    AskedByOneMore(names, i);
    assert Elems(sel') == Asked(more) by {
      assert Elems(sel + [n]) == Elems(sel) + {n};
    }
    forall m | 0 <= m <= |more|
      ensures PrefixCovers(more, sel', m)
    {
      if m <= i {
        PrefixStillCovers(names, i, sel, sel', m);
      } else {
        assert sel'[..|sel'|] == sel' && more[..m] == more;
      }
    }
  }

  /** What the loop has found out after the first `i` entries: none of them was refused. */
  ghost predicate SelectedSoFar(cfg: Config, names: seq<string>, i: nat, selected: seq<string>) {
    && i <= |names| && IsSelectionOf(names[..i], selected)
    && (forall n :: n in selected ==> Runnable(cfg, n))
    && (forall k: nat :: k < i ==> !BadAt(cfg, names, k))
  }

  lemma NothingSelectedYet(cfg: Config, names: seq<string>)
    ensures SelectedSoFar(cfg, names, 0, [])
  {
    var none: seq<string> := [];
    assert Elems(none[..0]) == Asked(names[..0][..0]);
    assert PrefixCovers(names[..0], none, 0);
  }

  lemma SelectedOneMore(cfg: Config, names: seq<string>, i: nat, selected: seq<string>)
    requires i < |names| && SelectedSoFar(cfg, names, i, selected)
    requires var n := Normalised(names[i]); n == "" || n in selected || Runnable(cfg, n)
    ensures var n := Normalised(names[i]);
      SelectedSoFar(cfg, names, i + 1, if n == "" || n in selected then selected else selected + [n])
  {
    SelectionExtended(names, i, selected);
  }

  lemma RefusedAt(cfg: Config, names: seq<string>, i: nat, selected: seq<string>)
    requires i < |names| && SelectedSoFar(cfg, names, i, selected)
    requires Normalised(names[i]) != "" && !Runnable(cfg, Normalised(names[i]))
    ensures RefusedFor(cfg, names, RefusalOf(cfg, Normalised(names[i])))
  {
    assert BadAt(cfg, names, i);
  }

  /** The checks of one entry that is neither blank nor selected already. */
  method CheckBenchmark(cfg: Config, name: string) returns (refusal: Option<SelectError>)
    ensures refusal == if Runnable(cfg, name) then None else Some(RefusalOf(cfg, name))
  {
    if !Supported(name) {
      return Some(NotSupported(name));
    }
    if name !in cfg.benchmarks {
      return Some(NotConfigured(name));
    }
    if !cfg.benchmarks[name] {
      return Some(Disabled(name));
    }
    return None;
  }

  /** All names asked for, each once, all runnable; or nothing is listed; or nothing is asked for; or the
      refusal of the first entry that cannot be run. */
  ghost predicate SelectionOf(cfg: Config, names: seq<string>, r: Result<seq<string>, SelectError>) {
    match r
    case Ok(sel) => sel != [] && IsSelectionOf(names, sel) && forall n :: n in sel ==> Runnable(cfg, n)
    case Err(NothingConfigured) => names == []
    case Err(NothingSelected) => names != [] && Asked(names) == {}
    case Err(e) => RefusedFor(cfg, names, e)
  }

  /** Entry `raw` of a request stands for the benchmark, whatever blanks and capitals it is written with. */
  predicate StandsFor(raw: string, name: string) {
    EqualFold(TrimSpace(raw), name)
  }

  /** Entry `raw` names a benchmark of the four that is configured and enabled. */
  predicate CanRun(cfg: Config, raw: string) {
    exists name :: name in {"stream", "hpl", "hpcg", "npu_burn"} && StandsFor(raw, name) &&
                   name in cfg.benchmarks && cfg.benchmarks[name]
  }

  /** The request asks for something, and for nothing that cannot be run. */
  predicate Selectable(cfg: Config, names: seq<string>) {
    && (exists i :: 0 <= i < |names| && !AllSpace(names[i]))
    && (forall i :: 0 <= i < |names| && !AllSpace(names[i]) ==> CanRun(cfg, names[i]))
  }

  lemma BlankMeansEmpty(raw: string)
    ensures Normalised(raw) == "" <==> AllSpace(raw)
  {
    var i, j := TrimSpaceIs(raw);
    if i < j {
      assert !IsSpace(raw[i]);
    } else {
      assert raw == raw[..i] + raw[i..];
    }
  }

  predicate IsLower(name: string) {
    forall k :: 0 <= k < |name| ==> LowerChar(name[k]) == name[k]
  }

  lemma StandsForNormalised(raw: string, name: string)
    requires IsLower(name)
    ensures StandsFor(raw, name) <==> Normalised(raw) == name
  {
    var u := TrimSpace(raw);
    forall k | 0 <= k < |u|
      ensures ToLower(u)[k] == LowerChar(u[k])
    {
      ToLowerAt(u, k);
    }
    if StandsFor(raw, name) {
      assert forall k :: 0 <= k < |u| ==> ToLower(u)[k] == name[k];
    }
  }

  lemma CanRunIsRunnable(cfg: Config, raw: string)
    ensures CanRun(cfg, raw) <==> Runnable(cfg, Normalised(raw))
  {
    forall name | name in {"stream", "hpl", "hpcg", "npu_burn"}
      ensures StandsFor(raw, name) <==> Normalised(raw) == name
    {
      assert IsLower(name);
      StandsForNormalised(raw, name);
    }
  }

  lemma {:induction false} AskedIsNotBlank(names: seq<string>)
    ensures Asked(names) != {} <==> exists i :: 0 <= i < |names| && !AllSpace(names[i])
  {
    if names != [] {
      var before, last := names[..|names| - 1], |names| - 1;
      AskedIsNotBlank(before);
      BlankMeansEmpty(names[last]);
      assert forall i :: 0 <= i < last ==> before[i] == names[i];
      if Asked(before) != {} {
        var i :| 0 <= i < last && !AllSpace(before[i]);
        assert !AllSpace(names[i]);
      } else if Normalised(names[last]) != "" {
        assert Normalised(names[last]) in Asked(names);
      } else {
        assert forall i :: 0 <= i < |names| ==> AllSpace(names[i]);
      }
    }
  }

  lemma BadCannotRun(cfg: Config, names: seq<string>, i: nat)
    requires i < |names|
    ensures BadAt(cfg, names, i) <==> !AllSpace(names[i]) && !CanRun(cfg, names[i])
  {
    BlankMeansEmpty(names[i]);
    CanRunIsRunnable(cfg, names[i]);
  }

  lemma {:induction false} AskedHas(names: seq<string>, i: nat)
    requires i < |names| && Normalised(names[i]) != ""
    ensures Normalised(names[i]) in Asked(names)
  {
    if i < |names| - 1 {
      AskedHas(names[..|names| - 1], i);
    }
  }

  /** The reason fits the name: it is not one of the four, or not configured, or not enabled. */
  predicate Explains(cfg: Config, e: SelectError) {
    match e
    case NotSupported(name) => name !in {"stream", "hpl", "hpcg", "npu_burn"}
    case NotConfigured(name) => name in {"stream", "hpl", "hpcg", "npu_burn"} && name !in cfg.benchmarks
    case Disabled(name) => name in {"stream", "hpl", "hpcg", "npu_burn"} && name in cfg.benchmarks && !cfg.benchmarks[name]
    case _ => true
  }

  /** A selection is made exactly of requests that can be run, and a refusal says rightly what is wrong. */
  lemma SelectionExactly(cfg: Config, names: seq<string>, r: Result<seq<string>, SelectError>)
    requires SelectionOf(cfg, names, r)
    ensures r.Ok? <==> Selectable(cfg, names)
    ensures r.Err? ==> Explains(cfg, r.error)
  {
    AskedIsNotBlank(names);
    if r.Ok? {
      assert r.value[0] in Elems(r.value);
      forall i | 0 <= i < |names| && !AllSpace(names[i])
        ensures CanRun(cfg, names[i])
      {
        BlankMeansEmpty(names[i]);
        AskedHas(names, i);
        assert Normalised(names[i]) in Elems(r.value);
        CanRunIsRunnable(cfg, names[i]);
      }
    } else if !r.error.NothingConfigured? && !r.error.NothingSelected? {
      var i: nat :| i < |names| && BadAt(cfg, names, i);
      BadCannotRun(cfg, names, i);
    }
  }

  /** `Manager.selected`. */
  method Select(cfg: Config, requested: seq<string>) returns (r: Result<seq<string>, SelectError>)
    ensures var names := if requested == [] then cfg.defaults else requested;
      SelectionOf(cfg, names, r) && (r.Ok? <==> Selectable(cfg, names)) && (r.Err? ==> Explains(cfg, r.error))
  {
    var names := requested;
    if |names| == 0 {
      names := cfg.defaults;
    }
    if |names| == 0 {
      return Err(NothingConfigured);
    }
    r := SelectFrom(cfg, names);
    SelectionExactly(cfg, names, r);
  }

  /** The loop of `Manager.selected`. */
  method SelectFrom(cfg: Config, names: seq<string>) returns (r: Result<seq<string>, SelectError>)
    requires names != []
    ensures SelectionOf(cfg, names, r)
  {
    var seen: set<string> := {};
    var selected: seq<string> := [];
    NothingSelectedYet(cfg, names);
    for i := 0 to |names|
      invariant seen == Elems(selected) && SelectedSoFar(cfg, names, i, selected)
    {
      var name := Normalised(names[i]);
      if name == "" || name in seen {
        SelectedOneMore(cfg, names, i, selected);
        continue;
      }
      var refusal := CheckBenchmark(cfg, name);
      if refusal.Some? {
        RefusedAt(cfg, names, i, selected);
        return Err(refusal.value);
      }
      SelectedOneMore(cfg, names, i, selected);
      seen := seen + {name};
      selected := selected + [name];
    }
    assert names[..|names|] == names;
    if |selected| == 0 {
      return Err(NothingSelected);
    }
    return Ok(selected);
  }

  // ----- the overall status -------------------------------------------------------------

  /** How bad a result is. A result that is not terminal counts with the worst. */
  function Rank(s: Status): nat {
    match s
    case Healthy => 0
    case TimeLimitReached => 0
    case Unsupported => 1
    case Unavailable => 2
    case Cancelled => 3
    case _ => 4
  }

  /** The overall status of a given rank. */
  function StatusOfRank(r: nat): Status {
    if r == 0 then Healthy
    else if r == 1 then Unsupported
    else if r == 2 then Unavailable
    else if r == 3 then Cancelled
    else Unhealthy
  }

  /** `r` is the worst rank among the results. */
  ghost predicate IsWorstRank(bs: seq<Benchmark>, r: nat) {
    (forall b :: b in bs ==> Rank(b.status) <= r) && exists b :: b in bs && Rank(b.status) == r
  }

  /** The join of the results in the chain
      healthy or time limit < unsupported < unavailable < cancelled < unhealthy. */
  function Overall(bs: seq<Benchmark>): (s: Status)
    ensures Terminal(s) && s != TimeLimitReached
  {
    if bs == [] then Unhealthy
    else
      var last := StatusOfRank(Rank(bs[|bs| - 1].status));
      if |bs| == 1 then last
      else
        var before := Overall(bs[..|bs| - 1]);
        if Rank(before) >= Rank(last) then before else last
  }

  lemma StatusKeepsRank(s: Status)
    ensures Rank(StatusOfRank(Rank(s))) == Rank(s)
  {
  }

  lemma OverallOfLonger(before: seq<Benchmark>, last: Benchmark)
    requires before != []
    ensures Overall(before + [last]) == if Rank(Overall(before)) >= Rank(last.status) then Overall(before)
                                        else StatusOfRank(Rank(last.status))
  {
    assert (before + [last])[..|before|] == before;
    StatusKeepsRank(last.status);
  }

  lemma WorstOfLonger(before: seq<Benchmark>, last: Benchmark, r: nat)
    requires IsWorstRank(before, r)
    ensures IsWorstRank(before + [last], if r >= Rank(last.status) then r else Rank(last.status))
  {
    var all := before + [last];
    var b :| b in before && Rank(b.status) == r;
    assert b in all && last in all;
    assert forall c :: c in all ==> c in before || c == last;
  }

  lemma {:induction false} OverallIsWorst(bs: seq<Benchmark>)
    requires bs != []
    ensures Overall(bs) == StatusOfRank(Rank(Overall(bs))) && IsWorstRank(bs, Rank(Overall(bs)))
  {
    var before, last := bs[..|bs| - 1], bs[|bs| - 1];
    StatusKeepsRank(last.status);
    if before == [] {
      assert bs == [last];
    } else {
      assert bs == before + [last];
      OverallIsWorst(before);
      OverallOfLonger(before, last);
      WorstOfLonger(before, last, Rank(Overall(before)));
    }
  }

  lemma OverallFromWorstRank(bs: seq<Benchmark>, r: nat)
    requires IsWorstRank(bs, r)
    ensures Overall(bs) == StatusOfRank(r)
  {
    var b :| b in bs && Rank(b.status) == r;
    OverallIsWorst(bs);
    var c :| c in bs && Rank(c.status) == Rank(Overall(bs));
  }

  predicate Occurs(bs: seq<Benchmark>, s: Status) {
    exists i :: 0 <= i < |bs| && bs[i].status == s
  }

  lemma WorstResult(bs: seq<Benchmark>) returns (w: Status)
    requires bs != []
    ensures Occurs(bs, w) && Overall(bs) == StatusOfRank(Rank(w)) && forall s :: Occurs(bs, s) ==> Rank(s) <= Rank(w)
  {
    OverallIsWorst(bs);
    var b :| b in bs && Rank(b.status) == Rank(Overall(bs));
    w := b.status;
    forall i | 0 <= i < |bs|
      ensures Rank(bs[i].status) <= Rank(w)
    {
      assert bs[i] in bs;
    }
  }

  predicate AllHealthy(bs: seq<Benchmark>) {
    forall i :: 0 <= i < |bs| ==> bs[i].status == Healthy || bs[i].status == TimeLimitReached
  }

  /** Which list of results has which overall status. */
  lemma OverallExactly(bs: seq<Benchmark>)
    requires bs != []
    ensures var unhealthy := Occurs(bs, Unhealthy) || Occurs(bs, Pending) || Occurs(bs, Running);
      Overall(bs) == if unhealthy then Unhealthy
                     else if Occurs(bs, Cancelled) then Cancelled
                     else if Occurs(bs, Unavailable) then Unavailable
                     else if Occurs(bs, Unsupported) then Unsupported
                     else Healthy
    ensures Overall(bs) == Healthy <==> AllHealthy(bs)
  {
    var w := WorstResult(bs);
    if AllHealthy(bs) {
      assert Rank(w) == 0;
    } else {
      var i :| 0 <= i < |bs| && bs[i].status != Healthy && bs[i].status != TimeLimitReached;
      assert Occurs(bs, bs[i].status);
    }
  }

  function Statuses(bs: seq<Benchmark>): set<Status> {
    set i | 0 <= i < |bs| :: bs[i].status
  }

  /** Only which statuses occur matters: neither their order nor how often each occurs. */
  lemma OverallIgnoresOrder(bs: seq<Benchmark>, cs: seq<Benchmark>)
    requires bs != [] && Statuses(bs) == Statuses(cs)
    ensures Overall(bs) == Overall(cs)
  {
    var r := Rank(Overall(bs));
    OverallIsWorst(bs);
    forall c | c in cs
      ensures Rank(c.status) <= r
    {
      assert c.status in Statuses(bs);
    }
    var b :| b in bs && Rank(b.status) == r;
    assert b.status in Statuses(cs);
    OverallFromWorstRank(cs, r);
  }

  /** `aggregateReportStatus`. */
  method AggregateReportStatus(bs: seq<Benchmark>) returns (s: Status)
    ensures s == Overall(bs)
  {
    var allHealthy := |bs| > 0;
    var hasCancelled, hasUnavailable, hasUnsupported := false, false, false;
    for i := 0 to |bs|
      invariant forall k :: 0 <= k < i ==> Rank(bs[k].status) < 4
      invariant allHealthy <==> |bs| > 0 && forall k :: 0 <= k < i ==> Rank(bs[k].status) == 0
      invariant hasCancelled <==> exists k :: 0 <= k < i && Rank(bs[k].status) == 3
      invariant hasUnavailable <==> exists k :: 0 <= k < i && Rank(bs[k].status) == 2
      invariant hasUnsupported <==> exists k :: 0 <= k < i && Rank(bs[k].status) == 1
    {
      match bs[i].status {
        case Healthy => continue;
        case TimeLimitReached => continue;
        case Cancelled => hasCancelled := true;
        case Unavailable => hasUnavailable := true;
        case Unsupported => hasUnsupported := true;
        case _ =>
          assert bs[i] in bs && Rank(bs[i].status) == 4;
          OverallFromWorstRank(bs, 4);
          return Unhealthy;
      }
      allHealthy := false;
    }
    if allHealthy {
      assert bs[0] in bs && Rank(bs[0].status) == 0;
      OverallFromWorstRank(bs, 0);
      return Healthy;
    }
    if hasCancelled {
      OverallFromWorstRank(bs, 3);
      return Cancelled;
    }
    if hasUnavailable {
      OverallFromWorstRank(bs, 2);
      return Unavailable;
    }
    if hasUnsupported {
      OverallFromWorstRank(bs, 1);
      return Unsupported;
    }
    assert bs == [];
    return Unhealthy;
  }

  // ----- progress through the list ------------------------------------------------------

  function Names(bs: seq<Benchmark>): (ns: seq<string>)
    ensures |ns| == |bs|
  {
    seq(|bs|, i requires 0 <= i < |bs| => bs[i].name)
  }

  /** The first entry with the name of `b` becomes `b`. */
  function Replaced(bs: seq<Benchmark>, b: Benchmark): (r: seq<Benchmark>)
    ensures |r| == |bs|
  {
    if bs == [] then []
    else if bs[0].name == b.name then [b] + bs[1..]
    else [bs[0]] + Replaced(bs[1..], b)
  }

  lemma {:induction false} ReplacedAtFirst(bs: seq<Benchmark>, b: Benchmark, i: nat)
    requires i <= |bs| && forall k :: 0 <= k < i ==> bs[k].name != b.name
    ensures i < |bs| && bs[i].name == b.name ==> Replaced(bs, b) == bs[i := b]
    ensures i == |bs| ==> Replaced(bs, b) == bs
  {
    if i > 0 {
      ReplacedAtFirst(bs[1..], b, i - 1);
    }
  }

  lemma ReplacedAt(bs: seq<Benchmark>, b: Benchmark, i: nat)
    requires i < |bs| && bs[i].name == b.name && Distinct(Names(bs))
    ensures Replaced(bs, b) == bs[i := b]
    ensures Names(Replaced(bs, b)) == Names(bs)
  {
    forall k | 0 <= k < i
      ensures bs[k].name != b.name
    {
      assert Names(bs)[k] != Names(bs)[i];
    }
    ReplacedAtFirst(bs, b, i);
  }

  /** Results, then at most one benchmark under way, then benchmarks not begun: the first `k`
      are done and entry `k` is under way exactly when `under`. */
  predicate Shape(bs: seq<Benchmark>, k: nat, under: bool) {
    && k + (if under then 1 else 0) <= |bs|
    && (forall i :: 0 <= i < k ==> Terminal(bs[i].status))
    && (under ==> bs[k].status == Running)
    && (forall i :: k + (if under then 1 else 0) <= i < |bs| ==> bs[i].status == Pending)
  }
}
