/**
  The monitoring component: the data-drift report, which compares every
  numeric feature of a baseline table with the current table by PSI and KS
  and raises two aggregate flags, and the performance-drift check, which
  turns baseline and current model metrics into relative changes and a
  retraining verdict.
 */
module Monitoring {
  import opened Base
  import opened DriftStatistics

  /** The floor on bin shares that the report's PSI uses. */
  const PSI_EPSILON: real := 0.000001
  const DEFAULT_PSI_THRESHOLD: real := 0.2
  const DEFAULT_KS_THRESHOLD: real := 0.1
  const DEFAULT_DEGRADE_THRESHOLD: real := 0.1

  /** A table column: its name, whether pandas holds it with a numeric dtype, and its values. */
  datatype Column = Column(name: string, numeric: bool, values: Series)

  /** One row of the report's metrics table; `None` is NaN. */
  datatype FeatureDrift = FeatureDrift(feature: string, psi: Option<real>, ks: Option<real>)

  datatype DriftFlags = DriftFlags(psi: bool, ks: bool)

  datatype DriftReport = DriftReport(featureMetrics: seq<FeatureDrift>, flags: DriftFlags)

  /**
    Why no report is produced: a requested feature that `current` has but
    `baseline` lacks (pandas' KeyError on `baseline[col]`), or no compared
    feature at all (the KeyError of sorting a column-less table by "psi").
   */
  datatype DriftError = MissingBaselineColumn(name: string) | NoComparedFeature

  /** `frame[name]`: the column of that name, if the table has one. */
  function ColumnNamed(frame: seq<Column>, name: string): (r: Option<Column>)
    ensures r.Some? ==> r.value in frame && r.value.name == name
    ensures r.None? <==> forall i :: 0 <= i < |frame| ==> frame[i].name != name
  {
    if frame == [] then None
    else if frame[0].name == name then Some(frame[0])
    else ColumnNamed(frame[1..], name)
  }

  function IsNumeric(c: Column): bool { c.numeric }

  function NameOf(c: Column): string { c.name }

  /** The features compared when none are named: the baseline's numeric columns, in table order. */
  function FeatureColumns(baseline: seq<Column>, featureColumns: Option<seq<string>>): seq<string> {
    if featureColumns.None? then Map(Filter(baseline, IsNumeric), NameOf) else featureColumns.value
  }

  /** A feature is compared when `current` has it and the baseline holds it as a numeric column. */
  predicate Compared(baseline: seq<Column>, current: seq<Column>, col: string) {
    ColumnNamed(current, col).Some? && ColumnNamed(baseline, col).Some? && ColumnNamed(baseline, col).value.numeric
  }

  /** A feature requested from `current` that the baseline does not have. */
  predicate Unmatched(baseline: seq<Column>, current: seq<Column>, col: string) {
    ColumnNamed(current, col).Some? && ColumnNamed(baseline, col).None?
  }

  /** The record of a compared feature: its PSI (over `breaksOf` the baseline's values) and its KS. */
  function Record(baseline: seq<Column>, current: seq<Column>, col: string,
                  breaksOf: seq<real> -> seq<real>, ln: real -> real): FeatureDrift
    requires Compared(baseline, current, col)
  {
    var base := ColumnNamed(baseline, col).value.values;
    var cur := ColumnNamed(current, col).value.values;
    FeatureDrift(col, Psi(base, cur, breaksOf(Present(base)), PSI_EPSILON, ln), KolmogorovSmirnov(base, cur))
  }

  /**
    The outcome for one requested feature: skipped when `current` lacks it or
    the baseline column is not numeric, an error when the baseline lacks it,
    otherwise its record.
   */
  function CompareColumn(baseline: seq<Column>, current: seq<Column>, col: string,
                         breaksOf: seq<real> -> seq<real>, ln: real -> real): Result<Option<FeatureDrift>, DriftError>
  {
    if ColumnNamed(current, col).None? then Ok(None)
    else if ColumnNamed(baseline, col).None? then Err(MissingBaselineColumn(col))
    else if !ColumnNamed(baseline, col).value.numeric then Ok(None)
    else Ok(Some(Record(baseline, current, col, breaksOf, ln)))
  }

  /** The records of the requested features in order, or the first error. */
  function CompareColumns(baseline: seq<Column>, current: seq<Column>, cols: seq<string>,
                          breaksOf: seq<real> -> seq<real>, ln: real -> real): Result<seq<FeatureDrift>, DriftError>
  {
    if cols == [] then Ok([])
    else
      match CompareColumns(baseline, current, cols[..|cols| - 1], breaksOf, ln)
      case Err(e) => Err(e)
      case Ok(records) =>
        match CompareColumn(baseline, current, cols[|cols| - 1], breaksOf, ln)
        case Err(e) => Err(e)
        case Ok(None) => Ok(records)
        case Ok(Some(r)) => Ok(records + [r])
  }

  /** Some record has a defined PSI above the threshold; NaN never counts. */
  predicate PsiExceeds(records: seq<FeatureDrift>, threshold: real) {
    exists i :: 0 <= i < |records| && records[i].psi.Some? && records[i].psi.value > threshold
  }

  /** Some record has a defined KS above the threshold; NaN never counts. */
  predicate KsExceeds(records: seq<FeatureDrift>, threshold: real) {
    exists i :: 0 <= i < |records| && records[i].ks.Some? && records[i].ks.value > threshold
  }

  /** `x` may precede `y` in a table sorted by descending PSI, NaN last. */
  predicate Ranked(x: FeatureDrift, y: FeatureDrift) {
    y.psi.None? || (x.psi.Some? && x.psi.value >= y.psi.value)
  }

  predicate SortedByPsi(s: seq<FeatureDrift>) {
    forall i, j :: 0 <= i < j < |s| ==> Ranked(s[i], s[j])
  }

  function InsertByPsi(x: FeatureDrift, s: seq<FeatureDrift>): (r: seq<FeatureDrift>)
    ensures multiset(r) == multiset(s) + multiset{x}
  {
    if s == [] || Ranked(x, s[0]) then [x] + s
    else
      assert s == [s[0]] + s[1..];
      [s[0]] + InsertByPsi(x, s[1..])
  }

  lemma {:induction false} InsertByPsiSorted(x: FeatureDrift, s: seq<FeatureDrift>)
    requires SortedByPsi(s)
    ensures SortedByPsi(InsertByPsi(x, s))
  {
    if s != [] && !Ranked(x, s[0]) {
      var tail := InsertByPsi(x, s[1..]);
      InsertByPsiSorted(x, s[1..]);
      assert forall k :: 0 <= k < |tail| ==> tail[k] in multiset(s[1..]) + multiset{x};
      assert InsertByPsi(x, s) == [s[0]] + tail;
    }
  }

  /** `sort_values("psi", ascending=False)`: descending PSI with NaN last; the order among ties is pandas' own. */
  function SortByPsi(s: seq<FeatureDrift>): (r: seq<FeatureDrift>)
    ensures SortedByPsi(r)
    ensures multiset(r) == multiset(s)
  {
    if s == [] then []
    else
      assert s == s[..|s| - 1] + [s[|s| - 1]];
      InsertByPsiSorted(s[|s| - 1], SortByPsi(s[..|s| - 1]));
      InsertByPsi(s[|s| - 1], SortByPsi(s[..|s| - 1]))
  }

  /**
    `compute_data_drift_report`: one record per compared feature, sorted by
    descending PSI, with the `psi` (`ks`) flag raised exactly when some
    record has a defined PSI (KS) above its threshold. `breaksOf` gives the
    PSI break points of a baseline sample and `ln` the logarithm.
   */
  method ComputeDataDriftReport(baseline: seq<Column>, current: seq<Column>, featureColumns: Option<seq<string>>,
                                psiThreshold: real, ksThreshold: real,
                                breaksOf: seq<real> -> seq<real>, ln: real -> real)
    returns (result: Result<DriftReport, DriftError>)
    ensures CompareColumns(baseline, current, FeatureColumns(baseline, featureColumns), breaksOf, ln).Err? ==>
      result == Err(CompareColumns(baseline, current, FeatureColumns(baseline, featureColumns), breaksOf, ln).error)
    ensures CompareColumns(baseline, current, FeatureColumns(baseline, featureColumns), breaksOf, ln) == Ok([]) ==>
      result == Err(NoComparedFeature)
    ensures var records := CompareColumns(baseline, current, FeatureColumns(baseline, featureColumns), breaksOf, ln);
      records.Ok? && records.value != [] ==> result.Ok?
    ensures result.Ok? ==>
      var records := CompareColumns(baseline, current, FeatureColumns(baseline, featureColumns), breaksOf, ln);
      && records.Ok?
      && multiset(result.value.featureMetrics) == multiset(records.value)
      && SortedByPsi(result.value.featureMetrics)
      && result.value.flags == DriftFlags(PsiExceeds(records.value, psiThreshold), KsExceeds(records.value, ksThreshold))
  {
    var cols := FeatureColumns(baseline, featureColumns);
    var records: seq<FeatureDrift> := [];
    var flags := DriftFlags(false, false);
    for i := 0 to |cols|
      invariant CompareColumns(baseline, current, cols[..i], breaksOf, ln) == Ok(records)
      invariant flags == DriftFlags(PsiExceeds(records, psiThreshold), KsExceeds(records, ksThreshold))
    {
      assert cols[..i + 1][..i] == cols[..i];
      var cur := ColumnNamed(current, cols[i]);
      if cur.None? {
        continue;
      }
      var base := ColumnNamed(baseline, cols[i]);
      if base.None? {
        CompareColumnsError(baseline, current, cols, i + 1, breaksOf, ln);
        return Err(MissingBaselineColumn(cols[i]));
      }
      if !base.value.numeric {
        continue;
      }
      var psi := PopulationStabilityIndex(base.value.values, cur.value.values,
                                          breaksOf(Present(base.value.values)), PSI_EPSILON, ln);
      var ks := KolmogorovSmirnov(base.value.values, cur.value.values);
      var record := FeatureDrift(cols[i], psi, ks);
      ExceedsSnoc(records, record, psiThreshold, ksThreshold);
      records := records + [record];
      if psi.Some? && psi.value > psiThreshold {
        flags := flags.(psi := true);
      }
      if ks.Some? && ks.value > ksThreshold {
        flags := flags.(ks := true);
      }
    }
    assert cols[..|cols|] == cols;
    if records == [] {
      return Err(NoComparedFeature);
    }
    return Ok(DriftReport(SortByPsi(records), flags));
  }

  lemma ExceedsSnoc(records: seq<FeatureDrift>, r: FeatureDrift, psiThreshold: real, ksThreshold: real)
    ensures PsiExceeds(records + [r], psiThreshold) <==>
      PsiExceeds(records, psiThreshold) || (r.psi.Some? && r.psi.value > psiThreshold)
    ensures KsExceeds(records + [r], ksThreshold) <==>
      KsExceeds(records, ksThreshold) || (r.ks.Some? && r.ks.value > ksThreshold)
  {
    var s := records + [r];
    assert s[|records|] == r;
    assert forall i :: 0 <= i < |records| ==> s[i] == records[i];
  }

  /** An error on some requested feature is the error of the whole comparison. */
  lemma {:induction false} CompareColumnsError(baseline: seq<Column>, current: seq<Column>, cols: seq<string>, n: nat,
                                              breaksOf: seq<real> -> seq<real>, ln: real -> real)
    requires n <= |cols|
    requires CompareColumns(baseline, current, cols[..n], breaksOf, ln).Err?
    ensures CompareColumns(baseline, current, cols, breaksOf, ln) == CompareColumns(baseline, current, cols[..n], breaksOf, ln)
    decreases |cols| - n
  {
    if n < |cols| {
      assert cols[..n + 1][..n] == cols[..n];
      CompareColumnsError(baseline, current, cols, n + 1, breaksOf, ln);
    } else {
      assert cols[..n] == cols;
    }
  }

  /**
    Which features the report covers: it fails exactly when some requested
    feature of `current` is missing from the baseline, naming the first;
    otherwise it holds one record per compared request, in request order,
    and each record is that feature's record; every other request is skipped.
   */
  lemma CompareColumnsSpec(baseline: seq<Column>, current: seq<Column>, cols: seq<string>,
                           breaksOf: seq<real> -> seq<real>, ln: real -> real)
    ensures CompareColumns(baseline, current, cols, breaksOf, ln).Err? <==>
      exists j :: 0 <= j < |cols| && Unmatched(baseline, current, cols[j])
    ensures CompareColumns(baseline, current, cols, breaksOf, ln).Err? ==>
      exists j :: 0 <= j < |cols| && Unmatched(baseline, current, cols[j])
        && CompareColumns(baseline, current, cols, breaksOf, ln).error == MissingBaselineColumn(cols[j])
        && forall k :: 0 <= k < j ==> !Unmatched(baseline, current, cols[k])
    ensures CompareColumns(baseline, current, cols, breaksOf, ln).Ok? ==>
      var records := CompareColumns(baseline, current, cols, breaksOf, ln).value;
      && |records| <= |cols|
      && (forall k :: 0 <= k < |records| ==>
            records[k].feature in cols && Compared(baseline, current, records[k].feature)
            && records[k] == Record(baseline, current, records[k].feature, breaksOf, ln))
      && (forall j :: 0 <= j < |cols| && Compared(baseline, current, cols[j]) ==>
            Record(baseline, current, cols[j], breaksOf, ln) in records)
  {
    CompareColumnsFailure(baseline, current, cols, breaksOf, ln);
    CompareColumnsRecords(baseline, current, cols, breaksOf, ln);
  }

  /** The comparison fails exactly at the first requested feature the baseline lacks. */
  lemma {:induction false} CompareColumnsFailure(baseline: seq<Column>, current: seq<Column>, cols: seq<string>,
                                                breaksOf: seq<real> -> seq<real>, ln: real -> real)
    ensures CompareColumns(baseline, current, cols, breaksOf, ln).Err? <==>
      exists j :: 0 <= j < |cols| && Unmatched(baseline, current, cols[j])
    ensures CompareColumns(baseline, current, cols, breaksOf, ln).Err? ==>
      exists j :: 0 <= j < |cols| && Unmatched(baseline, current, cols[j])
        && CompareColumns(baseline, current, cols, breaksOf, ln).error == MissingBaselineColumn(cols[j])
        && forall k :: 0 <= k < j ==> !Unmatched(baseline, current, cols[k])
  {
    if cols != [] {
      var init := cols[..|cols| - 1];
      var last := cols[|cols| - 1];
      CompareColumnsFailure(baseline, current, init, breaksOf, ln);
      assert forall j :: 0 <= j < |init| ==> init[j] == cols[j];
      var prefix := CompareColumns(baseline, current, init, breaksOf, ln);
      if prefix.Err? {
        var j :| 0 <= j < |init| && Unmatched(baseline, current, init[j])
          && prefix.error == MissingBaselineColumn(init[j])
          && forall k :: 0 <= k < j ==> !Unmatched(baseline, current, init[k]);
        assert cols[j] == init[j];
      } else {
        assert forall j :: 0 <= j < |cols| - 1 ==> !Unmatched(baseline, current, cols[j]);
      }
    }
  }

  /** A successful comparison holds exactly the records of the compared features. */
  lemma {:induction false} CompareColumnsRecords(baseline: seq<Column>, current: seq<Column>, cols: seq<string>,
                                                breaksOf: seq<real> -> seq<real>, ln: real -> real)
    ensures CompareColumns(baseline, current, cols, breaksOf, ln).Ok? ==>
      var records := CompareColumns(baseline, current, cols, breaksOf, ln).value;
      && |records| <= |cols|
      && (forall k :: 0 <= k < |records| ==>
            records[k].feature in cols && Compared(baseline, current, records[k].feature)
            && records[k] == Record(baseline, current, records[k].feature, breaksOf, ln))
      && (forall j :: 0 <= j < |cols| && Compared(baseline, current, cols[j]) ==>
            Record(baseline, current, cols[j], breaksOf, ln) in records)
  {
    if cols != [] {
      var init := cols[..|cols| - 1];
      var last := cols[|cols| - 1];
      CompareColumnsRecords(baseline, current, init, breaksOf, ln);
      assert cols == init + [last];
      var prefix := CompareColumns(baseline, current, init, breaksOf, ln);
      if prefix.Ok? && CompareColumn(baseline, current, last, breaksOf, ln).Ok? {
        assert forall j :: 0 <= j < |cols| ==> cols[j] == last || cols[j] in init;
      }
    }
  }

  /**
    With no features named, every numeric baseline column is requested and
    none can be missing from the baseline: the comparison succeeds and
    covers exactly the numeric baseline columns that `current` also has.
   */
  lemma DefaultColumnsCompared(baseline: seq<Column>, current: seq<Column>,
                               breaksOf: seq<real> -> seq<real>, ln: real -> real)
    ensures CompareColumns(baseline, current, FeatureColumns(baseline, None), breaksOf, ln).Ok?
    ensures forall c :: (c in baseline && c.numeric && ColumnNamed(baseline, c.name) == Some(c)
                         && ColumnNamed(current, c.name).Some?) ==>
      Record(baseline, current, c.name, breaksOf, ln) in CompareColumns(baseline, current, FeatureColumns(baseline, None), breaksOf, ln).value
  {
    var cols := FeatureColumns(baseline, None);
    var numeric := Filter(baseline, IsNumeric);
    CompareColumnsSpec(baseline, current, cols, breaksOf, ln);
    forall j | 0 <= j < |cols| ensures !Unmatched(baseline, current, cols[j]) {
      FilterIn(baseline, IsNumeric, numeric[j]);
      assert cols[j] == numeric[j].name;
    }
    forall c | c in baseline && c.numeric && ColumnNamed(baseline, c.name) == Some(c) && ColumnNamed(current, c.name).Some?
      ensures c.name in cols
    {
      FilterIn(baseline, IsNumeric, c);
      var j :| 0 <= j < |numeric| && numeric[j] == c;
      assert cols[j] == c.name;
    }
  }

  // Performance drift

  /** The key under which `performance_drift` stores its verdict. */
  const NEEDS_RETRAIN: string := "needs_retrain"

  /** A value of the returned dictionary: a metric's relative change (NaN as `None`) or the verdict. */
  datatype DeltaValue = Delta(change: Option<real>) | Verdict(retrain: bool)

  /** `(current - baseline) / abs(baseline)`, NaN for a zero baseline. */
  function RelativeChange(baselineValue: real, currentValue: real): Option<real> {
    if baselineValue == 0.0 then None else Some((currentValue - baselineValue) / Abs(baselineValue))
  }

  /**
    The relative change is undefined exactly for a zero baseline; otherwise,
    scaled back by the baseline's magnitude, it is the difference, so it is
    negative exactly when the metric went down, and below `-t` exactly when
    the metric fell by more than `t` times the baseline's magnitude.
   */
  lemma RelativeChangeSpec(baselineValue: real, currentValue: real, t: real)
    ensures RelativeChange(baselineValue, currentValue).None? <==> baselineValue == 0.0
    ensures RelativeChange(baselineValue, currentValue).Some? ==>
      var d := RelativeChange(baselineValue, currentValue).value;
      && d * Abs(baselineValue) == currentValue - baselineValue
      && (d < 0.0 <==> currentValue < baselineValue)
      && (d < -t <==> currentValue - baselineValue < -t * Abs(baselineValue))
  {
    if baselineValue != 0.0 {
      var m := Abs(baselineValue);
      var d := (currentValue - baselineValue) / m;
      DivMul(currentValue - baselineValue, m);
      assert (d + t) * m == currentValue - baselineValue + t * m;
      PositiveFactor(d, m);
      PositiveFactor(d + t, m);
      PositiveFactor(-d, m);
      PositiveFactor(-(d + t), m);
    }
  }

  /** Some metric other than the verdict has a defined change below `-abs(threshold)`. */
  predicate Degraded(deltas: map<string, DeltaValue>, threshold: real) {
    exists m :: m in deltas && m != NEEDS_RETRAIN && deltas[m].Delta? && deltas[m].change.Some?
      && deltas[m].change.value < -Abs(threshold)
  }

  function MetricName(entry: (string, real)): string { entry.0 }

  /**
    `performance_drift`: for every baseline metric (a dictionary, given in
    its iteration order) that `current` also reports, its relative change;
    then the verdict under "needs_retrain", which replaces any metric of that
    name and is raised exactly when some other metric degraded beyond the
    threshold.
   */
  method PerformanceDrift(baseline: seq<(string, real)>, current: map<string, real>, degradeThreshold: real)
    returns (deltas: map<string, DeltaValue>)
    requires NoDuplicates(Map(baseline, MetricName))
    ensures NEEDS_RETRAIN in deltas
    ensures forall m :: m in deltas && m != NEEDS_RETRAIN ==> m in current && deltas[m].Delta?
    ensures forall i :: 0 <= i < |baseline| && baseline[i].0 != NEEDS_RETRAIN && baseline[i].0 in current ==>
      baseline[i].0 in deltas && deltas[baseline[i].0] == Delta(RelativeChange(baseline[i].1, current[baseline[i].0]))
    ensures forall m :: m in deltas && m != NEEDS_RETRAIN ==> exists i :: 0 <= i < |baseline| && baseline[i].0 == m
    ensures deltas[NEEDS_RETRAIN] == Verdict(Degraded(deltas, degradeThreshold))
    ensures deltas[NEEDS_RETRAIN].retrain <==>
      exists i :: 0 <= i < |baseline| && baseline[i].0 != NEEDS_RETRAIN && baseline[i].0 in current
        && baseline[i].1 != 0.0
        && (current[baseline[i].0] - baseline[i].1) / Abs(baseline[i].1) < -Abs(degradeThreshold)
  {
    deltas := map[];
    for i := 0 to |baseline|
      invariant forall m :: m in deltas ==> m in current && deltas[m].Delta?
      invariant forall k :: 0 <= k < i && baseline[k].0 in current ==>
        baseline[k].0 in deltas && deltas[baseline[k].0] == Delta(RelativeChange(baseline[k].1, current[baseline[k].0]))
      invariant forall m :: m in deltas ==> exists k :: 0 <= k < i && baseline[k].0 == m
    {
      var (metric, baselineValue) := baseline[i];
      if metric !in current {
        continue;
      }
      var currentValue := current[metric];
      assert forall k :: 0 <= k < i ==> baseline[k].0 != metric by {
        forall k | 0 <= k < i ensures baseline[k].0 != metric {
          assert Map(baseline, MetricName)[k] == baseline[k].0;
          assert Map(baseline, MetricName)[i] == metric;
        }
      }
      if baselineValue == 0.0 {
        deltas := deltas[metric := Delta(None)];
        continue;
      }
      deltas := deltas[metric := Delta(Some((currentValue - baselineValue) / Abs(baselineValue)))];
    }
    var degraded := exists m :: m in deltas && m != NEEDS_RETRAIN && deltas[m].Delta?
                                && deltas[m].change.Some? && deltas[m].change.value < -Abs(degradeThreshold);
    deltas := deltas[NEEDS_RETRAIN := Verdict(degraded)];
    RetrainVerdict(baseline, current, degradeThreshold, deltas);
  }

  /**
    The verdict in terms of the metrics themselves: retraining is needed
    exactly when some metric other than "needs_retrain", reported by both
    sides with a non-zero baseline, has a relative change below
    `-abs(threshold)`.
   */
  lemma RetrainVerdict(baseline: seq<(string, real)>, current: map<string, real>, threshold: real,
                       deltas: map<string, DeltaValue>)
    requires NEEDS_RETRAIN in deltas
    requires forall m :: m in deltas && m != NEEDS_RETRAIN ==> m in current && deltas[m].Delta?
    requires forall i :: 0 <= i < |baseline| && baseline[i].0 != NEEDS_RETRAIN && baseline[i].0 in current ==>
      baseline[i].0 in deltas && deltas[baseline[i].0] == Delta(RelativeChange(baseline[i].1, current[baseline[i].0]))
    requires forall m :: m in deltas && m != NEEDS_RETRAIN ==> exists i :: 0 <= i < |baseline| && baseline[i].0 == m
    ensures Degraded(deltas, threshold) <==>
      exists i :: 0 <= i < |baseline| && baseline[i].0 != NEEDS_RETRAIN && baseline[i].0 in current
        && baseline[i].1 != 0.0
        && (current[baseline[i].0] - baseline[i].1) / Abs(baseline[i].1) < -Abs(threshold)
  {
    if Degraded(deltas, threshold) {
      var m :| m in deltas && m != NEEDS_RETRAIN && deltas[m].Delta? && deltas[m].change.Some?
        && deltas[m].change.value < -Abs(threshold);
      var i :| 0 <= i < |baseline| && baseline[i].0 == m;
      assert deltas[m] == Delta(RelativeChange(baseline[i].1, current[m]));
    }
  }
}
