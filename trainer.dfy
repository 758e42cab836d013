/**
  The data handling of the trainer: the temporal train/test split of the
  feature table by label time, with its fallback to a stratified split, and
  the partition of the feature columns into numeric and categorical ones.
  The stratified split itself (scikit-learn) is a parameter.
 */
module Trainer {
  import opened Base
  import opened Features

  datatype SplitConfig = SplitConfig(splitMethod: string, testRatio: real, minTrainUsers: int, temporalHoldoutDays: int)

  const DEFAULT_SPLIT_CONFIG: SplitConfig := SplitConfig("temporal", 0.2, 50, 14)

  /** `train_test_split(..., test_size=ratio, random_state=seed, stratify=churned)`, which is not modelled. */
  type StratifiedSplit = (seq<FeatureRow>, real, int) -> (seq<FeatureRow>, seq<FeatureRow>)

  /** `label_ts.max() - Timedelta(days=holdout)`, in milliseconds; NaT (`None`) for an empty table. */
  function SplitCutoff(rows: seq<FeatureRow>, holdoutDays: int): Option<int> {
    if rows == [] then None else Some(MaxOf(Map(rows, LabelTsOf)) - holdoutDays * 86_400_000)
  }

  function LabelBefore(c: int): FeatureRow -> bool { (r: FeatureRow) => r.labelTs < c }
  function LabelFrom(c: int): FeatureRow -> bool { (r: FeatureRow) => r.labelTs >= c }

  /** The two label-time masks; a NaT cutoff compares false, so both parts are empty. */
  function TemporalParts(rows: seq<FeatureRow>, holdoutDays: int): (seq<FeatureRow>, seq<FeatureRow>) {
    match SplitCutoff(rows, holdoutDays)
    case None => ([], [])
    case Some(c) => (Filter(rows, LabelBefore(c)), Filter(rows, LabelFrom(c)))
  }

  /** The temporal parts are unusable: too few training rows, or no test row. */
  predicate NeedsFallback(parts: (seq<FeatureRow>, seq<FeatureRow>), cfg: SplitConfig) {
    |parts.0| < cfg.minTrainUsers || |parts.1| == 0
  }

  /** `_temporal_split`: the temporal parts, or the stratified split when they are unusable. */
  function TemporalSplit(rows: seq<FeatureRow>, cfg: SplitConfig, seed: int, stratified: StratifiedSplit)
    : (seq<FeatureRow>, seq<FeatureRow>)
  {
    var parts := TemporalParts(rows, cfg.temporalHoldoutDays);
    if NeedsFallback(parts, cfg) then stratified(rows, cfg.testRatio, seed) else parts
  }

  lemma {:induction false} FilterComplement<T>(s: seq<T>, p: T -> bool, q: T -> bool)
    requires forall i :: 0 <= i < |s| ==> q(s[i]) == !p(s[i])
    ensures multiset(Filter(s, p)) + multiset(Filter(s, q)) == multiset(s)
  {
    if s != [] {
      FilterComplement(s[1..], p, q);
      assert s == [s[0]] + s[1..];
    }
  }

  /**
    With a cutoff, train holds exactly the rows labelled before it and test
    exactly those labelled at or after it, each in table order; together
    they are the table.
   */
  lemma TemporalPartition(rows: seq<FeatureRow>, holdoutDays: int)
    requires rows != []
    ensures var c := SplitCutoff(rows, holdoutDays).value;
      var parts := TemporalParts(rows, holdoutDays);
      && c == MaxOf(Map(rows, LabelTsOf)) - holdoutDays * 86_400_000
      && (forall r :: r in parts.0 <==> r in rows && r.labelTs < c)
      && (forall r :: r in parts.1 <==> r in rows && r.labelTs >= c)
      && multiset(parts.0) + multiset(parts.1) == multiset(rows)
  {
    var c := SplitCutoff(rows, holdoutDays).value;
    forall r ensures r in Filter(rows, LabelBefore(c)) <==> r in rows && r.labelTs < c {
      FilterIn(rows, LabelBefore(c), r);
    }
    forall r ensures r in Filter(rows, LabelFrom(c)) <==> r in rows && r.labelTs >= c {
      FilterIn(rows, LabelFrom(c), r);
    }
    FilterComplement(rows, LabelBefore(c), LabelFrom(c));
  }

  /** A non-negative holdout puts every latest-labelled row in the temporal test part. */
  lemma LatestInTest(rows: seq<FeatureRow>, holdoutDays: int)
    requires rows != [] && holdoutDays >= 0
    ensures forall i :: 0 <= i < |rows| && rows[i].labelTs == MaxOf(Map(rows, LabelTsOf)) ==>
      rows[i] in TemporalParts(rows, holdoutDays).1
    ensures TemporalParts(rows, holdoutDays).1 != []
  {
    var m := MaxOf(Map(rows, LabelTsOf));
    var c := SplitCutoff(rows, holdoutDays).value;
    assert c <= m;
    var test := Filter(rows, LabelFrom(c));
    assert TemporalParts(rows, holdoutDays).1 == test;
    forall i | 0 <= i < |rows| && rows[i].labelTs == m ensures rows[i] in test {
      FilterIn(rows, LabelFrom(c), rows[i]);
    }
    var k :| 0 <= k < |rows| && Map(rows, LabelTsOf)[k] == m;
    assert rows[k].labelTs == m;
  }

  /**
    When the temporal split is kept, it is a partition of the table in which
    every training row is labelled strictly before every test row, with at
    least `min_train_users` training rows and at least one test row;
    otherwise the result is the stratified split.
   */
  lemma TemporalSplitSpec(rows: seq<FeatureRow>, cfg: SplitConfig, seed: int, stratified: StratifiedSplit)
    ensures var parts := TemporalParts(rows, cfg.temporalHoldoutDays);
      var split := TemporalSplit(rows, cfg, seed, stratified);
      && (NeedsFallback(parts, cfg) ==> split == stratified(rows, cfg.testRatio, seed))
      && (!NeedsFallback(parts, cfg) ==>
            && multiset(split.0) + multiset(split.1) == multiset(rows)
            && |split.0| >= cfg.minTrainUsers && split.1 != []
            && forall r, t :: r in split.0 && t in split.1 ==> r.labelTs < t.labelTs)
  {
    if rows != [] {
      TemporalPartition(rows, cfg.temporalHoldoutDays);
    }
  }

  // Feature columns

  /** A column of the training table and whether pandas holds it with a numeric dtype. */
  datatype FrameColumn = FrameColumn(name: string, numeric: bool)

  function ColumnName(c: FrameColumn): string { c.name }

  function NotReserved(target: string): FrameColumn -> bool {
    (c: FrameColumn) => c.name != target && c.name != "label_ts"
  }

  function NumericColumn(c: FrameColumn): bool { c.numeric }

  /** `feature_cols`: every column but the target and `label_ts`, in table order. */
  function FeatureColumnsOf(columns: seq<FrameColumn>, target: string): seq<FrameColumn> {
    Filter(columns, NotReserved(target))
  }

  /** `select_dtypes(include=[np.number])` of the feature columns: their numeric ones, in order. */
  function NumericColumns(columns: seq<FrameColumn>, target: string): seq<string> {
    Map(Filter(FeatureColumnsOf(columns, target), NumericColumn), ColumnName)
  }

  /** Python's ordering of strings: by code point, a proper prefix first. */
  predicate StrLess(a: string, b: string) {
    if a == [] then b != []
    else if b == [] then false
    else if a[0] != b[0] then a[0] < b[0]
    else StrLess(a[1..], b[1..])
  }

  lemma {:induction false} StrLessTrichotomy(a: string, b: string)
    ensures a == b || StrLess(a, b) || StrLess(b, a)
    ensures !(StrLess(a, b) && StrLess(b, a))
    ensures !StrLess(a, a)
  {
    if a != [] && b != [] && a[0] == b[0] {
      StrLessTrichotomy(a[1..], b[1..]);
      if a[1..] == b[1..] {
        assert a == [a[0]] + a[1..] && b == [b[0]] + b[1..];
      }
    } else if a != [] {
      StrLessTrichotomy(a[1..], a[1..]);
    }
  }

  lemma {:induction false} StrLessTransitive(a: string, b: string, c: string)
    requires StrLess(a, b) && StrLess(b, c)
    ensures StrLess(a, c)
  {
    if a != [] && b != [] && c != [] && a[0] == b[0] && b[0] == c[0] {
      StrLessTransitive(a[1..], b[1..], c[1..]);
    }
  }

  predicate StrictlySorted(s: seq<string>) {
    forall i, j :: 0 <= i < j < |s| ==> StrLess(s[i], s[j])
  }

  /** Inserts a name not yet present into a strictly sorted list. */
  function InsertName(x: string, s: seq<string>): (r: seq<string>)
    requires x !in s
    ensures multiset(r) == multiset(s) + multiset{x}
  {
    if s == [] then [x]
    else if StrLess(x, s[0]) then [x] + s
    else
      assert s == [s[0]] + s[1..];
      [s[0]] + InsertName(x, s[1..])
  }

  /** Every name of `s` comes after `y`. */
  predicate AllAfter(y: string, s: seq<string>) {
    forall k :: 0 <= k < |s| ==> StrLess(y, s[k])
  }

  /** A sorted list whose head comes after `y` lies wholly after `y`. */
  lemma AfterHead(y: string, s: seq<string>)
    requires StrictlySorted(s) && s != [] && StrLess(y, s[0])
    ensures AllAfter(y, s)
  {
    forall j | 0 < j < |s| ensures StrLess(y, s[j]) {
      StrLessTransitive(y, s[0], s[j]);
    }
  }

  lemma {:induction false} InsertNameAfter(y: string, x: string, s: seq<string>)
    requires x !in s && AllAfter(y, s) && StrLess(y, x)
    ensures AllAfter(y, InsertName(x, s))
  {
    if s != [] && !StrLess(x, s[0]) {
      InsertNameAfter(y, x, s[1..]);
    }
  }

  lemma SortedCons(y: string, s: seq<string>)
    requires AllAfter(y, s) && StrictlySorted(s)
    ensures StrictlySorted([y] + s)
  {
  }

  lemma {:induction false} InsertNameSorted(x: string, s: seq<string>)
    requires x !in s && StrictlySorted(s)
    ensures StrictlySorted(InsertName(x, s))
  {
    if s != [] {
      if StrLess(x, s[0]) {
        AfterHead(x, s);
        SortedCons(x, s);
      } else {
        StrLessTrichotomy(x, s[0]);
        assert StrLess(s[0], x);
        InsertNameSorted(x, s[1..]);
        assert AllAfter(s[0], s[1..]);
        InsertNameAfter(s[0], x, s[1..]);
        SortedCons(s[0], InsertName(x, s[1..]));
      }
    }
  }

  /** `sorted(...)` of distinct names. */
  function SortNames(s: seq<string>): (r: seq<string>)
    requires NoDuplicates(s)
    ensures StrictlySorted(r)
    ensures multiset(r) == multiset(s)
  {
    if s == [] then []
    else
      var init := s[..|s| - 1];
      assert s == init + [s[|s| - 1]];
      assert s[|s| - 1] !in init;
      var sorted := SortNames(init);
      assert s[|s| - 1] !in multiset(sorted);
      InsertNameSorted(s[|s| - 1], sorted);
      InsertName(s[|s| - 1], sorted)
  }

  /** `sorted(set(feature_cols) - set(numeric_cols))`. */
  function RemainderColumns(columns: seq<FrameColumn>, target: string): seq<string> {
    var numeric := NumericColumns(columns, target);
    var rest := Distinct(Filter(Map(FeatureColumnsOf(columns, target), ColumnName), (n: string) => n !in numeric));
    SortNames(rest)
  }

  /**
    The feature columns are the table's columns other than the target and
    `label_ts`; the numeric columns and the sorted remainder share no name
    and together name every feature column; the remainder is in strictly
    ascending order.
   */
  lemma ColumnPartition(columns: seq<FrameColumn>, target: string)
    ensures forall c :: c in FeatureColumnsOf(columns, target) <==> c in columns && c.name != target && c.name != "label_ts"
    ensures var numeric := NumericColumns(columns, target);
      var remainder := RemainderColumns(columns, target);
      var features := Map(FeatureColumnsOf(columns, target), ColumnName);
      && (forall n :: !(n in numeric && n in remainder))
      && (forall n :: n in features <==> n in numeric || n in remainder)
      && StrictlySorted(remainder)
  {
    FeatureColumnsMembers(columns, target);
    RemainderMembers(columns, target);
    NumericAreFeatures(columns, target);
  }

  lemma FeatureColumnsMembers(columns: seq<FrameColumn>, target: string)
    ensures forall c :: c in FeatureColumnsOf(columns, target) <==> c in columns && c.name != target && c.name != "label_ts"
  {
    forall c ensures c in FeatureColumnsOf(columns, target) <==> c in columns && c.name != target && c.name != "label_ts" {
      FilterIn(columns, NotReserved(target), c);
    }
  }

  /**
    `[col for col in train_df.columns if ...]` keeps the columns' order: the
    feature columns are the columns at strictly increasing positions, and
    those positions hold exactly the columns other than the target and
    `label_ts`.
   */
  lemma FeatureColumnsOrder(columns: seq<FrameColumn>, target: string) returns (idx: seq<nat>)
    ensures var features := FeatureColumnsOf(columns, target);
      && |idx| == |features|
      && (forall k :: 0 <= k < |idx| ==> idx[k] < |columns| && columns[idx[k]] == features[k])
      && (forall k, l :: 0 <= k < l < |idx| ==> idx[k] < idx[l])
      && (forall i :: 0 <= i < |columns| ==>
            (i in idx <==> columns[i].name != target && columns[i].name != "label_ts"))
  {
    idx := FilterIndices(columns, NotReserved(target));
  }

  /** The remainder names exactly the feature names that are not numeric. */
  lemma RemainderMembers(columns: seq<FrameColumn>, target: string)
    ensures var numeric := NumericColumns(columns, target);
      var features := Map(FeatureColumnsOf(columns, target), ColumnName);
      forall n :: n in RemainderColumns(columns, target) <==> n in features && n !in numeric
  {
    var numeric := NumericColumns(columns, target);
    var features := Map(FeatureColumnsOf(columns, target), ColumnName);
    var notNumeric := (n: string) => n !in numeric;
    var filtered := Filter(features, notNumeric);
    var rest := Distinct(filtered);
    var remainder := RemainderColumns(columns, target);
    assert remainder == SortNames(rest);
    forall n ensures n in remainder <==> n in features && n !in numeric {
      assert n in remainder <==> n in multiset(remainder);
      assert n in rest <==> n in multiset(rest);
      DistinctIn(filtered, n);
      FilterIn(features, notNumeric, n);
    }
  }

  lemma NumericAreFeatures(columns: seq<FrameColumn>, target: string)
    ensures forall n :: n in NumericColumns(columns, target) ==> n in Map(FeatureColumnsOf(columns, target), ColumnName)
  {
    var fc := FeatureColumnsOf(columns, target);
    var features := Map(fc, ColumnName);
    forall n | n in NumericColumns(columns, target) ensures n in features {
      var numCols := Filter(fc, NumericColumn);
      var k :| 0 <= k < |numCols| && numCols[k].name == n;
      FilterIn(fc, NumericColumn, numCols[k]);
      var j :| 0 <= j < |fc| && fc[j] == numCols[k];
      assert features[j] == n;
    }
  }
}
