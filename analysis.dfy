/**
  The two table helpers of the exploratory analysis script: labelling every
  event with whether its user ever confirmed a cancellation, and the
  most frequent values of a categorical column.
 */
module Analysis {
  import opened Base
  import opened Features
  import opened FeatureProps

  // Event labels

  /** An event of the log together with the `churned` column the script adds. */
  datatype LabelledEvent = LabelledEvent(event: Event, churned: int)

  /** The users with at least one cancellation event. */
  function ChurnUsers(events: seq<Event>): set<string> {
    set i | 0 <= i < |events| && events[i].page == CHURN_EVENT :: events[i].userId
  }

  function LabelWith(churnUsers: set<string>): Event -> LabelledEvent {
    (e: Event) => LabelledEvent(e, if e.userId in churnUsers then 1 else 0)
  }

  /** `assign_churn_labels`: a copy of the log with a 0/1 `churned` column. */
  function AssignChurnLabels(events: seq<Event>): seq<LabelledEvent> {
    Map(events, LabelWith(ChurnUsers(events)))
  }

  /**
    The labelled log keeps every event, in order and unchanged, and labels
    an event 1 exactly when some event of the same user is a cancellation,
    0 otherwise.
   */
  lemma AssignChurnLabelsSpec(events: seq<Event>)
    ensures var r := AssignChurnLabels(events);
      && |r| == |events|
      && forall i :: 0 <= i < |r| ==>
        && r[i].event == events[i]
        && (r[i].churned == 0 || r[i].churned == 1)
        && (r[i].churned == 1 <==>
              exists j :: 0 <= j < |events| && events[j].userId == events[i].userId && events[j].page == CHURN_EVENT)
  {
    var r := AssignChurnLabels(events);
    forall i | 0 <= i < |r|
      ensures r[i].churned == 1 <==>
        exists j :: 0 <= j < |events| && events[j].userId == events[i].userId && events[j].page == CHURN_EVENT
    {
      if r[i].churned == 1 {
        assert events[i].userId in ChurnUsers(events);
      }
      if exists j :: 0 <= j < |events| && events[j].userId == events[i].userId && events[j].page == CHURN_EVENT {
        var j :| 0 <= j < |events| && events[j].userId == events[i].userId && events[j].page == CHURN_EVENT;
        assert events[j].userId in ChurnUsers(events);
      }
    }
  }

  /**
    The script's event labels agree with the `churned` column of the
    feature table for every user who has a feature row.
   */
  lemma LabelsAgreeWithFeatures(events: seq<Event>, i: int, cfg: FeatureConfig, cols: EventColumns)
    requires 0 <= i < |events|
    requires UserRow(events, events[i].userId, cfg, cols).Some?
    ensures AssignChurnLabels(events)[i].churned == UserRow(events, events[i].userId, cfg, cols).value.churned
  {
    AssignChurnLabelsSpec(events);
    ChurnLabel(events, events[i].userId, cfg, cols);
  }

  // Top categories

  /** A value of the column and how often it occurs. */
  datatype CategoryCount = CategoryCount(category: string, count: nat)

  function Equals(c: string): string -> bool { (v: string) => v == c }

  /** The number of occurrences of `c` in `vals`. */
  function Occurrences(vals: seq<string>, c: string): nat {
    CountWhere(vals, Equals(c))
  }

  lemma {:induction false} OccurrencesPositive(vals: seq<string>, c: string)
    ensures c in vals <==> Occurrences(vals, c) >= 1
  {
    if vals != [] {
      OccurrencesPositive(vals[1..], c);
      assert vals == [vals[0]] + vals[1..];
    }
  }

  function CountOf(vals: seq<string>): string -> CategoryCount {
    (c: string) => CategoryCount(c, Occurrences(vals, c))
  }

  /** One entry per distinct value, in order of first appearance. */
  function Tally(vals: seq<string>): seq<CategoryCount> {
    Map(Distinct(vals), CountOf(vals))
  }

  function NegatedCount(e: CategoryCount): int { -(e.count as int) }

  /** `value_counts()`: missing values dropped, most frequent value first. */
  function ValueCounts(series: seq<Option<string>>): seq<CategoryCount> {
    SortByKey(Tally(Present(series)), NegatedCount)
  }

  /** `head(n)`: the first `n` entries, or all but the last `-n` when `n` is negative. */
  function Head<T>(s: seq<T>, n: int): (r: seq<T>)
    ensures n >= 0 ==> |r| == if n <= |s| then n else |s|
    ensures n < 0 ==> |r| == if |s| + n >= 0 then |s| + n else 0
    ensures r == s[..|r|]
  {
    if n >= 0 then (if n <= |s| then s[..n] else s)
    else (if |s| + n >= 0 then s[..|s| + n] else [])
  }

  /** `_top_categories`. */
  function TopCategories(series: seq<Option<string>>, topN: int): seq<CategoryCount> {
    Head(ValueCounts(series), topN)
  }

  /** Every tally entry is a present value with its exact count. */
  lemma TallyEntries(vals: seq<string>)
    ensures forall e :: e in Tally(vals) ==> e.category in vals && e.count == Occurrences(vals, e.category)
    ensures NoDuplicates(Tally(vals))
    ensures forall v :: v in vals ==> CountOf(vals)(v) in Tally(vals)
  {
    var tally := Tally(vals);
    var d := Distinct(vals);
    forall i, j | 0 <= i < j < |tally| ensures tally[i] != tally[j] {
      assert tally[i].category == d[i] && tally[j].category == d[j];
    }
    forall v | v in vals ensures CountOf(vals)(v) in tally {
      var k :| 0 <= k < |d| && d[k] == v;
      assert tally[k] == CountOf(vals)(v);
    }
  }

  /** Entries with one category and their exact counts are equal. */
  lemma EntriesDistinctCategories(vals: seq<string>, vc: seq<CategoryCount>)
    requires NoDuplicates(vc)
    requires forall e :: e in vc ==> e.count == Occurrences(vals, e.category)
    ensures forall i, j :: 0 <= i < j < |vc| ==> vc[i].category != vc[j].category
  {
    forall i, j | 0 <= i < j < |vc| ensures vc[i].category != vc[j].category {
      assert vc[i] in vc && vc[j] in vc;
    }
  }

  /**
    Every entry of the value counts is a distinct present value with its
    exact, positive number of occurrences.
   */
  lemma ValueCountsEntries(series: seq<Option<string>>)
    ensures var vals := Present(series);
      var vc := ValueCounts(series);
      && (forall i :: 0 <= i < |vc| ==> vc[i].category in vals && vc[i].count == Occurrences(vals, vc[i].category))
      && (forall i :: 0 <= i < |vc| ==> vc[i].count >= 1)
      && (forall i, j :: 0 <= i < j < |vc| ==> vc[i].category != vc[j].category)
  {
    var vals := Present(series);
    var tally := Tally(vals);
    var vc := ValueCounts(series);
    TallyEntries(vals);
    forall e | e in vc ensures e in tally {
      assert e in multiset(vc);
    }
    forall i | 0 <= i < |vc| ensures vc[i].count >= 1 {
      assert vc[i] in vc;
      OccurrencesPositive(vals, vc[i].category);
    }
    NoDuplicatesPermutation(tally, vc);
    EntriesDistinctCategories(vals, vc);
  }

  /**
    Every present value has an entry in the value counts, there is one entry
    per distinct value, and the counts do not increase along the list.
   */
  lemma ValueCountsCoverOrdered(series: seq<Option<string>>)
    ensures var vals := Present(series);
      var vc := ValueCounts(series);
      && |vc| == |Distinct(vals)|
      && (forall v :: v in vals ==> exists i :: 0 <= i < |vc| && vc[i].category == v)
      && (forall i, j :: 0 <= i < j < |vc| ==> vc[i].count >= vc[j].count)
  {
    var vals := Present(series);
    TallyEntries(vals);
    CoverOrdered(vals, Tally(vals), ValueCounts(series));
  }

  lemma CoverOrdered(vals: seq<string>, tally: seq<CategoryCount>, vc: seq<CategoryCount>)
    requires multiset(vc) == multiset(tally) && SortedByKey(vc, NegatedCount)
    requires forall v :: v in vals ==> CountOf(vals)(v) in tally
    ensures forall v :: v in vals ==> exists i :: 0 <= i < |vc| && vc[i].category == v
    ensures forall i, j :: 0 <= i < j < |vc| ==> vc[i].count >= vc[j].count
  {
    forall v | v in vals ensures exists i :: 0 <= i < |vc| && vc[i].category == v {
      assert CountOf(vals)(v) in multiset(vc);
      var i :| 0 <= i < |vc| && vc[i] == CountOf(vals)(v);
    }
    forall i, j | 0 <= i < j < |vc| ensures vc[i].count >= vc[j].count {
      assert NegatedCount(vc[i]) <= NegatedCount(vc[j]);
    }
  }

  /**
    `_top_categories` with a non-negative `top_n` lists distinct present
    values with their exact counts, most frequent first, as many as there
    are distinct values up to `top_n`.
   */
  lemma TopCategoriesSpec(series: seq<Option<string>>, topN: int)
    requires topN >= 0
    ensures var vals := Present(series);
      var top := TopCategories(series, topN);
      && |top| == (if topN <= |Distinct(vals)| then topN else |Distinct(vals)|)
      && (forall i :: 0 <= i < |top| ==> top[i].category in vals && top[i].count == Occurrences(vals, top[i].category))
      && (forall i, j :: 0 <= i < j < |top| ==> top[i].category != top[j].category)
      && (forall i, j :: 0 <= i < j < |top| ==> top[i].count >= top[j].count)
  {
    var vc := ValueCounts(series);
    ValueCountsEntries(series);
    ValueCountsCoverOrdered(series);
    assert TopCategories(series, topN) == vc[..|TopCategories(series, topN)|];
  }

  /** A present value that `_top_categories` leaves out occurs no more often than any value it lists. */
  lemma TopCategoriesLeaveOutLess(series: seq<Option<string>>, topN: int)
    ensures var vals := Present(series);
      var top := TopCategories(series, topN);
      forall v, i :: v in vals && 0 <= i < |top| && (forall k :: 0 <= k < |top| ==> top[k].category != v) ==>
        Occurrences(vals, v) <= top[i].count
  {
    var vc := ValueCounts(series);
    ValueCountsEntries(series);
    ValueCountsCoverOrdered(series);
    RankingPrefix(Present(series), vc, |TopCategories(series, topN)|);
  }

  /** A prefix of a complete ranking of `vals` keeps its properties and leaves out nothing more frequent. */
  lemma RankingPrefix(vals: seq<string>, vc: seq<CategoryCount>, n: nat)
    requires n <= |vc|
    requires forall i :: 0 <= i < |vc| ==> vc[i].category in vals && vc[i].count == Occurrences(vals, vc[i].category)
    requires forall v :: v in vals ==> exists i :: 0 <= i < |vc| && vc[i].category == v
    requires forall i, j :: 0 <= i < j < |vc| ==> vc[i].count >= vc[j].count
    ensures forall v, i :: v in vals && 0 <= i < n && (forall k :: 0 <= k < n ==> vc[..n][k].category != v) ==>
      Occurrences(vals, v) <= vc[..n][i].count
  {
    forall v, i | v in vals && 0 <= i < n && (forall k :: 0 <= k < n ==> vc[..n][k].category != v)
      ensures Occurrences(vals, v) <= vc[..n][i].count
    {
      var j :| 0 <= j < |vc| && vc[j].category == v;
      assert vc[..n][i] == vc[i];
    }
  }
}
