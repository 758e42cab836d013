# Churn pipeline core, modelled in Dafny

This project models the data-handling core of a customer-churn pipeline. The
pipeline reads a music-streaming event log, one row per user action. It
builds one feature row per user, labelled churned when the user confirmed a
cancellation. It splits the rows in time for training. It watches
production data for drift.

The modelled parts are:

- **Cleaning the event log** (`data_loader.dfy`, module `DataLoader`).
  - Rows without a usable user id are dropped.
  - Timestamps become milliseconds. Missing, empty and NaT-spelled ones become NaT; other text that is no number, and a value outside datetime64[ns], is an error.
  - A bad registration becomes missing.
  - Session ids and item numbers are coerced to integers, with defaults -1 and 0.
  - Lengths are coerced, with default 0.0.
- **Per-user features** (`features.dfy`, `features_props.dfy`, modules `Features` and `FeatureProps`).
  - Each user's events are sorted by time.
  - The timeline is cut at the first cancellation, or it ends at the last event.
  - It is narrowed to the look-back window and gated on minimum events and sessions.
  - It is summarised into counters, ratios, an event rate, the last level and gender, the location and the registration age.
  - The table is ordered by label time. `build_user_features` is a method with a loop over the users.
- **Drift monitoring** (`drift_statistics.dfy`, `monitoring.dfy`, modules `DriftStatistics` and `Monitoring`).
  - The two-sample Kolmogorov–Smirnov statistic.
  - The population stability index: bin assignment, epsilon floor and the sum over bins, as a method with a loop.
  - The per-feature drift report with its aggregate flags.
  - The relative change of each performance metric with the retraining verdict.
- **Training data handling** (`trainer.dfy`, module `Trainer`).
  - The temporal train/test split, with its fallback to a stratified split.
  - The partition of the feature columns into numeric and sorted remaining ones.
- **Configuration parsing** (`simple_yaml.dfy`, module `SimpleYaml`).
  - The indentation-based YAML subset reader, as a method over a stack of open mappings.
  - Its value coercion.
- **Analysis helpers** (`analysis.dfy`, module `Analysis`).
  - The per-event churn label.
  - The most frequent values of a column.

Shared modules:

- `base.dfy` (module `Base`): option and result types, filtering and counting, a stable sort by key, and distinctness.
- `text.dfy` (module `Text`): Python's `strip`, `splitlines`, `partition`, ASCII lower-casing, and integer and decimal parsing.

Timestamps are integers of milliseconds. Reals are exact, and a logarithm
is a parameter.

## Model

| member | source | states |
|---|---|---|
| Features.SafeRatio | build/lib/churn_pipeline/features.py:44-47 | `_safe_ratio`: 0 for a zero denominator, else the quotient; what it promises is stated by SafeRatioSpec and SafeRatioBounds |
| Features.SafeRatioSpec | build/lib/churn_pipeline/features.py:44-47 | a zero denominator gives 0; otherwise the ratio times the denominator is the numerator |
| Features.SafeRatioBounds | build/lib/churn_pipeline/features.py:44-47 | a part over a non-negative whole lies in [0, 1] |
| Features.TsBounds | build/lib/churn_pipeline/features.py:38 | the earliest and latest timestamps bound every event and are attained by some event |
| Features.PerHourSpec | build/lib/churn_pipeline/features.py:39-41 | the rate is non-negative; it is the count itself for a non-positive span; otherwise rate times hours is the count |
| Features.EventRate | build/lib/churn_pipeline/features.py:35-41 | `_event_rate`: events per hour of the window's span; its cases are stated by EventRateSpec |
| Features.EventRateSpec | build/lib/churn_pipeline/features.py:35-41 | an empty window has rate 0; a window of one instant has rate equal to its size; otherwise the rate is events per hour of the positive time span |
| Features.FirstChurnTs | build/lib/churn_pipeline/features.py:57-60 | the cutoff of a churned user is the timestamp of one of their cancellation events |
| Features.Window | build/lib/churn_pipeline/features.py:57-67 | the events kept before the cutoff and inside the look-back; WindowContents states them against the raw log |
| Features.Snapshot | build/lib/churn_pipeline/features.py:76-129 | the feature dictionary of one window; its fields are stated by RowCountsWindow, PaidRatioBounds, ActiveDaysAndGender and ChurnLabel |
| Features.UserRow | build/lib/churn_pipeline/features.py:55-129 | one loop iteration for a user: sort, cut, narrow, gate, summarise; RowOfUser, LabelTimestamp and NoLeakageAfterCancellation state what it yields |
| Features.UserSnapshot | build/lib/churn_pipeline/features.py:55-136 | the loop body yields exactly the user's specified feature row, or none when the gate rejects the window |
| Features.BuildUserFeatures | build/lib/churn_pipeline/features.py:50-138 | a missing page column is an error on a non-empty log; a missing optional column is an error exactly when some user passes the gate; otherwise the table has one row per kept user, each that user's row, with distinct users, sorted by label time |
| Features.CollectRows | build/lib/churn_pipeline/features.py:55-131 | the rows collected are the rows of the kept users in user order; an error names the missing column and happens only when some user is kept |
| Features.CollectedTable | build/lib/churn_pipeline/features.py:131-136 | sorting the collected rows by label time gives a feature table; it is empty exactly when no user is kept |
| Features.KeptUsersCollected | build/lib/churn_pipeline/features.py:55-131 | every kept user's row is among the collected rows |
| Features.UserHasEvents | build/lib/churn_pipeline/features.py:55 | every listed user has a non-empty timeline |
| Features.UsersOfNonEmptyLog | build/lib/churn_pipeline/features.py:55 | a non-empty log has at least one user |
| Features.EveryKeptUserListed | build/lib/churn_pipeline/features.py:55 | only users present in the log get a row |
| Features.RowCarriesUser | build/lib/churn_pipeline/features.py:133 | each row carries the id of the user it was built for |
| Features.DistinctRowsSorted | build/lib/churn_pipeline/features.py:136 | reordering the rows keeps them the users' own rows, with distinct users |
| FeatureProps.TimelineMultiset | build/lib/churn_pipeline/features.py:55-56 | a user's timeline holds exactly that user's events, each as often as in the log |
| FeatureProps.TimelineMembership | build/lib/churn_pipeline/features.py:55-56 | an event is in a user's timeline iff it is in the log and belongs to the user |
| FeatureProps.ChurnInTimeline | build/lib/churn_pipeline/features.py:57 | the timeline holds a cancellation iff the log holds one for that user |
| FeatureProps.FirstChurnIsEarliest | build/lib/churn_pipeline/features.py:58-60 | in a time-sorted timeline the first cancellation is no later than any other |
| FeatureProps.ChurnLabel | build/lib/churn_pipeline/features.py:57-133 | `churned` is 0 or 1, and it is 1 iff the user has a cancellation event |
| FeatureProps.RowOfUser | build/lib/churn_pipeline/features.py:69-97 | a kept user has events, passes the gate, and gets the snapshot of their window |
| FeatureProps.CutoffPlacement | build/lib/churn_pipeline/features.py:57-63 | the cutoff is the earliest cancellation of a churned user, otherwise the latest event |
| FeatureProps.ChurnedCutoff | build/lib/churn_pipeline/features.py:57-63 | a churned user's cutoff is the time of one of their cancellations and no later than any of them |
| FeatureProps.ActiveCutoff | build/lib/churn_pipeline/features.py:60 | the latest event time of a user is attained by one of their events and bounds all of them |
| FeatureProps.LabelTimestamp | build/lib/churn_pipeline/features.py:57-133 | `label_ts` is the earliest cancellation of a churned user, otherwise the user's last event time |
| FeatureProps.WindowContents | build/lib/churn_pipeline/features.py:65-67 | the window holds exactly the user's events before the cutoff (up to it when not churned) and inside the look-back |
| FeatureProps.RowCountsWindow | build/lib/churn_pipeline/features.py:65-81 | `num_events` counts the admitted events; the event and session minimums hold for every row |
| FeatureProps.OtherUsersIrrelevant | build/lib/churn_pipeline/features.py:55 | another user's event does not change a user's row |
| FeatureProps.InsertKeepsCutoff | build/lib/churn_pipeline/features.py:56-60 | adding an event at or after the first cancellation keeps that cancellation first |
| FeatureProps.TimelineSnoc | build/lib/churn_pipeline/features.py:55-56 | appending an event of the user inserts it into the sorted timeline |
| FeatureProps.WindowIgnoresLateEvent | build/lib/churn_pipeline/features.py:60-67 | an event at or after a churned user's cutoff leaves the cutoff and the window unchanged |
| FeatureProps.NoLeakageAfterCancellation | build/lib/churn_pipeline/features.py:57-67 | events logged after a cancellation cannot change a churned user's features |
| FeatureProps.PageCountsWithinEvents | build/lib/churn_pipeline/features.py:76-97 | the seven page counters together count at most the window's events |
| FeatureProps.CountersWithinEvents | build/lib/churn_pipeline/features.py:76-97 | a row's page counters sum to at most its `num_events` |
| FeatureProps.PaidRatioBounds | build/lib/churn_pipeline/features.py:104-105 | `paid_event_ratio` is the share of paid-level events in the window, within [0, 1] |
| FeatureProps.ActiveDaysAndGender | build/lib/churn_pipeline/features.py:107-129 | active days are non-negative and at most the look-back; a row is never flagged both male and female |
| FeatureProps.ActiveDaysBounds | build/lib/churn_pipeline/features.py:128-129 | the whole days between the first and last window events lie in [0, look-back] |
| DriftStatistics.ShareBounds | build/lib/churn_pipeline/monitoring.py:31-37 | a count over a total it does not exceed is a share in [0, 1] |
| DriftStatistics.CdfBounds | build/lib/churn_pipeline/monitoring.py:50-57 | the empirical distribution function lies in [0, 1] |
| DriftStatistics.GapBounds | build/lib/churn_pipeline/monitoring.py:50-57 | the distance between the two distribution functions lies in [0, 1] |
| DriftStatistics.GapSymmetric | build/lib/churn_pipeline/monitoring.py:50-57 | the distance does not depend on the order of the samples |
| DriftStatistics.GapOfCounts | build/lib/churn_pipeline/monitoring.py:50-57 | points that split both samples alike have equal distance |
| DriftStatistics.MaxOver | build/lib/churn_pipeline/monitoring.py:57 | the maximum bounds every value and is attained |
| DriftStatistics.MaxOverSameValues | build/lib/churn_pipeline/monitoring.py:51-57 | maxima over equal functions and the same point set agree |
| DriftStatistics.KolmogorovSmirnov | build/lib/churn_pipeline/monitoring.py:42-57 | the statistic is missing iff either sample has no value |
| DriftStatistics.KsBounds | build/lib/churn_pipeline/monitoring.py:42-57 | the statistic lies in [0, 1] |
| DriftStatistics.KsSymmetric | build/lib/churn_pipeline/monitoring.py:42-57 | swapping the samples leaves the statistic unchanged |
| DriftStatistics.KsSelf | build/lib/churn_pipeline/monitoring.py:42-57 | a non-empty sample against itself scores 0 |
| DriftStatistics.LargestAtMost | build/lib/churn_pipeline/monitoring.py:51-57 | the largest sample value not above a point, if any |
| DriftStatistics.CountWhereSame | build/lib/churn_pipeline/monitoring.py:54-55 | predicates that agree on a sample count it alike |
| DriftStatistics.GapStepsAtValues | build/lib/churn_pipeline/monitoring.py:51-57 | the distance only changes at sample values |
| DriftStatistics.KsIsSupremum | build/lib/churn_pipeline/monitoring.py:42-57 | the statistic is the supremum over all reals of the distance between the distribution functions, and it is attained |
| DriftStatistics.Digitize | build/lib/churn_pipeline/monitoring.py:31-32 | `np.digitize(x, breaks, right=False)`: the number of breaks at or below x; BinPlacement states where that puts x |
| DriftStatistics.Bin | build/lib/churn_pipeline/monitoring.py:31-32 | with two or more breaks the bin index is in range |
| DriftStatistics.CountPrefix | build/lib/churn_pipeline/monitoring.py:31 | a predicate true exactly on a prefix counts the prefix length |
| DriftStatistics.BinPlacement | build/lib/churn_pipeline/monitoring.py:31-32 | values below the first break go to bin 0, values at or above the last to the last bin, others to the bin whose breaks enclose them |
| DriftStatistics.BinRatio | build/lib/churn_pipeline/monitoring.py:36-37 | the floored share of a bin; BinRatioFloor states its bounds |
| DriftStatistics.BinRatioFloor | build/lib/churn_pipeline/monitoring.py:36-37 | a bin ratio is at least epsilon, equals the share when the share reaches epsilon, and is at most max(1, epsilon) |
| DriftStatistics.CountWhereSplit | build/lib/churn_pipeline/monitoring.py:34-37 | counts add up over a disjoint split of a predicate |
| DriftStatistics.CountInBinsRange | build/lib/churn_pipeline/monitoring.py:34-37 | the per-bin counts of the first k bins add up to the count in range [0, k) |
| DriftStatistics.BinCountsTotal | build/lib/churn_pipeline/monitoring.py:31-37 | every value falls in exactly one bin, so the bin counts add up to the sample size |
| DriftStatistics.BinsInRange | build/lib/churn_pipeline/monitoring.py:31-32 | every assigned bin is within the bins the breaks define |
| DriftStatistics.Psi | build/lib/churn_pipeline/monitoring.py:16-39 | the index is missing iff either sample has no value, and 0 with fewer than two breaks |
| DriftStatistics.PopulationStabilityIndex | build/lib/churn_pipeline/monitoring.py:16-39 | the loop over the bins computes the specified index |
| DriftStatistics.PsiSumSelf | build/lib/churn_pipeline/monitoring.py:34-38 | identical bin counts contribute 0 |
| DriftStatistics.PsiSelf | build/lib/churn_pipeline/monitoring.py:16-39 | a non-empty sample against itself has index 0 |
| DriftStatistics.PsiTermNonNegative | build/lib/churn_pipeline/monitoring.py:38 | each term (a - e)·ln(a/e) is non-negative for a logarithm with the sign of ln |
| DriftStatistics.PsiSumNonNegative | build/lib/churn_pipeline/monitoring.py:34-38 | the sum of the terms is non-negative |
| DriftStatistics.PsiNonNegative | build/lib/churn_pipeline/monitoring.py:16-39 | the index is never negative |
| Monitoring.ColumnNamed | build/lib/churn_pipeline/monitoring.py:77-81 | the column found has the name asked for; none is found iff no column has it |
| Monitoring.InsertByPsi | build/lib/churn_pipeline/monitoring.py:92 | inserting a record adds exactly that record |
| Monitoring.InsertByPsiSorted | build/lib/churn_pipeline/monitoring.py:92 | insertion keeps the records ordered by decreasing PSI |
| Monitoring.SortByPsi | build/lib/churn_pipeline/monitoring.py:92 | the records, permuted into decreasing PSI order |
| Monitoring.ComputeDataDriftReport | build/lib/churn_pipeline/monitoring.py:60-93 | an unmatched requested column is an error; no compared feature is an error; at least one compared feature always gives a report, and the report holds exactly the compared features' records, in decreasing PSI, with each flag raised iff some record exceeds its threshold |
| Monitoring.ExceedsSnoc | build/lib/churn_pipeline/monitoring.py:87-90 | a flag over one more record is raised iff it was already raised or the new record exceeds the threshold |
| Monitoring.CompareColumnsError | build/lib/churn_pipeline/monitoring.py:77-79 | once a column is unmatched, later columns do not change the outcome |
| Monitoring.CompareColumns | build/lib/churn_pipeline/monitoring.py:77-90 | the loop over the requested columns; CompareColumnsSpec, CompareColumnsFailure and CompareColumnsRecords state its outcome |
| Monitoring.CompareColumnsSpec | build/lib/churn_pipeline/monitoring.py:74-85 | the comparison fails iff some requested column is unmatched, naming the first one; otherwise it records each compared feature exactly as specified and misses none |
| Monitoring.CompareColumnsFailure | build/lib/churn_pipeline/monitoring.py:74-79 | the comparison fails iff some requested column is in the current frame but not the baseline, and the error names the first such column |
| Monitoring.CompareColumnsRecords | build/lib/churn_pipeline/monitoring.py:74-85 | a successful comparison records each compared feature exactly as specified, misses none, and holds no more records than requests |
| Monitoring.DefaultColumnsCompared | build/lib/churn_pipeline/monitoring.py:69-85 | with no columns named, every numeric baseline column also present in the current frame is compared, and nothing fails |
| Monitoring.RelativeChange | build/lib/churn_pipeline/monitoring.py:108-111 | the relative change of one metric, or NaN; RelativeChangeSpec states it |
| Monitoring.RelativeChangeSpec | build/lib/churn_pipeline/monitoring.py:108-111 | the change is missing iff the baseline is 0; otherwise change times the baseline's magnitude is the difference, it is negative iff the metric fell, and it is below -t iff the fall exceeds t times the baseline's magnitude |
| Monitoring.PerformanceDrift | build/lib/churn_pipeline/monitoring.py:96-116 | every baseline metric present now gets its relative change; nothing else is reported; retraining is needed iff some metric fell by more than the threshold's magnitude, relative to its baseline |
| Monitoring.RetrainVerdict | build/lib/churn_pipeline/monitoring.py:113-115 | the degradation test over the deltas agrees with the test over the inputs |
| DataLoader.StrictTime | src/churn_pipeline/data_loader.py:33 | NaT for a missing cell, the empty text and the NaT spellings; an error for other text that is no number and for a value outside datetime64[ns]; otherwise the truncated millisecond |
| DataLoader.CoercedTime | src/churn_pipeline/data_loader.py:34 | the truncated millisecond when the cell is a number inside datetime64[ns], NaT otherwise |
| DataLoader.TruncateWithin | src/churn_pipeline/data_loader.py:33-34 | truncating an in-range millisecond value keeps it in range |
| DataLoader.CleanEventLog | src/churn_pipeline/data_loader.py:26-44 | the cleaning function; CleanEventLogSpec, CleanIdsUsable and CleanIdempotent state what it does |
| DataLoader.CleanRows | src/churn_pipeline/data_loader.py:33-43 | each output row is the cleaning of the input row at the same place |
| DataLoader.FirstTimeError | src/churn_pipeline/data_loader.py:33 | no error iff every timestamp converts; an error is the conversion error of some timestamp |
| DataLoader.CleanEventLogSpec | src/churn_pipeline/data_loader.py:26-44 | cleaning fails iff a required column is missing or a kept row's timestamp is text that is no number (other than the empty text and the NaT spellings) or lies outside datetime64[ns]; otherwise it keeps, in order, exactly the rows with a usable user id, cleaning each one |
| DataLoader.NaTTimestampsKept | src/churn_pipeline/data_loader.py:33 | empty, missing and NaT-spelled timestamps do not fail the batch; they clean to NaT |
| DataLoader.KeptAndDropped | src/churn_pipeline/data_loader.py:30-32 | every row is either kept or dropped |
| DataLoader.WhitespaceIdKept | src/churn_pipeline/data_loader.py:30-41 | a blank but non-empty user id is kept as is |
| DataLoader.CleanIdsUsable | src/churn_pipeline/data_loader.py:30-41 | no cleaned row has an empty or "None" user id |
| DataLoader.IntToStringNotNone | src/churn_pipeline/data_loader.py:32-41 | an integer id never prints as "None" |
| DataLoader.TruncateInt | src/churn_pipeline/data_loader.py:35-40 | truncating a whole number gives it back |
| DataLoader.CleanIdempotent | src/churn_pipeline/data_loader.py:26-44 | cleaning a cleaned log again gives the same rows |
| DataLoader.RoundTripRows | src/churn_pipeline/data_loader.py:33-43 | cleaning the raw form of cleaned rows gives them back |
| DataLoader.RoundTripRow | src/churn_pipeline/data_loader.py:33-43 | cleaning the raw form of a cleaned row gives it back |
| DataLoader.SessionIdText | src/churn_pipeline/data_loader.py:35-37 | a session id written as integer text is read back as that integer |
| Trainer.FilterComplement | build/lib/churn_pipeline/trainer.py:32-33 | complementary masks split a table into two parts that together are the table |
| Trainer.TemporalPartition | build/lib/churn_pipeline/trainer.py:30-33 | the cutoff is the latest label time minus the holdout; train holds exactly the rows before it and test exactly those at or after it; together they are the table |
| Trainer.LatestInTest | build/lib/churn_pipeline/trainer.py:31-33 | with a non-negative holdout, every latest-labelled row is in the test part, so the test part is never empty |
| Trainer.TemporalSplit | build/lib/churn_pipeline/trainer.py:29-37 | `_temporal_split` with the stratified split as a parameter; TemporalSplitSpec, TemporalPartition and LatestInTest state it |
| Trainer.TemporalSplitSpec | build/lib/churn_pipeline/trainer.py:29-37 | with too few training rows or no test row the stratified split is returned; otherwise the split is a partition in which every training row is labelled strictly before every test row |
| Trainer.StrLessTrichotomy | build/lib/churn_pipeline/trainer.py:60 | Python's string order is a strict total order |
| Trainer.StrLessTransitive | build/lib/churn_pipeline/trainer.py:60 | the string order is transitive |
| Trainer.InsertName | build/lib/churn_pipeline/trainer.py:60 | inserting a new name adds exactly that name |
| Trainer.AfterHead | build/lib/churn_pipeline/trainer.py:60 | a sorted list whose head follows a name lies wholly after it |
| Trainer.InsertNameAfter | build/lib/churn_pipeline/trainer.py:60 | inserting a name after a bound keeps the list after that bound |
| Trainer.SortedCons | build/lib/churn_pipeline/trainer.py:60 | a name before every element of a sorted list can head it |
| Trainer.InsertNameSorted | build/lib/churn_pipeline/trainer.py:60 | insertion keeps the names strictly ascending |
| Trainer.SortNames | build/lib/churn_pipeline/trainer.py:60 | distinct names, permuted into strictly ascending order |
| Trainer.RemainderColumns | build/lib/churn_pipeline/trainer.py:53-60 | `sorted(set(feature_cols) - set(numeric_cols))`; ColumnPartition and RemainderMembers state it |
| Trainer.ColumnPartition | build/lib/churn_pipeline/trainer.py:53-60 | the feature columns are all columns but the target and `label_ts`; the numeric and remainder columns are disjoint, together name every feature column, and the remainder is sorted |
| Trainer.FeatureColumnsMembers | build/lib/churn_pipeline/trainer.py:53 | a column is a feature column iff it is neither the target nor `label_ts` |
| Trainer.FeatureColumnsOrder | build/lib/churn_pipeline/trainer.py:53 | the feature columns are the table's columns at strictly increasing positions, exactly those other than the target and `label_ts`, so they keep the table's order |
| Trainer.RemainderMembers | build/lib/churn_pipeline/trainer.py:59-60 | the remainder names exactly the non-numeric feature names |
| Trainer.NumericAreFeatures | build/lib/churn_pipeline/trainer.py:59 | every numeric column is a feature column |
| SimpleYaml.CoerceValue | build/lib/churn_pipeline/utils.py:53-64 | true/yes and false/no (in any ASCII case) become booleans, and only they do; text with a dot becomes a float exactly when it parses as a decimal, other text an integer exactly when it parses as one, and anything else stays the same text |
| SimpleYaml.CoerceIntText | build/lib/churn_pipeline/utils.py:59-62 | an integer's decimal text coerces back to that integer |
| SimpleYaml.SetAt | build/lib/churn_pipeline/utils.py:43-48 | writing through the open-mapping path sets the key in the innermost mapping, adds no other key, and leaves every entry off the path unchanged at every level |
| SimpleYaml.ValidPrefix | build/lib/churn_pipeline/utils.py:37-39 | closing levels keeps a path of open mappings |
| SimpleYaml.LookupExtend | build/lib/churn_pipeline/utils.py:42-45 | opening a nested mapping extends the path to it |
| SimpleYaml.Kept | build/lib/churn_pipeline/utils.py:37-39 | the levels kept are exactly those whose indent the line reaches |
| SimpleYaml.Step | build/lib/churn_pipeline/utils.py:27-48 | one line keeps the parser state well formed |
| SimpleYaml.Write | build/lib/churn_pipeline/utils.py:37-48 | a key line keeps the parser state well formed |
| SimpleYaml.Run | build/lib/churn_pipeline/utils.py:27-48 | any number of lines keeps the parser state well formed |
| SimpleYaml.CloseLevels | build/lib/churn_pipeline/utils.py:37-39 | the popping loop keeps exactly the levels the line's indent reaches |
| SimpleYaml.ParseSimpleYaml | build/lib/churn_pipeline/utils.py:22-50 | the parsing loop over the lines yields the specified document |
| SimpleYaml.RunAppend | build/lib/churn_pipeline/utils.py:27 | parsing two runs of lines is parsing the first, then the second |
| SimpleYaml.SkippedLineIgnored | build/lib/churn_pipeline/utils.py:28-30 | blank and comment lines change nothing |
| SimpleYaml.LinePartsSplit | build/lib/churn_pipeline/utils.py:32-35 | the indent is the count of leading spaces; the key and value are the stripped parts around the first colon |
| SimpleYaml.StepOpensMapping | build/lib/churn_pipeline/utils.py:37-46 | a key without a value closes deeper levels and opens an empty mapping under that key, two spaces deeper |
| SimpleYaml.StepAssigns | build/lib/churn_pipeline/utils.py:37-48 | a key with a value closes deeper levels and stores the coerced value under that key |
| SimpleYaml.RepeatedKeyOverwrites | build/lib/churn_pipeline/utils.py:48 | a repeated key at the same indent keeps the last value |
| Text.LStripSpec | build/lib/churn_pipeline/utils.py:28 | left stripping removes exactly the leading whitespace |
| Text.RStripSpec | build/lib/churn_pipeline/utils.py:28 | right stripping removes exactly the trailing whitespace |
| Text.StripSpec | build/lib/churn_pipeline/utils.py:28-35 | stripping leaves the middle of the text, with no whitespace at either end |
| Text.StripIdempotent | build/lib/churn_pipeline/utils.py:34-35 | stripping twice is stripping once |
| Text.LeadingSpaces | build/lib/churn_pipeline/utils.py:32 | the count of leading spaces, stopping at the first non-space |
| Text.FirstBreak | build/lib/churn_pipeline/utils.py:27 | the first line break, or the end of the text |
| Text.SplitLines | build/lib/churn_pipeline/utils.py:27 | no line holds a line break, and only the empty text has no lines |
| Text.SplitLinesHead | build/lib/churn_pipeline/utils.py:27 | the first line ends at the first boundary, a "\r" followed by "\n" being one boundary, and the rest is split the same way |
| Text.SplitLinesRebuild | build/lib/churn_pipeline/utils.py:27 | the lines, each followed by its boundary, give the text back |
| Text.LineEndsBoundaries | build/lib/churn_pipeline/utils.py:27 | every line but the last ends in a boundary, a last line without one is not empty, and "\r\n" is never split in two |
| Text.Find | build/lib/churn_pipeline/utils.py:33 | the first occurrence of the character, or the end |
| Text.PartitionSplit | build/lib/churn_pipeline/utils.py:33 | the part before the separator has none; with a separator the parts rebuild the text; without one, the text and an empty rest |
| Text.AsciiLower | build/lib/churn_pipeline/utils.py:54 | every character lowered in place, length kept |
| Text.ParseInt | build/lib/churn_pipeline/utils.py:62 | text is accepted iff it is an optional sign followed by one or more ASCII digits; accepted text has no dot |
| Text.DigitsValueLeading | build/lib/churn_pipeline/utils.py:62 | a digit string's value is its first digit times ten to the number of following digits, plus the value of the rest |
| Text.LeadingZeroKeepsValue | build/lib/churn_pipeline/utils.py:62 | a leading zero does not change the value, as `int("007") == 7` |
| Text.ParseIntSign | build/lib/churn_pipeline/utils.py:62 | bare digits and digits after '+' give their value; digits after '-' give its negation |
| Text.NatToDigitsValue | build/lib/churn_pipeline/utils.py:62 | the decimal digits of a number read back as that number |
| Text.IntToStringRoundTrip | build/lib/churn_pipeline/utils.py:62 | an integer's decimal text parses back to it |
| Analysis.AssignChurnLabels | scripts/analysis.py:32-36 | `assign_churn_labels`; AssignChurnLabelsSpec states it |
| Analysis.AssignChurnLabelsSpec | scripts/analysis.py:32-36 | every event is kept in order and unchanged; its label is 0 or 1, and 1 iff the same user has a cancellation event |
| Analysis.LabelsAgreeWithFeatures | scripts/analysis.py:32-36 | an event's label equals the `churned` value of its user's feature row |
| Analysis.OccurrencesPositive | scripts/analysis.py:40 | a value occurs at least once iff it is in the column |
| Analysis.Head | scripts/analysis.py:40 | `head(n)` is a prefix: n entries capped at the length, or all but the last -n for a negative n |
| Analysis.TallyEntries | scripts/analysis.py:40 | the tally has one distinct entry per value, each with its exact count |
| Analysis.EntriesDistinctCategories | scripts/analysis.py:40 | distinct entries with exact counts name distinct values |
| Analysis.ValueCounts | scripts/analysis.py:40 | `value_counts()`: the tally of present values, most frequent first; ValueCountsEntries and ValueCountsCoverOrdered state it |
| Analysis.ValueCountsEntries | scripts/analysis.py:40 | each value-count entry is a distinct present value with its exact, positive count |
| Analysis.ValueCountsCoverOrdered | scripts/analysis.py:40 | every present value has an entry, one per distinct value, with counts non-increasing |
| Analysis.CoverOrdered | scripts/analysis.py:40 | a permutation of the tally sorted by count covers every value, in non-increasing count order |
| Analysis.TopCategories | scripts/analysis.py:39-42 | `_top_categories`; TopCategoriesSpec and TopCategoriesLeaveOutLess state it |
| Analysis.TopCategoriesSpec | scripts/analysis.py:39-42 | the top list holds min(n, distinct values) distinct present values with exact counts, most frequent first |
| Analysis.TopCategoriesLeaveOutLess | scripts/analysis.py:39-42 | a present value left out occurs no more often than any value listed |
| Analysis.RankingPrefix | scripts/analysis.py:40 | a prefix of a complete ranking leaves out nothing more frequent than what it lists |

## Left out

- **Session statistics.** The mean, median and standard deviation of session minutes, and the standard deviation of items per session (build/lib/churn_pipeline/features.py:14-32 and the matching columns), are not modelled. They are floating-point statistics with no exact counterpart over reals.
- **Tie order in sorts.** pandas sorts with an unstable quicksort: each user's events by `ts` (build/lib/churn_pipeline/features.py:56), the feature table by `label_ts`, the drift report by PSI, and `value_counts`. The model uses a stable insertion sort, so events with equal `ts` keep their log order. The model therefore fixes values that pandas leaves open when a user has events with equal timestamps: `current_level_paid` (the last level, :115-117), `gender_M` and `gender_F` (the last distinct gender, :109-112) and `account_age_days` (the first registration, :123-126). For the tables, only order and permutation are stated, not the order among ties.
- **Group order.** pandas groups users in key order; the model lists users by first appearance. The final sort by label time governs the table's order either way, up to ties.
- **Events without a timestamp.** The feature model takes only timestamped events. Cleaning keeps a missing, empty or NaT-spelled `ts` as NaT, and such events reach `build_user_features`. There the cancellation cut and the look-back filter drop them, because comparisons with NaT are false. But for a user without a cancellation and a look-back of 0 they stay in the window (features.py:60-67) and are counted in `num_events`, the sessions, the page counters, `paid_event_ratio` and `current_level_paid`. This is not modelled.
- **DriftStatistics.Psi:** the natural logarithm and the quantile break points are parameters. The breaks are `np.quantile` of the expected sample (monitoring.py:26-29), a floating-point computation.
- **DriftStatistics.Psi:** epsilon must be positive. The source's default is 1e-6, and a zero epsilon would divide by zero.
- **Monitoring.ComputeDataDriftReport:** the current frame's column is compared whatever its dtype; only the baseline column's numeric dtype is checked.
- **Monitoring.PerformanceDrift:** the reported dictionary is a map, so the key order of the Python dict is not modelled.
- **DataLoader.CleanEventLog:** user ids stored as floats, numeric strings with exponents, `inf` or `nan`, and surrounding whitespace accepted by `to_numeric` are not modelled. Only signed decimal text is read.
- **DataLoader.CleanEventLog:** fractional milliseconds are truncated toward zero.
- **DataLoader.WholeOr:** `astype(int)` (data_loader.py:36, :39) is a cast to 64-bit integers. The model keeps the exact truncated value, so a session id or item number outside the int64 range is not modelled.
- **DataLoader.StrictTime:** the datetime64[ns] bound is checked on the exact value of the milliseconds. Floating-point rounding right at the bound is not modelled.
- **The stratified split.** scikit-learn's `train_test_split` is a parameter.
- **Model fitting and serving.** Training, MLflow logging, evaluation metrics, the HTTP API, the command-line scripts, configuration loading and plotting are outside this model, as is the copy of the loader under build/lib/churn_pipeline/data_loader.py.
- **_prepare_features.** Selecting `X_test` raises a KeyError when the test frame lacks a training column; only the column partition is modelled.
- **FeatureProps.NoLeakageAfterCancellation:** stated for a late event appended at the end of the log. An event inserted elsewhere in the log with a timestamp at or after the cutoff is not covered, because the stable sort's order among equal timestamps would have to be traced through the insertion.
- **Features.EventRateSpec:** the quotient is stated through `PerHour`, because the rate is a real division of the event count by the span in hours.
- **SimpleYaml.CoerceValue:** `float()` and `int()` accept only signed decimal digits here. Exponents, underscores, `inf`/`nan` and non-ASCII digits are not modelled.
