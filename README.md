# E-commerce clickstream cleaning and RFM segmentation, modelled in Dafny

This project models the two deterministic table transformations of the `ecommerce_analysis`
repository:

- the cleaning pipeline of `DataCleaner` (`src/data_clean.py`), which cleans the Taobao
  user-behaviour log in six steps:
  1. drop rows with a missing cell;
  2. drop exact duplicates, keeping the first;
  3. derive date, hour and weekday from the epoch-seconds time;
  4. keep the nine-day analysis window [2017-11-25, 2017-12-04) UTC;
  5. relabel pv/buy/cart/fav as 点击/购买/加购/收藏;
  6. delete purchases that have no click at or before them, then count the categories where
     purchases outnumber clicks;
- the RFM engine of `RFMAnalyzer` (`src/rfm_analysis.py`). It computes recency, frequency and
  a purchase-count monetary proxy per purchasing user. It scores each column into quantile bins,
  totals the scores and assigns one of five segments by an ordered rule chain.

Files and modules:

| file | module | contents |
|---|---|---|
| `seqs.dfy` | `Seqs` | order-preserving `Filter`, `Count`, first-occurrence `Dedup`, the `SubseqOf` order relation and their lemmas |
| `events.dfy` | `Events` | `Option`, the raw row (every cell optional), the event row (source columns plus the derived calendar and label columns), `Behavior` |
| `cleaning.dfy` | `Cleaning` | each cleaning step as a function on row sequences, with the lemmas stating what each step guarantees, and the whole pipeline `CleanPipeline` |
| `cleaner.dfy` | `DataClean` | class `DataCleaner`: the fields the source reassigns, and one method per step |
| `rfm.dfy` | `RfmModel` | the per-user table, bin assignment against given edges, the scoring steps, the segmentation chain with its rule-table reference, and their lemmas |
| `analyzer.dfy` | `RfmAnalysis` | class `RfmAnalyzer`: the `rfm` field, the set of score columns the table carries, and the three steps with their "not calculated yet" guards |

Modelling choices:

- Timestamps are integer epoch seconds. Dates are integer epoch days. Hour and weekday use
  Dafny's floor division, so `StampOf` is right for negative times too.
- `pd.to_datetime(unit="s")` fails outside the range of a nanosecond datetime. The model treats
  that as failure of step 3: `CleanPipeline` returns `None`, and `DataCleaner.Clean` stops with
  the frame as step 2 left it.
- A code the label map does not know becomes `Unmapped`. The source turns such a code into a
  missing label. `Unmapped` is neither a click nor a purchase, so step 6 ignores it, as pandas
  does.
- pandas computes the quantile edges itself. Here they are a parameter: a function `qcut` from a
  column to its edge list, so equal columns (F and M) get equal edges.
- Bin assignment follows pandas' rule: a left-sided search over the edges, with the lowest edge
  included. A value outside every bin becomes missing. The integer cast then fails, which is
  `CastFailed` in the model.
- Steps that abort are modelled as outcomes, not crashes:
  - a failed cast, as just said;
  - segmenting a table that lacks score columns, which raises a missing-column error in the
    source, is `MissingScores`. Columns belong to the whole table, even one with no rows, so
    the analyzer records which score columns its table carries (`scoreColumns`) and
    `SegmentUsers` checks that set; on a table with a row the check agrees with the rows' own
    cells (`RfmModel.SegmentedNeedsAllColumns`).

Two behaviours of the code worth knowing:

- Heavy ties: a column with a single distinct value yields one edge and no bin, so the integer
  cast fails and scoring stops (src/rfm_analysis.py:62-69; `RfmModel.BinSpec`,
  `RfmModel.ScoredFailure`).
- Unmapped codes: src/data_clean.py:100 keeps such a row with a missing label; the model keeps
  it as `Unmapped`.

## Model

| member | source | states |
|---|---|---|
| `Cleaning.CleanPipeline` | src/data_clean.py:19-45 | no contract of its own: the six steps composed; specified by `CleanPipelineSpec` and `ClickThenBuySurvives` |
| `Cleaning.DropMissing` | src/data_clean.py:53-54 | the result is no longer than the input and holds only rows without derived columns |
| `Cleaning.DropMissingLifts` | src/data_clean.py:53-54 | reading the kept events back as raw rows gives exactly the order-preserving filter of the complete rows |
| `Cleaning.HandleMissingValuesSpec` | src/data_clean.py:47-55 | every kept row is a complete raw row of the input; every complete raw row is kept; order is preserved; the number kept is the number of complete rows |
| `Cleaning.NoMissingCells` | src/data_clean.py:49-53 | the summed missing-cell count is zero exactly when every row is complete |
| `Cleaning.NoMissingKeepsAll` | src/data_clean.py:53 | with no missing cell the frame is kept row for row |
| `Seqs.Dedup` | src/data_clean.py:57-65 | no contract of its own: keep-first de-duplication; specified by `Seqs.DedupSpec` and `HandleDuplicatesSpec` |
| `Cleaning.HandleDuplicatesSpec` | src/data_clean.py:57-65 | after de-duplication no two rows are equal; exactly the input's distinct rows remain, in order of first occurrence; the number removed is the duplicate count; with no duplicate the frame is unchanged |
| `Cleaning.Convertible` | src/data_clean.py:71 | no contract of its own: every time lies in the range `to_datetime` accepts; `DataCleaner.ProcessTimestamps` and `CleanPipelineSpec` fail exactly when it does not hold |
| `Cleaning.StampOf` | src/data_clean.py:71-76 | hour in 0..23, weekday in 0..6, and the time lies inside the derived date's derived hour |
| `Cleaning.SameDateSameWeekday` | src/data_clean.py:74-76 | two times on the same date get the same weekday |
| `Cleaning.NextDay` | src/data_clean.py:74-76 | one day later the date is one more, the hour is the same and the weekday advances, wrapping Sunday to Monday |
| `Cleaning.StampAll` | src/data_clean.py:71-76 | every row gets the calendar fields of its own time and every other column is unchanged |
| `Cleaning.WindowBounds` | src/data_clean.py:86-87 | the window is epoch [1511568000, 1512345600): nine days, starting on a Saturday at hour 0 |
| `Cleaning.Window` | src/data_clean.py:86-91 | no contract of its own: the rows inside the window; specified by `HandleOutliersSpec` and `WindowKeepsInside` |
| `Cleaning.DaysFromCivil` | src/data_clean.py:86-87 | no contract of its own: the days since 1970-01-01 of a civil date; its values at the window dates 2017-11-25 and 2017-12-04 are fixed by `WindowBounds` |
| `Cleaning.HandleOutliersSpec` | src/data_clean.py:88-91 | a row is kept exactly when it lies in the window; order is preserved; the number kept is the number inside |
| `Cleaning.WindowKeepsInside` | src/data_clean.py:88-91 | a frame already inside the window passes unchanged |
| `Cleaning.Label` | src/data_clean.py:99-100 | no contract of its own: the behaviour map; specified by `LabelRoundTrip` |
| `Cleaning.LabelRoundTrip` | src/data_clean.py:99-100 | the label map is a bijection between the codes pv/buy/cart/fav and the four labels, whose texts are 点击/购买/加购/收藏 respectively and pairwise distinct; any other code is unmapped |
| `Cleaning.Relabel` | src/data_clean.py:98-100 | every row gets the label of its own code and every other column is unchanged |
| `Cleaning.MinClickTime` | src/data_clean.py:243-245 | None exactly when the user never clicked the product; otherwise the time of one such click, and no such click is earlier |
| `Cleaning.ViolatesIn` | src/data_clean.py:258-260 | no contract of its own: the source's test, a purchase whose earliest click is missing or later; its meaning is `ViolatesIff` |
| `Cleaning.ViolatesIff` | src/data_clean.py:258-260 | the check "no earliest click, or the earliest click is later" holds exactly for purchases with no click at or before them |
| `Cleaning.Validate` | src/data_clean.py:258-268 | no contract of its own: drop the violating rows; specified by `ValidateSpec`, `NoViolationKeepsAll` and `ValidateIdempotent` |
| `Cleaning.ValidateSpec` | src/data_clean.py:238-270 | only rows of the input remain; every non-purchase remains; a purchase remains exactly when it has a click at or before it; every remaining purchase keeps such a click; order is preserved; the number removed is the number of violating purchases |
| `Cleaning.NoViolationKeepsAll` | src/data_clean.py:264-268 | with nothing violating the frame is unchanged |
| `Cleaning.ValidateIdempotent` | src/data_clean.py:238-268 | the validated frame has no violations left, so validating it again changes nothing |
| `Cleaning.ProblemCategories` | src/data_clean.py:275-283 | no contract of its own: the flagged categories; specified by `ProblemCategoriesSpec` |
| `Cleaning.ProblemCategoriesSpec` | src/data_clean.py:275-283 | a category is flagged exactly when its purchases outnumber its clicks and it has at least one click |
| `Cleaning.CleanPipelineSpec` | src/data_clean.py:19-45 | the pipeline fails exactly when a de-duplicated timestamp cannot be converted; otherwise its rows are distinct raw rows of the input inside the window, with the calendar fields of their time and the label of their code, and every purchase has a click at or before it |
| `Cleaning.CleanedDistinct` | src/data_clean.py:71-101 | stamping, windowing, relabelling and validating keep distinct rows distinct |
| `Cleaning.ClickThenPurchaseValid` | src/data_clean.py:238-268 | a two-row frame of a click and a no-earlier purchase of the same user and product passes validation whole |
| `Cleaning.ClickThenBuySurvives` | src/data_clean.py:19-45 | a click and a later purchase of the same user and product inside the window both survive cleaning |
| `DataClean.DataCleaner.constructor` | src/data_clean.py:10-17 | the raw frame is stored, both frames are unset and both anomaly counters are zero |
| `DataClean.DataCleaner.Clean` | src/data_clean.py:19-45 | the returned frame is `CleanPipeline` of the raw frame; the fields hold the step results; the anomaly counters are unchanged |
| `DataClean.DataCleaner.HandleMissingValues` | src/data_clean.py:47-55 | the frame becomes the raw frame without the rows that have a missing cell, whether or not the drop branch runs |
| `DataClean.DataCleaner.HandleDuplicates` | src/data_clean.py:57-65 | the frame becomes its first-occurrence de-duplication, whether or not the drop branch runs |
| `DataClean.DataCleaner.ProcessTimestamps` | src/data_clean.py:67-76 | succeeds exactly when every time is convertible, and then adds the calendar fields; on failure nothing changes |
| `DataClean.DataCleaner.HandleOutliers` | src/data_clean.py:78-91 | the frame becomes its rows inside the window |
| `DataClean.DataCleaner.ConvertBehaviorType` | src/data_clean.py:94-101 | the final frame becomes a relabelled copy of the frame |
| `DataClean.DataCleaner.ValidateBehaviorLogic` | src/data_clean.py:232-287 | the final frame becomes its validation; the reported number removed is both the drop in size and the number of violating purchases; the flagged count is the number of problem categories of the result |
| `RfmModel.LastDate` | src/rfm_analysis.py:27 | the result is the date of some row and no row is later |
| `RfmModel.LastPurchaseDate` | src/rfm_analysis.py:32 | None exactly when the user never purchased; otherwise the date of one of the user's purchases, and none is later |
| `RfmModel.RfmTableOf` | src/rfm_analysis.py:27-46 | no contract of its own: one `UserRfm` row per purchaser; specified by `RfmTableSpec` |
| `RfmModel.UserRfm` | src/rfm_analysis.py:27-46 | no contract of its own: R, F and M of one user; specified by `RfmTableSpec` |
| `RfmModel.RfmTableSpec` | src/rfm_analysis.py:27-46 | the table has a row exactly for each user with a purchase; F = M = that user's purchase count, at least 1; R = last date minus the user's latest purchase date, so R >= 0 |
| `RfmModel.CleanedRowsDated` | src/rfm_analysis.py:13-16 | every row the cleaner outputs has a date, so it is valid input to the aggregation |
| `RfmModel.SinglePurchaseOnLastDay` | src/rfm_analysis.py:27-46 | a user who clicks and then buys once on the last day gets R = 0 and F = M = 1 |
| `RfmModel.Bin` | src/rfm_analysis.py:62-88 | no contract of its own: the bin of a value against the edges; specified by `BinSpec` and `BinMonotone` |
| `RfmModel.Score` | src/rfm_analysis.py:62-88 | no contract of its own: the label of a bin, reversed for R; specified by `ScoreSpec` |
| `RfmModel.BinSpec` | src/rfm_analysis.py:62-88 | a value gets a bin exactly when there are at least two edges and it lies between the first and last; bin k holds the values above edge k-1 up to edge k, and bin 1 also holds the lowest edge |
| `RfmModel.BinMonotone` | src/rfm_analysis.py:62-88 | a larger value never lands in a lower bin |
| `RfmModel.ScoreSpec` | src/rfm_analysis.py:62-88 | a score exists exactly when the bin does; scores lie in 1..n for the n <= 5 realised bins; an F/M score is its bin number (labels 1..n) and an R score is n + 1 minus it (labels n..1); reversed scores fall and plain scores rise with the value |
| `RfmModel.ScoreColumn` | src/rfm_analysis.py:65-69 | the cast succeeds exactly when every value has a bin, and then every key gets its own value's score |
| `RfmModel.ScoreStep` | src/rfm_analysis.py:65-88 | one column step fails exactly when a value of that column has no bin; otherwise every row gets that column's score and nothing else changes |
| `RfmModel.PositiveOnly` | src/rfm_analysis.py:58 | no contract of its own: the rows with positive F and M; `PositiveOnlyKeepsAggregated` shows it keeps every aggregated row |
| `RfmModel.WithTotals` | src/rfm_analysis.py:91 | every row keeps its key and gets RFM_total from its own scores |
| `RfmModel.Scored` | src/rfm_analysis.py:58-91 | no contract of its own: the filter, the three column steps and the total; specified by `ScoredKeys`, `ScoredFailure`, `ScoredRows`, `ScoredSpec` and `ScoredColumns` |
| `RfmModel.AggregatedColumns` | src/rfm_analysis.py:36-39 | on an aggregated table the M column equals the F column |
| `RfmModel.PositiveOnlyKeepsAggregated` | src/rfm_analysis.py:58 | the positivity filter keeps every row of an aggregated table |
| `RfmModel.ScoredKeys` | src/rfm_analysis.py:58-91 | scoring keeps exactly the users the positivity filter keeps, whichever step fails |
| `RfmModel.SuccessNeedsBins` | src/rfm_analysis.py:65-88 | when scoring succeeds, every R value and every F value had a bin |
| `RfmModel.BinsGiveSuccess` | src/rfm_analysis.py:65-88 | when every R value and every F value has a bin, all three score steps succeed |
| `RfmModel.ScoredFailure` | src/rfm_analysis.py:58-91 | on an aggregated table scoring keeps every user, and fails exactly when some R or F value has no bin |
| `RfmModel.ScoredRows` | src/rfm_analysis.py:58-91 | after successful scoring every user keeps R, F and M, gets the reversed R score and the F-column scores for F and M (so F_score = M_score), and RFM_total is the sum of the three |
| `RfmModel.ScoredSpec` | src/rfm_analysis.py:58-91 | the positivity filter, the failure condition and the per-user scores together |
| `RfmModel.ScoresMonotone` | src/rfm_analysis.py:60-88 | across users, a larger R never gets a higher R_score, and a larger F or M never gets a lower F_score or M_score |
| `RfmModel.ScoresBounded` | src/rfm_analysis.py:60-91 | every score lies in 1..n for its column's n <= 5; F_score = M_score; the total lies in 3..15 |
| `RfmModel.RfmSegment` | src/rfm_analysis.py:101-111 | no contract of its own: the if/elif chain; specified by `SegmentIsFirstMatch`, `SegmentDecisionTable` and `SegmentNames` |
| `RfmModel.SegmentIsFirstMatch` | src/rfm_analysis.py:101-111 | for every score triple, the if/elif chain gives the label of the first matching rule of the ordered rule table, and some rule always matches |
| `RfmModel.SegmentDecisionTable` | src/rfm_analysis.py:101-111 | each of the five labels as a condition on the triple; the conditions are mutually exclusive and cover every triple, with 一般用户 the fallback |
| `RfmModel.SegmentNames` | src/rfm_analysis.py:101-111 | the five segment texts are distinct, and each text is returned exactly on its branch's condition of the chain |
| `RfmModel.SingleFrequencyBin` | src/rfm_analysis.py:101-111 | when F collapses to one bin, only the new-user and ordinary labels can occur |
| `RfmModel.Segmented` | src/rfm_analysis.py:113-114 | fails exactly when a row lacks a score; otherwise every row keeps its columns and gets the segment of its own scores |
| `RfmModel.RfmPipelineSpec` | src/rfm_analysis.py:22-114 | after successful scoring, segmentation succeeds; the segmented table holds exactly the purchasing users, each scored as `ScoredRows` says, with the first-match label of its scores |
| `RfmModel.ColumnsBefore` | src/rfm_analysis.py:62-88 | a run assigns all three score columns exactly when it completes, and never the column whose cast failed |
| `RfmModel.AggregatedHasNoScores` | src/rfm_analysis.py:27-46 | a fresh aggregation carries no score column |
| `RfmModel.ScoreStepAddsColumn` | src/rfm_analysis.py:65-88 | a successful column step adds exactly its own score column |
| `RfmModel.ScoredColumns` | src/rfm_analysis.py:58-91 | scoring keeps the score columns the table had and adds those assigned before it stops |
| `RfmModel.SegmentedWithAllColumns` | src/rfm_analysis.py:101-114 | a table carrying all three score columns segments, and keeps its columns |
| `RfmModel.SegmentedNeedsAllColumns` | src/rfm_analysis.py:101-114 | on a table with a row, segmentation succeeds exactly when all three score columns are present |
| `RfmAnalysis.RfmAnalyzer.constructor` | src/rfm_analysis.py:12-16 | the rows are stored and no table exists yet |
| `RfmAnalysis.RfmAnalyzer.CalculateRfm` | src/rfm_analysis.py:22-49 | the table is set to, and returned as, the per-user aggregation of the rows, which carries no score column |
| `RfmAnalysis.RfmAnalyzer.ScoreRfm` | src/rfm_analysis.py:51-92 | without a table nothing changes and the step reports it; otherwise the table becomes the scored table, columns added before a failed cast stay (the recorded score columns grow by exactly those), and the outcome names the failed column |
| `RfmAnalysis.RfmAnalyzer.SegmentUsers` | src/rfm_analysis.py:94-114 | without a table nothing changes and the step reports it; a table lacking a score column, even an empty one, is left unchanged with `MissingScores`; otherwise segmentation succeeds and the table becomes it |
| `RfmAnalysis.SegmentBeforeScoring` | src/rfm_analysis.py:94-114 | data without purchases, aggregated and then segmented without scoring, stops with `MissingScores` |

## Left out

- Printing to the console, the CSV and report writing and the MySQL bulk load (src/data_clean.py:103-230). These are I/O and a foreign database client. `DataClean.DataCleaner.Clean` returns the frame without saving it.
- The RFM result CSV, the charts and the float segment proportions (src/rfm_analysis.py:117, 120-185). These are output and charting.
- The output directories created in the analyzer's constructor: file-system side effects.
- pandas' quantile-edge computation, with its floating-point interpolation and duplicate-edge dropping. The edges are the `qcut` parameter. The lemmas assume one to six strictly increasing edges, which is what that computation yields.
- DataClean.DataCleaner.Clean: the source's working frame is the caller's frame. Steps 1-3 drop rows and add columns in place, so they also change the frame the caller passed in. The model keeps the raw frame immutable, and this aliasing is not captured.
- The `time` column is not replaced by a datetime value. Times stay epoch seconds, and the calendar fields sit beside them.
- The `category` dtype of the label column is not modelled. The labels are the `Behavior` datatype.
- DataClean.DataCleaner.ValidateBehaviorLogic: a label with no rows is counted as zero. In pandas, the per-category table lacks a column for a label that never occurred in the relabelled frame, and reading it raises a missing-column error.
- The 6a drop is by index label; the model removes rows by position. The loaded frame's index is unique and the earlier steps only remove rows, so the two agree.
- `purchaseGtClick` and `noClickBeforePurchase` are initialised to zero and never updated. The source's steps only print their counts.
- RfmModel.RfmTableOf applies no missing-value fill: R, F and M cover the same users, so nothing is missing.
- RfmAnalysis.RfmAnalyzer.ScoreRfm on an empty table: the model always completes scoring and leaves an empty table, whatever `qcut` gives; what pandas' own quantile routine does on an empty column is not modelled.
- RfmModel.Segmented decides row by row, so a table with no rows always segments. The table-level missing-column stop for such a table is `RfmAnalysis.RfmAnalyzer.SegmentUsers`, through the recorded score columns.
- The fixed 2/3 segmentation thresholds are applied to shrunken score ranges exactly as written. `RfmModel.SingleFrequencyBin` states one consequence.
