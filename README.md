# Daily direction forecast: features, prediction ledger, scoring

A verified Dafny model of the three data steps of a daily stock-direction
pipeline:

1. **Feature derivation** (`add_features`). The price bars are sorted by
   date. Each row gets `ret_1d` (one-day percentage change), the 5- and
   20-bar trailing means of the close, the two gaps `close / ma - 1`, and
   the label `target_up = close[t+1] > close[t]`. Rows with an undefined
   column are dropped. The model is a set of pure functions (module
   `Features`). The input table is a value, so the caller's table is never
   changed.
2. **Idempotent prediction append** (`predict_next_day.py`). The newest
   feature row gives the as-of date. If the ledger already holds a row for
   (ticker, as-of date), the run is a skip. Otherwise the up-probability is
   thresholded at 0.5 and exactly one row is appended. The header is written
   only when the append creates the file. The ledger file is the class
   `Prediction.LedgerFile`, with a `rows` sequence and a `fileExists` flag.
3. **Reconciliation** (`score_predictions.py`). The old scoring fields are
   stripped. The price table is sorted by (ticker, date), and each bar gets
   `actual_up_next_day` from the next bar of the same ticker. The ledger is
   left-joined on (ticker, as-of date), and matched rows get `is_correct`.
   The ledger is overwritten, and the summary counts the scored rows and
   their accuracy (module `Scoring`, method `ScoreLedger`).

Files: `wrappers.dfy` (Option), `sorting.dfy` (an insertion sort by a total
preorder, and facts about sorted arrangements), `bars.dfy` (price bars),
`features.dfy`, `prediction.dfy`, `scoring.dfy`.

Modelling choices:
- Dates are day ordinals (`Date = int`). Both sides of the join use the same
  ISO `YYYY-MM-DD` text, so equal strings mean equal days.
- Closes and means are exact `real`s. "Undefined" (NaN/NA) is `Option.None`.
- The classifier's up-probability, the run timestamp and the ticker name are
  inputs of `PredictNextDay`.

Two behaviours of the code are easy to misread, and the model follows the
code as written:
- `add_features` keeps the newest bar. Its next close is missing, `NaN > x`
  is false, so its label is `target_up = 0` and `dropna` does not remove it
  (`AddFeaturesLabel`, `TargetUp`). src/train.py:25-32 therefore fits the classifier on
  that row with label 0 as well.
- The comment at src/score_predictions.py:42 says that days without
  next-day data stay NA. The code at lines 32-33 gives the last bar of each
  ticker `actual_up_next_day = 0` instead, so a row whose as-of date is that
  bar is scored and counts in the accuracy (`ReconcileLastBar`). Only as-of
  dates with no price row at all stay unknown (`ReconcileScoringFields`).
  src/daily_run.py:18-19 scores straight after predicting against the same
  price file, so each day's new prediction is scored at once with outcome 0
  (`ScoredOnItsOwnDay`); it is rescored on the next run, when the next bar
  is there (`ReconcileIgnoresOldScores`).

## Model

| member | source | states |
|---|---|---|
| `Features.SortByDate` | src/features.py:10 | the rows come out as a rearrangement of the input: same rows, same count, in ascending date order |
| `Features.FeatureVector` | src/features.py:5 | the classifier input of a row has one value per `FEATURE_COLS` column, and entry k is the row's value of column `FEATURE_COLS[k]` |
| `Features.DropMissingFeaturesKeepsAll` | src/predict_next_day.py:28 | `dropna(subset=FEATURE_COLS)` after `add_features` removes no row, so the newest feature row is the newest row of `add_features` |
| `Features.PctChange` | src/features.py:12 | `pct_change()` at row t: undefined exactly on the first row, and the previous close times one plus the return is the close |
| `Features.RollingMean` | src/features.py:13-14 | `rolling(k).mean()` at row t: defined exactly once k closes exist, positive, and k times the mean is the sum of the k closes ending at t |
| `Features.Gap` | src/features.py:15-16 | `close / ma - 1`: defined exactly with the mean, and the mean times one plus the gap is the close |
| `Features.TargetUp` | src/features.py:18 | `shift(-1) > close`: the last row gets 0, and any other row 1 exactly when the next close is strictly greater |
| `Features.RowAt` | src/features.py:12-19 | a sorted row survives `dropna` exactly when the 20-bar window is full, i.e. from row 19 on; it then carries its own bar and positive means |
| `Features.DropUndefined` | src/features.py:19 | `dropna()`: every kept row is a defined input row, none is added, and a table without undefined rows loses none |
| `Features.AddFeatures` | src/features.py:7-21 | `add_features`: n bars give no rows when n ≤ 19, and n − 19 rows otherwise |
| `Features.DropMissingFeatures` | src/predict_next_day.py:28 | `dropna(subset=FEATURE_COLS)`: at most the input rows, each an input row with every feature column defined |
| `Features.AddFeaturesRows` | src/features.py:10-19 | with n bars the output has no rows when n ≤ 19, and otherwise exactly n − 19 rows, which are sorted rows 19..n−1 in order |
| `Features.AddFeaturesOrdered` | src/features.py:10 | output rows are in ascending date order whatever the input order, and strictly ascending when input dates are unique |
| `Features.AddFeaturesOrderIndependent` | src/features.py:8-10 | with unique dates, any two orderings of the same bars give the same feature table |
| `Features.RowAtColumns` | src/features.py:12-18 | a defined row carries `ret_1d = c[t]/c[t−1] − 1`, the two trailing means over closes t−4..t and t−19..t (both positive), the gaps `c[t]/ma − 1` and the label |
| `Features.AddFeaturesColumns` | src/features.py:12-19 | output row i is sorted bar i+19, and its columns are the return, the trailing means over the 5 and 20 closes ending there, the two gaps, and a label that is 1 iff the next sorted close is strictly greater |
| `Features.NoLookahead` | src/features.py:12-16 | return, means and gaps at row t are equal for any two close series that agree on rows t−19..t, whatever comes after |
| `Features.NoLookaheadRow` | src/features.py:12-18 | two sorted tables that agree up to row t give row t the same features; only the label may differ |
| `Features.AddFeaturesLabelAt` | src/features.py:18 | the label of output row i is 1 exactly when the next output row has a strictly greater close (equal closes give 0) |
| `Features.AddFeaturesLabel` | src/features.py:18-19 | the same for all rows; the last output row is the newest bar, it is kept, and its label is 0 |
| `Features.MeanBounds` | src/features.py:13-14 | a trailing mean lies between the smallest and the largest close it averages |
| `Features.FlatWindowGap` | src/features.py:13-16 | over a window of equal closes the trailing mean is that close and the gap is 0 |
| `Prediction.LatestRow` | src/predict_next_day.py:28 | `iloc[-1:]`: nothing exactly for an empty table, otherwise the table's last row |
| `Prediction.LatestIsNewest` | src/predict_next_day.py:28-33 | there is a latest feature row iff there are at least 20 bars; its date, the as-of date, is the newest date among all input bars |
| `Prediction.PredUp` | src/predict_next_day.py:49 | the prediction is up exactly when the probability is at least 0.5, and down exactly when it is below |
| `Prediction.Signal` | src/predict_next_day.py:50 | the signal is "UP" exactly for an up prediction and "DOWN" exactly for a down one |
| `Prediction.NewRecord` | src/predict_next_day.py:49-61 | the new row has `pred_up = 1` iff `prob_up >= 0.5`, the signal "UP" iff `prob_up >= 0.5` and "DOWN" iff below, the given key, timestamp and probability, and no scoring fields |
| `Prediction.AfterAppend` | src/predict_next_day.py:36-64 | the rows after a check-then-append hold the key, keep the old rows as a prefix, and grow by at most one row |
| `Prediction.AppendKeepsRows` | src/predict_next_day.py:63-64 | the append keeps every earlier row in place, and adds nothing when the key is present and one row, the new one, at the end otherwise |
| `Prediction.AppendCount` | src/predict_next_day.py:36-64 | after the check-then-append the ledger holds exactly one row for the new key if it held none, and the same number otherwise |
| `Prediction.AppendKeepsUnique` | src/predict_next_day.py:36-64 | at most one row per (ticker, as-of date) before implies the same after |
| `Prediction.AppendIdempotent` | src/predict_next_day.py:36-44 | a second run for the same (ticker, as-of date) leaves the ledger as the first run left it |
| `Prediction.LedgerFile.HasPrediction` | src/predict_next_day.py:38-42 | the scan reports a duplicate exactly when some row has the given ticker and as-of date |
| `Prediction.LedgerFile.AppendIfAbsent` | src/predict_next_day.py:36-64 | the rows become the check-then-append of the old rows; a skip leaves the ledger unchanged; an append writes the header exactly when the file did not exist |
| `Prediction.LedgerFile.Overwrite` | src/score_predictions.py:48 | the file exists afterwards and holds exactly the given rows |
| `Prediction.PredictNextDay` | src/predict_next_day.py:24-64 | an empty feature table stops the run with the ledger unchanged (`NoFeatureRows` stands for the uncaught `IndexError` at line 33); otherwise the as-of date is the newest feature row's date, a recorded key is a skip, and a new key appends the thresholded row |
| `Scoring.SortByTickerDate` | src/score_predictions.py:28-29 | the price rows come out as a rearrangement of the input, sorted by ticker (code-point order) and then by date |
| `Scoring.NextCloseUp` | src/score_predictions.py:32-33 | on the sorted table: the last row gets 0, an outcome of 1 always has a same-ticker next row, and with a same-ticker next row the outcome is 1 exactly when its close is strictly greater |
| `Scoring.OutcomeTable` | src/score_predictions.py:28-37 | `prices_key`: one outcome per price row, each keyed by a (ticker, date) that occurs in the price table |
| `Scoring.NextCloseUpMeansNextBar` | src/score_predictions.py:29-33 | with unique (ticker, date) rows, a bar's outcome is 1 exactly when the next bar of the same ticker in date order has a strictly greater close; other tickers never take part |
| `Scoring.LookupsNonEmpty` | src/score_predictions.py:36-40 | the outcome table has a row for (ticker, date) exactly when the price table has one |
| `Scoring.StripScoring` | src/score_predictions.py:23-25 | the two scoring fields become unknown and every other field of every row is kept |
| `Scoring.MergeRow` | src/score_predictions.py:40 | a ledger row turns into at least one merged row, each equal to it except for `actual_up_next_day` |
| `Scoring.LeftMerge` | src/score_predictions.py:40 | `how="left"`: the merge has at least as many rows as the ledger |
| `Scoring.MarkCorrect` | src/score_predictions.py:43-45 | `is_correct` is known exactly when the outcome is, 1 exactly when the prediction equals the outcome, and no other field changes |
| `Scoring.Reconcile` | src/score_predictions.py:20-45 | the reconciled ledger has at least as many rows as the ledger (exactly as many with unique price rows, see `ReconcileKeepsRows`) |
| `Scoring.LeftMergeOneToOne` | src/score_predictions.py:40 | with unique outcome keys the left merge yields exactly one row per ledger row, in ledger order |
| `Scoring.LeftMergeOutcomes` | src/score_predictions.py:40 | for any price table, each merged row has an outcome exactly when its key is in the outcome table, and then one of that key's values |
| `Scoring.ReconcileIgnoresOldScores` | src/score_predictions.py:23-25 | ledgers that differ only in `actual_up_next_day` / `is_correct` reconcile to the same ledger |
| `Scoring.ReconcileKeepsRows` | src/score_predictions.py:40-48 | with unique price rows the result has the same number of rows in the same order, with every non-scoring field unchanged |
| `Scoring.ReconcileScoringFields` | src/score_predictions.py:40-45 | a row's outcome is unknown iff no price row has its (ticker, as-of date); `is_correct` is known iff the outcome is, and it is 1 iff `pred_up` equals the outcome |
| `Scoring.ReconcileMatched` | src/score_predictions.py:29-45 | a row matched to bar b gets outcome 1 iff b's next same-ticker bar has a strictly greater close, and `is_correct` records whether `pred_up` equals that outcome |
| `Scoring.ReconcileLastBar` | src/score_predictions.py:32-33 | a row matched to the last bar of its ticker is scored with outcome 0, not left unknown |
| `Scoring.ReconcileIdempotent` | src/score_predictions.py:23-48 | scoring an already scored ledger against the same unique prices gives the same ledger |
| `Scoring.ReconcileKeepsUnique` | src/score_predictions.py:40-48 | with unique price rows, a ledger with one row per (ticker, as-of date) keeps that property after scoring |
| `Scoring.DuplicatePricesDuplicateRows` | src/score_predictions.py:40-48 | a price table holding the same bar twice turns the matching ledger row into two rows with the same key |
| `Scoring.ScoredOnItsOwnDay` | src/daily_run.py:18-19 | a prediction made from the newest bar of a one-ticker price table and scored against that table gets outcome 0 at once, and `is_correct` 1 exactly when it predicted down |
| `Scoring.CountScored` | src/score_predictions.py:51-52 | the scored count never exceeds the row count, and is 0 exactly when no row has a known `is_correct` |
| `Scoring.CountCorrect` | src/score_predictions.py:51-56 | the number of correct rows never exceeds the number of scored rows |
| `Scoring.SummaryOf` | src/score_predictions.py:51-57 | a summary reports a positive count, correct ≤ count, and an accuracy between 0 and 1 |
| `Scoring.SummaryIgnoresUnknown` | src/score_predictions.py:51 | a row with unknown `is_correct`, wherever it stands, changes neither the count nor the accuracy |
| `Scoring.Summarize` | src/score_predictions.py:51-57 | the loop reports "none scored" when no row has a known `is_correct`, and otherwise that count and (correct count)/count |
| `Scoring.ScoreLedger` | src/score_predictions.py:16-57 | a missing ledger is an error with nothing changed; otherwise the ledger is replaced by its reconciliation and the summary of the new rows is returned |

## Left out

- src/data_collection.py: a wrapper around a network download. The model takes the resulting bars as input.
- src/train.py: fitting the logistic regression, and model and metadata persistence. This is an opaque library plus file I/O.
- src/daily_run.py: runs the four scripts as subprocesses. It is orchestration only.
- Loading the trained model and `predict_proba` (src/predict_next_day.py:46-48). `PredictNextDay` takes the probability `prob` as an input with `0 <= prob <= 1`.
- CSV reading and writing, argument parsing, directory creation and printing. The ledger is an in-memory sequence, and the overwrite is a replacement of that sequence. The header is the `fileExists` flag and the `wroteHeader` result.
- `datetime.now()`: the run timestamp is an input string.
- Floating point: `round(prob_up, 4)`, the float-typed `is_correct` and the `:.4f` formatting are not modelled. Closes, means and the accuracy are exact reals.
- `PredictNextDay`: requires positive closes. After a zero close pandas gives an infinite `ret_1d`, which `dropna` keeps; a zero mean needs an all-zero window, whose gap is 0/0 = NaN and is dropped. The model does not represent infinities or zero closes.
- General NaN propagation: every non-feature input field is assumed present. Only the derived columns can be undefined.
- An existing ledger file that lacks the `ticker` or `asof_date` columns (the column test at src/predict_next_day.py:39-40) is not modelled. `LedgerFile.Valid` covers only files this pipeline wrote.
- The "date column missing" error (src/predict_next_day.py:30-31) is not modelled. `add_features` already needs that column, so the check never fires.
- Sort ties: `sort_values("date")` does not guarantee an order among rows with equal dates. The model sorts stably. `AddFeaturesOrderIndependent` shows that the result does not depend on the order when dates are unique.
- `add_features` does not group by ticker. Like the code, the model treats the whole price table as one series.
- `ReconcileKeepsRows`, `ReconcileIdempotent`, `ReconcileKeepsUnique`: require unique (ticker, date) price rows. The code does not check this, and `DuplicatePricesDuplicateRows` shows that a repeated price row duplicates ledger rows on every scoring run.
- Concurrent runs against one ledger (the check-then-append race), and atomic rewrite on overwrite. The source has neither.
