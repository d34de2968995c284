# Forecasting engine core, modelled in Dafny

This project models the data and training core of a demand-forecasting
engine. A demand table (a timestamp column, a demand column and other
columns) passes through these stages:

- **Cleansing.** Rows missing a timestamp or a demand are dropped, then
  repeated rows are dropped. Each negative demand is then replaced by the
  mean of the non-negative demands.
- **Continuity check.** The distinct timestamps are compared with the
  evenly spaced grid of the chosen frequency.
- **Imputation.** If the table is not continuous, it is reindexed onto that
  grid. Missing demand is filled with 0.
- **Preprocessing.** The demand is winsorised at the interquartile fences.
  A stationarity test (augmented Dickey-Fuller) then decides whether a
  differenced column or a copy of the demand is added.
- **Training.** One model is fitted per cross-validation fold. The fold with
  the smallest RMSE is kept.
- **Evaluation.** The forecast is scored by MAE, RMSE and WMAPE.

## Conventions

- **Timestamps** are integer hour ticks. The frequencies `hourly`, `daily`,
  `weekly`, `monthly` and `quarterly` are fixed steps of 1, 24, 168, 730 and
  2190 hours (`Ticks.StepOf`).
- **Missing values.** A table row is `Table.Row`. A missing or unparsable
  timestamp (NaT) and a missing number (NaN) are both `None`.
- **NaN results.** A metric that pandas or numpy would return as NaN is
  `Num.NaN`.
- **Errors.** Every exception the code lets escape becomes an `Err`:
  - reindexing on a repeated timestamp label;
  - a table with no timestamp at all;
  - the Dickey-Fuller test failing;
  - arrays that cannot be broadcast;
  - a model that fails to fit or to predict (`Trainer.TrainError`);
  - WMAPE's shape and sign checks.
- **Proof style.** Each stateful stage is a `method` proved equal to a
  specification function. The properties that code promises are proved as
  lemmas about that function.

## Where the code and its description differ

The model follows the code.

- `stationarity_check` does not catch a failure of the Dickey-Fuller call,
  so `data_preprocessing` raises (`Preprocessing.PreprocessError`).
- Reindexing keeps only timestamps on the grid from the earliest timestamp
  at the frequency's step. A row stamped between grid ticks is dropped, not
  kept (`Cleansing.ReindexedDropsOffGrid`).
- Reindexing a table in which a timestamp repeats raises
  (`Cleansing.ImputeError.DuplicateTimestamps`).
- `fillna(0)` also fills a missing demand in a row that already existed
  (`Cleansing.ReindexedKeepsGridRow`).
- Repeated rows are dropped before negative demands are replaced. Two rows
  that differed only in their negative demand therefore survive, and become
  identical (`Cleansing.CleansedMayRepeatRows`).
- When every complete row has a negative demand, the mean is that of
  nothing (NaN), so every demand becomes missing
  (`Cleansing.CleansedDemands`).
- The quantiles use pandas' linear interpolation over the sorted present
  values. Clipping with bounds in the wrong order swaps them, as pandas
  does. Bounds that are NaN (no present demand) clip nothing.

## Model

| member | source | states |
|---|---|---|
| `Cleansing.DataCleanser` | src/forecasting_engine/data/cleansing.py:7-40 | the returned table is the specification `Cleansed` of the raw table: complete rows, first of each repeated row, negative demands overwritten |
| `Cleansing.DropMissingRows` | src/forecasting_engine/data/cleansing.py:24-27 | the kept rows are exactly the input rows that have both a timestamp and a demand, in order |
| `Cleansing.DropMissing` | src/forecasting_engine/data/cleansing.py:25-26 | a row is kept iff it is an input row with a timestamp and a demand |
| `Cleansing.DropRepeatedRows` | src/forecasting_engine/data/cleansing.py:29-32 | the result is the specification `DropDuplicates`: the same rows as the input, none repeated |
| `Cleansing.DropDuplicates` | src/forecasting_engine/data/cleansing.py:30-31 | same rows as the input, none repeated |
| `Cleansing.NonNegativeDemands` | src/forecasting_engine/data/cleansing.py:37 | all values are non-negative; empty iff every demand is missing or negative |
| `Cleansing.OverwriteNegatives` | src/forecasting_engine/data/cleansing.py:35-38 | in place, every row gets `ReplaceNegative`: a negative demand becomes the fill value, any other row is kept |
| `Cleansing.FillNonNegative` | src/forecasting_engine/data/cleansing.py:37-38 | the fill value exists iff some demand is non-negative, and is then non-negative |
| `Cleansing.CleansedDemands` | src/forecasting_engine/data/cleansing.py:20-40 | every cleansed row has a timestamp; all demands become present and non-negative if one raw complete row was non-negative, else all become missing |
| `Cleansing.CleansedRows` | src/forecasting_engine/data/cleansing.py:20-40 | the cleansed rows are exactly the complete raw rows with negative demands replaced, in both directions |
| `Cleansing.CleansedOfCleanRows` | src/forecasting_engine/data/cleansing.py:24-38 | a table with no missing field and no repeated row keeps its length, and each row only has a negative demand replaced |
| `Cleansing.CleansedRepeatsComeFromReplacement` | src/forecasting_engine/data/cleansing.py:29-38 | two equal cleansed rows come from rows of which one had a negative demand |
| `Cleansing.CleansedMayRepeatRows` | src/forecasting_engine/data/cleansing.py:29-38 | two complete rows differing only in negative demands come out identical |
| `Cleansing.NegativeReplacedByMean` | src/forecasting_engine/data/cleansing.py:34-38 | demands -5, 10, 12, 11, 9 become 10.5, 10, 12, 11, 9 |
| `Cleansing.ValidTimestamps` | src/forecasting_engine/data/cleansing.py:56-58 | a value is listed iff some row is stamped with it |
| `Ticks.StepOf` | src/forecasting_engine/data/cleansing.py:63-72 | a step exists iff the frequency is one of the five names, and it is positive |
| `Ticks.Grid` | src/forecasting_engine/data/cleansing.py:74-78 | strictly increasing ticks starting at the start, the k-th being start + k steps, the last not after the end and within one step of it; empty iff end < start |
| `Ticks.GridMembership` | src/forecasting_engine/data/cleansing.py:74-78 | a value is on the grid iff it lies between the ends and a whole number of steps after the start |
| `Ticks.SortedDistinct` | src/forecasting_engine/data/cleansing.py:58 | strictly increasing, with the same values as the input |
| `Ticks.SeqMin` | src/forecasting_engine/data/cleansing.py:75 | an element no larger than any other |
| `Ticks.SeqMax` | src/forecasting_engine/data/cleansing.py:76 | an element no smaller than any other |
| `Ticks.IncreasingUnique` | src/forecasting_engine/data/cleansing.py:80-82 | two strictly increasing sequences with the same values are equal |
| `Ticks.SortedDistinctOfIncreasing` | src/forecasting_engine/data/cleansing.py:58 | sorting and de-duplicating an already strictly increasing sequence leaves it unchanged |
| `Ticks.GridOfOwnEnds` | src/forecasting_engine/data/cleansing.py:74-82 | the grid between a grid's own first and last tick is that grid |
| `Cleansing.CheckDataContinuity` | src/forecasting_engine/data/cleansing.py:42-82 | the check only fails when two different timestamps are present |
| `Cleansing.ContinuityCharacterised` | src/forecasting_engine/data/cleansing.py:42-82 | the check passes iff fewer than two distinct timestamps exist, or the frequency is known and the set of timestamps equals the grid from the minimum to the maximum |
| `Cleansing.ContinuityIgnoresOrderAndRepeats` | src/forecasting_engine/data/cleansing.py:56-58 | tables with the same set of timestamps get the same verdict |
| `Cleansing.ContinuityFailsClosed` | src/forecasting_engine/data/cleansing.py:60-72 | with an unknown frequency the check passes iff fewer than two distinct timestamps exist |
| `Cleansing.RowAt` | src/forecasting_engine/data/cleansing.py:119-127 | the row found under a label is an input row stamped with it; none iff no row is |
| `Cleansing.DataImputer` | src/forecasting_engine/data/cleansing.py:84-134 | the result is `DataImputerSpec`: the table unchanged if continuous or the frequency is unknown; an error without timestamps or with a repeated one; else the zero-filled reindexed table |
| `Cleansing.IndexByTimestamp` | src/forecasting_engine/data/cleansing.py:116-119 | a timestamp is a key iff some row carries it, and its entry is an input row stamped with it; the repeat flag is set iff two different rows carry the same timestamp |
| `Cleansing.RepeatedTimestamps` | src/forecasting_engine/data/cleansing.py:119-127 | the present timestamps repeat iff two different rows carry the same timestamp |
| `Cleansing.IndexSpan` | src/forecasting_engine/data/cleansing.py:121-123 | returns the smallest and the largest label |
| `Cleansing.ZeroFilledReindex` | src/forecasting_engine/data/cleansing.py:127-130 | one row per grid tick: the row at that tick with demand filled by 0, or a new zero-demand row |
| `Cleansing.ReindexedTimestamps` | src/forecasting_engine/data/cleansing.py:119-127 | the reindexed table's timestamps are, in order, the grid from the earliest to the latest input timestamp |
| `Cleansing.ImputedIsContinuous` | src/forecasting_engine/data/cleansing.py:114-134 | whenever the imputer reindexes, its result passes the continuity check |
| `Cleansing.ContinuityAfterImputation` | src/forecasting_engine/data/cleansing.py:42-134 | check, impute with that verdict, check again: the second check passes iff the frequency is known or fewer than two distinct timestamps exist |
| `Cleansing.OneRowPerTimestamp` | src/forecasting_engine/data/cleansing.py:119 | with no repeated timestamp, two rows with the same timestamp are the same row |
| `Cleansing.ReindexedKeepsGridRow` | src/forecasting_engine/data/cleansing.py:127-130 | every input row stamped on the grid is in the result, with a missing demand filled by 0 |
| `Cleansing.ReindexedDropsOffGrid` | src/forecasting_engine/data/cleansing.py:121-127 | an input row whose timestamp is off the grid leaves no row with that timestamp in the result |
| `Cleansing.ReindexedFillsGaps` | src/forecasting_engine/data/cleansing.py:127-130 | every result row has a demand; a tick no input row is stamped with gets demand 0 and as many other columns as the first row, all missing |
| `Table.Present` | src/forecasting_engine/data/preprocessing.py:37 | the present values, at most as many as the cells; x is present iff `Some(x)` is a cell |
| `Preprocessing.StationarityCheck` | src/forecasting_engine/data/preprocessing.py:24-51 | short series count as stationary; otherwise a test failure is propagated, and the series is non-stationary iff the p-value exceeds the threshold |
| `Preprocessing.ShortSeriesSkipsTest` | src/forecasting_engine/data/preprocessing.py:37-40 | a series shorter than the minimum gets the answer stationary, whatever the test would say |
| `Quantiles.Sort` | src/forecasting_engine/data/preprocessing.py:71-72 | sorted, and a permutation of the input |
| `Quantiles.Quantile` | src/forecasting_engine/data/preprocessing.py:71-72 | the interpolated quantile lies between the smallest and the largest value |
| `Quantiles.QuantileMonotone` | src/forecasting_engine/data/preprocessing.py:71-72 | a larger quantile level never gives a smaller value |
| `Quantiles.QuartilesOrdered` | src/forecasting_engine/data/preprocessing.py:71-73 | Q1 is at most Q3; some value is at most Q1 and some at least Q3 |
| `Preprocessing.WinsorBounds` | src/forecasting_engine/data/preprocessing.py:71-77 | the bounds are absent (NaN) iff no demand is present |
| `Preprocessing.BoundsOrdered` | src/forecasting_engine/data/preprocessing.py:71-77 | with a non-negative multiplier, lower fence <= Q1 <= Q3 <= upper fence |
| `Preprocessing.ClipValue` | src/forecasting_engine/data/preprocessing.py:84-87 | the clipped value lies between the bounds, equals the input iff the input already does, and otherwise is the nearest bound |
| `Preprocessing.ClipCell` | src/forecasting_engine/data/preprocessing.py:84-87 | clipping keeps a cell present or missing; absent bounds change nothing |
| `Preprocessing.ClippedWithinBounds` | src/forecasting_engine/data/preprocessing.py:71-87 | after clipping, every present demand lies within the fences: one already inside is unchanged, one below the lower fence becomes the lower fence, one above the upper fence becomes the upper fence |
| `Preprocessing.WinsorCountIsChanged` | src/forecasting_engine/data/preprocessing.py:79-87 | with ordered bounds, the reported count is the number of cells clipping changes |
| `Preprocessing.ClippingKeepsPresence` | src/forecasting_engine/data/preprocessing.py:84-95 | clipping keeps the number of present demands the stationarity check sees |
| `Preprocessing.DropIncomplete` | src/forecasting_engine/data/preprocessing.py:106 | a row is kept iff it is an input row with no missing field |
| `Preprocessing.DataPreprocessing` | src/forecasting_engine/data/preprocessing.py:53-119 | the result is `PreprocessSpec` of the input, which is left unchanged; the count is that of present demands outside the fences |
| `Preprocessing.CountWinsorized` | src/forecasting_engine/data/preprocessing.py:79-82 | counts the present demands strictly outside the fences, 0 without bounds |
| `Preprocessing.ClipDemands` | src/forecasting_engine/data/preprocessing.py:84-87 | in place, every demand is clipped and nothing else changes |
| `Preprocessing.AddDiffColumn` | src/forecasting_engine/data/preprocessing.py:101-105 | pairs each row with `diff(order)` at its position |
| `Preprocessing.AddCopyColumn` | src/forecasting_engine/data/preprocessing.py:107-108 | pairs each row with its own demand |
| `Preprocessing.DropNa` | src/forecasting_engine/data/preprocessing.py:106 | keeps exactly the complete rows, in order |
| `Preprocessing.StationaryCopiesDemand` | src/forecasting_engine/data/preprocessing.py:107-108 | when stationary, no row is dropped and the new column equals the winsorised demand |
| `Preprocessing.DifferencedRows` | src/forecasting_engine/data/preprocessing.py:97-106 | when non-stationary, every kept row is complete and carries v[i] - v[i - order] for its own position; at most length - order rows remain, none if order >= length |
| `Preprocessing.DifferencedKept` | src/forecasting_engine/data/preprocessing.py:103-106 | each kept row is a winsorised row paired with its own order-step difference |
| `Preprocessing.DiffPresent` | src/forecasting_engine/data/preprocessing.py:104 | a present difference has both operands in range and present, and is their difference |
| `Preprocessing.DifferencedCount` | src/forecasting_engine/data/preprocessing.py:103-106 | the first `order` rows never survive `dropna` |
| `Preprocessing.ShortTableIsCopied` | src/forecasting_engine/data/preprocessing.py:94-108 | a table with too few present demands is winsorised and copied, whatever the test says |
| `Common.Mean` | src/forecasting_engine/training/evaluator.py:10-11 | the mean is NaN iff the sequence is empty |
| `Evaluator.Residuals` | src/forecasting_engine/training/evaluator.py:7-11 | the difference exists iff the lengths are equal or one is 1; its length is the broadcast length; with equal lengths it is elementwise |
| `Evaluator.Mae` | src/forecasting_engine/training/evaluator.py:10-11 | raises iff the arrays cannot be broadcast; the result is NaN iff either array is empty |
| `Evaluator.RmseSquared` | src/forecasting_engine/training/evaluator.py:7-8 | raises iff the arrays cannot be broadcast; the result is NaN iff either array is empty |
| `Evaluator.Abs` | src/forecasting_engine/training/evaluator.py:11 | non-negative, zero iff the input is |
| `Evaluator.Square` | src/forecasting_engine/training/evaluator.py:8 | non-negative, zero on zero |
| `Evaluator.Wmape` | src/forecasting_engine/training/evaluator.py:13-54 | shape mismatch raises first; equal lengths raise iff some actual is negative; a result is NaN iff the actuals sum to 0 |
| `Evaluator.ModelEvaluator` | src/forecasting_engine/training/evaluator.py:56-82 | scores are the three metrics' values; it raises iff one of them raises |
| `Evaluator.MaeZeroIffExact` | src/forecasting_engine/training/evaluator.py:10-11 | MAE is non-negative; on equal-length non-empty input it is 0 iff predictions equal actuals |
| `Evaluator.RmseZeroWhenExact` | src/forecasting_engine/training/evaluator.py:7-8 | the squared RMSE is non-negative, and 0 for exact predictions |
| `Evaluator.WmapeZeroIffExact` | src/forecasting_engine/training/evaluator.py:50-54 | WMAPE is non-negative; with a non-zero total it is 0 iff predictions equal actuals |
| `Evaluator.PerfectForecastScoresZero` | src/forecasting_engine/training/evaluator.py:56-82 | perfect predictions of a series with positive total score 0, 0, 0 |
| `Evaluator.PerfectFiveScoresZero` | src/forecasting_engine/training/evaluator.py:56-82 | the actuals 100, 200, 150, 175, 125 predicted exactly score 0, 0, 0 |
| `Evaluator.EvaluatorErrors` | src/forecasting_engine/training/evaluator.py:44-72 | unbroadcastable input fails at MAE; broadcastable unequal lengths fail at WMAPE's shape check; a negative actual fails its sign check |
| `Trainer.Take` | src/forecasting_engine/training/trainer.py:23-24 | the values of the series at the fold's positions |
| `Trainer.FoldScores` | src/forecasting_engine/training/trainer.py:31-34 | one score per fold: fitting on the training slice, forecasting the test horizon and taking the squared RMSE, or the first of these that raises |
| `Trainer.BestIndex` | src/forecasting_engine/training/trainer.py:36-40 | the kept fold is a fold whose score is a number |
| `Trainer.ModelTrainer` | src/forecasting_engine/training/trainer.py:7-42 | the returned model, targets, predictions and score, or the error raised, are `TrainSpec`, the scan of the fold scores |
| `Trainer.ErrorPersists` | src/forecasting_engine/training/trainer.py:34 | once a prefix of the scan raises, the whole scan raises that same error |
| `Trainer.FailsOnFirstFailure` | src/forecasting_engine/training/trainer.py:20-34 | the scan succeeds iff no score raises; otherwise its error is that of the first failing fold |
| `Trainer.KeepsFirstMinimum` | src/forecasting_engine/training/trainer.py:15-40 | nothing is kept iff every score is NaN; otherwise the kept fold has the smallest score, strictly smaller than every earlier one |
| `Trainer.TrainSelectsFirstMinimum` | src/forecasting_engine/training/trainer.py:15-42 | the trainer raises iff fitting, predicting or scoring some fold raises, and then with the first such fold's error; with all NaN scores it returns the initial state; else the model, targets, predictions and score of the first fold with the smallest score |
| `Trainer.HorizonMatchesTest` | src/forecasting_engine/training/trainer.py:32-34 | a fitter that never raises and a forecaster that never raises and honours the horizon make the trainer succeed |
| `Trainer.NoFolds` | src/forecasting_engine/training/trainer.py:15-42 | with no folds the result is no model and an infinite score |

## Left out

- Logging and the Streamlit warnings are left out. The CSV file that
  `data_preprocessing` writes is left out: writing a file is I/O.
- Calendar anchoring is left out. Pandas' `W`, `M` and `Q` frequencies
  land on week, month and quarter ends. The model uses fixed hour steps,
  and timestamp parsing (`to_datetime`) is represented by `None` for
  unparsable values.
- The SARIMAX fit and predict are parameters of the trainer
  (`Trainer.Fitter`, `Trainer.Forecaster`). Each either returns a value or
  raises. Raising is recorded as `FitFailed` or `PredictFailed` and ends
  training.
- Building the SARIMAX model (trainer.py:26-29) is folded into the fitter.
  The model's numerics, which inputs make it raise, and the exception's
  type and message are not modelled.
- The Dickey-Fuller test is a parameter returning a p-value or failing.
  Its statistics are not modelled.
- The trainer takes the folds as input. `time_series_split` (splitter.py)
  is not part of this model. Its in-range guarantee is the trainer's
  `FoldsInRange` precondition.
- Floating point is modelled with exact reals. Rounding, infinities and
  NaN arithmetic are left out beyond the NaN results named above.
- `Evaluator.RmseSquared` models RMSE by its square, leaving out the square
  root. The square root is monotone, so the trainer's selection is
  unchanged, but the reported score is the square of the source's.
- Evaluator.RmseZeroWhenExact: proves only that a zero RMSE follows from
  exact predictions. The converse (zero RMSE implies exact predictions,
  which the source's formula gives) is not proved.
- Trainer.ModelTrainer: the series is taken as real numbers. A NaN inside
  the series, and pandas index alignment of the returned test slice, are
  left out.
- Evaluator.ModelEvaluator: pandas Series inputs and their index alignment
  are not modelled. Inputs are plain one-dimensional arrays.
- Preprocessing.DifferencedRows: stated for a non-negative differencing
  order. `Preprocessing.DiffAt` also models a negative order (a difference
  with a later row), but no lemma is proved about it.
- The composition of the stages in app.py is not part of this model.
  Only `Cleansing.ContinuityAfterImputation` composes the check and the
  imputer.
- Configuration loading and environment variables are left out. The
  parameters are the fields of `Preprocessing.Params`.
