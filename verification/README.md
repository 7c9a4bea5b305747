# Time-ordered train/test split, modelled in Dafny

This project models `split_train_test_by_time` from `notebooks/utils.py`. The
function splits a feature table `X` and its label series `y` into train and
test parts by time, not at random. Each row carries a `yyyymm` period such as
202310. The function walks backward from the newest period and takes whole
periods into the test set. It stops as soon as the test rows make up at least
`test_frac` of all rows; the threshold is inclusive. If that walk took every
period, the oldest taken period goes back to training, so training is never
empty. Rows go to test when their period was selected and to train otherwise.
Labels are looked up by each row's own index label, not by position.

Modules, one per concern:

- `Frames` (`frames.dfy`): rows with an index label (`Id`) and named integer
  cells, frames with a column set, label-series entries, `Option` and `Result`.
- `Periods` (`periods.dfy`): the ascending list of distinct periods (`Distinct`),
  the row count of a set of periods (`CountIn`), and the set of the `k` newest
  periods (`Newest`).
- `Walk` (`walk.dfy`): the stopping test `cum / n_total >= test_frac` (`Reaches`),
  a reference definition of where the walk stops (`FirstReach`), and the
  function's loop (`WalkBackward`).
- `Partition` (`partition.dfy`): the boolean mask and its negation over rows
  (`FilterByPeriod`), and the label lookup `y.loc[...]` (`LookupLabels`).
- `Splitter` (`splitter.dfy`): the whole split as a function (`Split`), the
  function's steps as a method (`SplitTrainTestByTime`), and the properties of
  the split. Both take the same default arguments as the function: column
  `"yyyymm"` and fraction 0.2.
- `WorkedCases` (`worked_cases.dfy`): four months of two rows each, split at
  0.2 and at 0.99, and a whole table split with its labels.

`test_frac` is a `real`. The comparison `cum / n_total >= test_frac` is
evaluated exactly as `cum >= test_frac * n_total`. This is sound because
`n_total > 0` whenever the walk runs, and the contract of `Walk.Reaches` states
that the two forms agree. A missing label is pandas' `KeyError` from `y.loc`; the
model returns it as the error `MissingLabel`.

## Model

| member | source | states |
|---|---|---|
| `Splitter.Split` | notebooks/utils.py:23-68 | Refused with `InvalidTestFrac` exactly when `test_frac` is not strictly between 0 and 1, which is checked first. Then `MissingColumn` exactly when the period column is absent. Then `TooFewPeriods` exactly when all rows share one period (fewer than 2 distinct periods). Then `MissingLabel` exactly when some row's index label has no label. Otherwise it succeeds. |
| `Splitter.SplitTrainTestByTime` | notebooks/utils.py:6-76 | The function's steps run in order, with the same defaults: validation, sorting the distinct periods, the backward walk loop, the safety trim, and masking plus label lookup. The result is the same as the declarative `Split` on every input. |
| `Periods.Distinct` | notebooks/utils.py:32-33 | The sorted unique months are strictly ascending and hold exactly the periods that occur in the column. |
| `Periods.AscendingListIsUnique` | notebooks/utils.py:33 | Only one strictly ascending list has a given set of elements, so `Distinct` is the sorted unique list. |
| `Periods.DistinctCount` | notebooks/utils.py:36-37 | There are fewer than 2 distinct periods exactly when every row has the same period. |
| `Periods.CountIn` | notebooks/utils.py:58 | `months.isin(s).sum()`: never more than `n_total`. `CountInCountsRows` shows it is the number of rows whose period is in `s`. |
| `Periods.CountInCountsRows` | notebooks/utils.py:44 | The count equals the size of an independently defined set: the positions whose period lies in the given set of periods, i.e. the `True` entries of the boolean mask. |
| `Periods.CountInAddPeriod` | notebooks/utils.py:44-46 | Adding one new period's row count to the running count gives the row count of the enlarged period set. |
| `Periods.CountInCovered` | notebooks/utils.py:34 | A period set holding every row's period counts all `n_total` rows. |
| `Periods.CountInDisjoint` | notebooks/utils.py:41 | A period set holding no row's period counts no rows, which is the starting `cum_test_n = 0`. |
| `Periods.CountInMonotone` | notebooks/utils.py:44-46 | A larger period set never counts fewer rows. |
| `Periods.Newest` | notebooks/utils.py:43-45 | The months selected after `k` steps of the newest-to-oldest walk: nothing before the first step, and the newest period from the first step on. `NewestIsSuffix` and `NewestGrow` pin down the rest. |
| `Periods.NewestGrow` | notebooks/utils.py:43-45 | Each step of the newest-to-oldest walk adds the next older period, which was not yet selected. |
| `Periods.NewestIsSuffix` | notebooks/utils.py:43-45 | The `k` newest periods are `k` distinct periods, closed upward, and leave out the oldest period unless all are taken. |
| `Walk.Reaches` | notebooks/utils.py:48-51 | The stopping test holds exactly when `cum_test_n / n_total >= test_frac`, with the threshold inclusive, for a positive row count. |
| `Walk.AllRowsReach` | notebooks/utils.py:48-51 | All rows reach any fraction below 1. |
| `Walk.NoRowsFallShort` | notebooks/utils.py:23-24 | With a positive fraction, zero rows never reach it. |
| `Walk.FirstReach` | notebooks/utils.py:43-52 | The walk stops at the first count of newest periods whose rows reach the fraction, or at the last period. No earlier count reaches it. |
| `Walk.WalkAlwaysReaches` | notebooks/utils.py:43-52 | For a fraction below 1, the walk always stops by reaching the threshold and never because the periods ran out. |
| `Walk.WalkBackward` | notebooks/utils.py:39-52 | The loop selects the newest periods, newest first, and stops where `FirstReach` does. `cum_test_n` is then the row count of the selected periods. |
| `Walk.TakenAreNewest` | notebooks/utils.py:57-63 | The periods taken, including after dropping the last one taken, form the set of the newest `len(selected)` periods that the mask tests against. |
| `Partition.FilterByPeriod` | notebooks/utils.py:63-67 | `X[test_mask]` keeps only rows whose period is selected. `X[~test_mask]` keeps only rows whose period is not. Both keep only input rows. |
| `Partition.FilterSplitsRows` | notebooks/utils.py:63-67 | The mask and its negation together hand out every row exactly once, as a multiset, and their sizes add up to `n_total`. |
| `Partition.FilterCoversRows` | notebooks/utils.py:63-67 | Every input row lands in the test part or the train part. |
| `Partition.FilterKeepsOrder` | notebooks/utils.py:64-67 | Each side keeps the rows' original relative order. |
| `Partition.FilterCount` | notebooks/utils.py:63-64 | The test part has as many rows as the selected periods hold. |
| `Partition.LookupLabels` | notebooks/utils.py:65 | `y.loc[index]` gives, in row order, the label stored under each row's own index label. It fails exactly when some index label is missing from `y`. |
| `Partition.LookupBothSides` | notebooks/utils.py:65-68 | Both label lookups succeed exactly when every row's index label has a label. |
| `Partition.FilterIdsPartition` | notebooks/utils.py:63-68 | With unique index labels, the two sides' index labels are disjoint and together are all of them. |
| `Splitter.WalkStop` | notebooks/utils.py:43-52 | The number of periods the walk took is between 1 and the number of distinct periods. No earlier step reached the fraction. For a fraction below 1 the last step reached it, so the loop ends through the `break`. |
| `Splitter.TrimFires` | notebooks/utils.py:55 | The walk took every period (`len(selected_test_months) == len(unique_months)`) exactly when no run of newest periods short of all of them reaches the fraction. |
| `Splitter.TestPeriods` | notebooks/utils.py:54-63 | The selected months after the trim are `TestPeriodCount` periods, all of which occur in the data. |
| `Splitter.TestPeriodCount` | notebooks/utils.py:54-57 | The number of test periods is at least 1 and below the number of distinct periods. |
| `Splitter.TestPeriodsAreNewest` | notebooks/utils.py:43-57 | The selected test periods are the K newest periods, 1 <= K < number of periods: non-empty, closed upward, and never the oldest period. |
| `Splitter.ThresholdMetAndMinimal` | notebooks/utils.py:48-52 | Unless the trim fired, the test rows reach `test_frac`. In every case, fewer newest periods (the selection without its oldest period in particular) fall short of it. |
| `Splitter.TrimFiresWhenNewerPeriodsFallShort` | notebooks/utils.py:54-59 | The trim fires exactly when all newest periods but one fall short of the fraction. It then removes only the oldest period, and the test rows fall short of the fraction. Otherwise the test periods are the ones the walk took. |
| `Splitter.ActualFraction` | notebooks/utils.py:63-70 | The number of test rows is the row count of the test periods. The achieved fraction reaches the requested one exactly when the trim did not fire. |
| `Splitter.PartitionCoversRows` | notebooks/utils.py:63-67 | Train and test together hold every row exactly once, keep the frame's columns, and keep the rows' relative order. |
| `Splitter.PartitionByTestPeriods` | notebooks/utils.py:63-67 | A row is in test exactly when its period is selected, and in train exactly when it is not. |
| `Splitter.LabelsFollowRowIds` | notebooks/utils.py:65-68 | Each returned label, on either side, is the label of the same row's index label, and the label parts are as long as the row parts. |
| `Splitter.IdsArePartitioned` | notebooks/utils.py:63-68 | With unique index labels, train and test index labels are disjoint and together are all of them. |
| `Splitter.SplitSucceedsExactlyWhenAccepted` | notebooks/utils.py:23-68 | The split succeeds exactly on accepted input: a fraction strictly between 0 and 1, a present period column with at least 2 distinct periods, and a label for every row. |
| `WorkedCases.FifthGoesToNewestMonth` | notebooks/utils.py:43-52 | Four months of two rows each at 0.2: the newest month alone (2 of 8 rows) is the test set, and the trim does not fire. |
| `WorkedCases.NearlyAllKeepsOldestMonthForTraining` | notebooks/utils.py:54-59 | The same months at 0.99: the walk takes every month, and the trim returns the oldest month to training, leaving 6 of 8 rows in test. |
| `WorkedCases.FifthSplitOfTable` | notebooks/utils.py:61-68 | A table whose index labels are 10 to 17: with the default arguments its last two rows are the test rows, the first six are the train rows, and the test labels belong to index labels 16 and 17. |

## Left out

- The printed report (notebooks/utils.py:72-74) and its 3-decimal formatting: it is diagnostic output, not part of the return value.
- Floating point: `test_frac`, `frac` and `actual_frac` are exact reals, so rounding in `cum_test_n / n_total` is not modelled, and neither is a NaN `test_frac`, which the source rejects because `0 < nan < 1` is false.
- The `astype(int)` conversion of the period column (line 30): periods arrive as integers, so the conversion failure for non-numeric strings is not modelled.
- `X.copy()` (line 29): the model's functions are pure, so the input is never changed.
- The recomputed `cum_test_n` and `frac` after the trim (lines 58-59): they are never used afterwards.
- Frame well-formedness is a precondition (`WellFormed`: every row has a cell for each column), because a pandas frame guarantees it. Feature cells are integers because they are only carried through.
- The label series is a map, so its index has no duplicates. A frame with duplicate index labels is allowed, and each of its rows gets the label of its own index label. Disjointness of index labels (`IdsArePartitioned`) is stated for frames with unique index labels.
- A missing label surfaces when the labels are looked up (lines 65 and 68), after the periods are chosen, not before any partitioning work. The source raises a `KeyError` from `y.loc` there; the model returns `MissingLabel`.
- When the trim fires, the achieved fraction is always below the requested one, not just possibly below (`TrimFiresWhenNewerPeriodsFallShort`). With `test_frac < 1` the walk always reaches the threshold by the oldest period, so the trim fires exactly when only the oldest period would have reached it.
