# A verified model of the VAR pipeline's core

This project models, in Dafny, the parts of the Mexico energy-economy VAR
pipeline that carry logic of their own:

- **Forecast-error variance decomposition** (`calcular_FEVD_cholesky`).
  The steps × n × n array is filled in place. Slice 0 is the identity. Each
  later slice accumulates the squared orthogonalised responses and is then
  normalised per affected variable, falling back to a uniform 1/n share when
  the total is zero. The result is flattened into a dict of columns named
  `"{affected}_caused_by_{cause}"` (modules `Fevd` and `ColumnTable`).
- **Series preparation** (`code/utils.py`):
  - the multicollinearity screen over the lower triangle of the correlation
    matrix, sorted stably by coefficient (`Collinearity`);
  - the stationarity pass, which differences the non-stationary columns and
    then drops incomplete rows jointly (`Stationarity`);
  - the train-fitted standardisation and its inverse (`Standardize`).
- **Log-candidate screen** and **frequency-ladder interpolation**
  (`code/01_preprocessing.py`): `LogCandidates` and `Interpolation`.
  Interpolation covers the sort by date on entry, the validation order, the
  `ffill` early return, the walk down annual → quarterly → monthly → daily,
  the four-point guard and the log/exponent flags.
- **Forecast-metric evaluator** (`code/04_metrics_summary.py`): the seed
  windows, undoing the scaling and the differencing by cumulative sums, MAE,
  RMSE and the R² guard, and per-lag failure isolation (`ForecastMetrics`).

Library numerics are inputs to the model, not part of it:

| library call | how the model receives it |
|---|---|
| `modelo.irf` | the moving-average matrices `psi` |
| `np.linalg.cholesky` | the factor `chol` |
| `DataFrame.corr().abs()` | the correlation matrix (or a function from a frame to it) |
| `adfuller` p-values | a function from a column's values to a p-value |
| `np.sqrt` | a function parameter |
| `r2_score` | a function parameter |
| `modelo.forecast` | a function that may fail |
| `pd.date_range` | an abstract grid function |
| `Series.interpolate` | an abstract kernel that may fail |
| `np.log` / `np.exp` | function parameters |

Arithmetic is exact over `real`. A NaN is `None` in an `Option<real>`, or `NaN` in the `Metric` datatype.

The model follows the code where the code differs from the design
description. The test R² has no degeneracy guard (code/04_metrics_summary.py:48).
Only the train R² is set to NaN for a short or constant reference
window (code/04_metrics_summary.py:27-31).

## Model

| member | source | states |
|---|---|---|
| Fevd.CalculateFevd | code/05_irf_fevd_analysis.py:105-169 | Returns the table built by assigning, affected variable outer and cause inner, the column named `{affected}_caused_by_{cause}` holding that pair's shares over steps 0..steps-1. |
| Fevd.ShareArray | code/05_irf_fevd_analysis.py:132-153 | Returns a fresh steps × n × n array whose entry [h, j, i] is the share of cause j in affected i at step h. Slice 0 is the identity. |
| Fevd.SetIdentitySlice | code/05_irf_fevd_analysis.py:136-140 | Slice 0 becomes 1 on the diagonal and 0 elsewhere; no other slice changes. |
| Fevd.FillSlice | code/05_irf_fevd_analysis.py:141-153 | From a zeroed slice h ≥ 1, the slice ends up holding exactly the normalised shares of step h; other slices are untouched. |
| Fevd.AccumulateTerm | code/05_irf_fevd_analysis.py:142-147 | One s-iteration adds theta[i][j]² to slice h at [j, i] for every pair, and each affected variable's row sum of squares to `suma_total[i]`. |
| Fevd.AccumulateRow | code/05_irf_fevd_analysis.py:144-147 | The inner loop for one affected variable i changes only column i of slice h and only `suma_total[i]`. |
| Fevd.NormaliseSlice | code/05_irf_fevd_analysis.py:149-153 | Each affected variable's causes are divided by its total, or all set to 1/n when the total is zero; other slices are unchanged. |
| Fevd.MatMul | code/05_irf_fevd_analysis.py:143 | `psi[s] @ P` is n × n and each entry is the dot product of a row of psi[s] with a column of P. |
| Fevd.RunningTotalIsCauseSum | code/05_irf_fevd_analysis.py:142-147 | `suma_total[i]`, accumulated response by response and cause by cause, equals the sum over causes of each cause's accumulated contribution. |
| Fevd.CauseSumStep | code/05_irf_fevd_analysis.py:142-147 | Adding response matrix s to the running sums adds the row sum of squares of theta_s to the total over causes. |
| Fevd.ContributionAtMostCauseSum | code/05_irf_fevd_analysis.py:146-147 | A cause's accumulated contribution never exceeds the affected variable's total. |
| Fevd.ShareInUnitInterval | code/05_irf_fevd_analysis.py:136-153 | Every share lies in [0, 1]. |
| Fevd.IdentityShareSum | code/05_irf_fevd_analysis.py:136-140 | At step 0 the shares of the first m causes of affected i sum to 1 if i is among them and to 0 otherwise. |
| Fevd.UniformShareSum | code/05_irf_fevd_analysis.py:150-151 | When the total is zero, the shares of the first m causes sum to m · (1/n). |
| Fevd.ProportionalShareSum | code/05_irf_fevd_analysis.py:152-153 | When the total is non-zero, the shares of the first m causes sum to their partial total divided by the full total. |
| Fevd.SharesSumToOne | code/05_irf_fevd_analysis.py:134-153 | At every step the shares over all causes of each affected variable sum to exactly 1. |
| Fevd.ContributionZero | code/05_irf_fevd_analysis.py:142-146 | A cause contributes zero exactly when its orthogonalised response is zero at every accumulated horizon. |
| Fevd.CauseSumZero | code/05_irf_fevd_analysis.py:146-150 | An affected variable's total is zero exactly when every cause contributes zero. |
| Fevd.ZeroTotalIffNoResponse | code/05_irf_fevd_analysis.py:142-151 | The uniform fallback fires exactly when every orthogonalised response of the affected variable over s = 0..h is zero. |
| Fevd.CauseSumOfOwnOnly | code/05_irf_fevd_analysis.py:146-147 | When only the variable's own shock contributes, its total is that one contribution. |
| Fevd.OwnShocksOnlyGiveUnitShare | code/05_irf_fevd_analysis.py:142-153 | If only own shocks move the variable, and at least one of them does, the variable gets share 1 for itself and 0 for every other cause. |
| Fevd.ContributionFromPrefix | code/05_irf_fevd_analysis.py:142-146 | A contribution over k responses depends only on psi[0..k-1]. |
| Fevd.CauseSumFromPrefix | code/05_irf_fevd_analysis.py:142-147 | A total over k responses depends only on psi[0..k-1]. |
| Fevd.ShareDependsOnlyOnPrefix | code/05_irf_fevd_analysis.py:132-153 | The share at step h depends only on psi[0..h] and P, never on later matrices or earlier slices. |
| Fevd.ColumnNames | code/05_irf_fevd_analysis.py:156-158 | The key grid is n × n; key [i][j] is `{names[i]}_caused_by_{names[j]}`. |
| Fevd.ShareColumns | code/05_irf_fevd_analysis.py:159 | The column for affected i and cause j has one entry per step, namely that step's share. |
| Fevd.CollidingColumnNames | code/05_irf_fevd_analysis.py:158 | Distinct variable names can still give the same column key (`a` and `a_caused_by_a`), so the dict may overwrite an earlier column. |
| Fevd.Flatten | code/05_irf_fevd_analysis.py:155-160 | The nested loop over the array builds exactly the table of the key grid and the share columns. |
| Fevd.PutAffected | code/05_irf_fevd_analysis.py:157-159 | The inner loop for affected i assigns the row of keys of i to their columns, in cause order. |
| Fevd.ColumnOf | code/05_irf_fevd_analysis.py:159 | `fevd[:, j, i]` has one entry per step, the array's entry at that step. |
| Fevd.ArrayHoldsShareColumns | code/05_irf_fevd_analysis.py:159 | The filled array and the share columns agree entry by entry. |
| ColumnTable.Put | code/05_irf_fevd_analysis.py:159 | Dict assignment: the key maps to the new column and other keys keep theirs. An existing key keeps its position; a new key goes last. |
| ColumnTable.PutKeepsValid | code/05_irf_fevd_analysis.py:159 | An assignment keeps each key listed once and the listed keys equal to the dict's keys. |
| ColumnTable.PutAllValid | code/05_irf_fevd_analysis.py:157-159 | A run of assignments keeps the dict well formed. |
| ColumnTable.PutAllKeys | code/05_irf_fevd_analysis.py:157-159 | After a run of assignments, the keys are exactly the earlier keys plus the assigned ones. |
| ColumnTable.PutAllLengths | code/05_irf_fevd_analysis.py:157-159 | Assigning columns of length `steps` keeps every column of that length. |
| ColumnTable.PutAllOrder | code/05_irf_fevd_analysis.py:157-159 | Assigning new, distinct keys appends them in assignment order. |
| ColumnTable.PutAllColumns | code/05_irf_fevd_analysis.py:157-159 | After assigning new, distinct keys, each holds its own column and the earlier keys keep theirs. |
| ColumnTable.PutRowsValid | code/05_irf_fevd_analysis.py:155-159 | The nested loop leaves a well-formed dict. |
| ColumnTable.PutRowsKeys | code/05_irf_fevd_analysis.py:155-159 | After k rows, every key of those rows is present, no other key is, and every column has `steps` entries. |
| ColumnTable.RowIsNew | code/05_irf_fevd_analysis.py:156-158 | With pairwise distinct keys, row k's keys are distinct and none appears in an earlier row. |
| ColumnTable.FlattenedOrder | code/05_irf_fevd_analysis.py:155-161 | With pairwise distinct keys, the frame's column order is the key grid read affected-outer, cause-inner. |
| ColumnTable.FlattenedColumns | code/05_irf_fevd_analysis.py:155-161 | With pairwise distinct keys, the key for (i, j) holds column [i][j]. |
| Collinearity.HighCorrelations | code/utils.py:19-40 | The result is the stable descending sort of the scan's tuples. It is sorted by coefficient and contains a tuple iff some lower-triangle pair is strictly above the threshold with that tuple. |
| Collinearity.Scan | code/utils.py:20-28 | The nested loop's list is the tuples of the pairs above the threshold, in row-major scan order. |
| Collinearity.ScanRow | code/utils.py:23-28 | The inner loop for row i appends the tuples of row i's pairs above the threshold, in column order. |
| Collinearity.RowPairsMembers | code/utils.py:23-25 | Row i yields a pair iff it is (i, j) with j below the bound and the entry strictly above the threshold. |
| Collinearity.RowPairsIncreasing | code/utils.py:23 | Row i yields its pairs in increasing column order. |
| Collinearity.PairsSpec | code/utils.py:22-25 | The scan yields exactly the lower-triangle pairs above the threshold. None is on the diagonal; they come in strictly increasing row-major order, so none twice. |
| Collinearity.PairsInRangeOf | code/utils.py:22-24 | Every scanned pair lies strictly below the diagonal on a non-NaN entry. |
| Collinearity.ReportEntries | code/utils.py:24-28 | Tuple p of the report is (columns[i], columns[j], coef) for the p-th pair (i, j). |
| Collinearity.ScanReportsExactly | code/utils.py:22-28 | A tuple is in the scan's list iff it is reported by some lower-triangle pair above the threshold. |
| Collinearity.InsertSorted | code/utils.py:31 | Inserting into a descending list keeps it descending. |
| Collinearity.InsertPermutes | code/utils.py:31 | Inserting adds exactly the one element. |
| Collinearity.InsertStable | code/utils.py:31 | Inserting places the new element after every element with an equal coefficient. |
| Collinearity.SortDescSorted | code/utils.py:31 | The sorted list is non-increasing in coefficient. |
| Collinearity.SortDescPermutes | code/utils.py:31 | The sorted list is a permutation of the input. |
| Collinearity.SortDescStable | code/utils.py:31 | For every coefficient value, the elements with that value keep their input order. |
| Collinearity.SortedReportSpec | code/utils.py:22-31 | The sorted report is descending and holds exactly the reported tuples. |
| Stationarity.PreprocessSeries | code/utils.py:43-81 | Every column gets a stationarity entry, true iff its p-value is below alpha. The output frame keeps stationary columns and differences the others, then drops incomplete rows jointly. The differenced list is exactly the unmarked names in column order. The correlation list is sorted and holds exactly the reported pairs of the output frame. |
| Stationarity.DiffInverse | code/utils.py:73 | A differenced complete column starts with a missing value. Adding its differences to the first value gives back every later value. |
| Stationarity.DiffMissing | code/utils.py:73 | A missing value makes the difference missing at that row and the next. |
| Stationarity.KeptRowsSpec | code/utils.py:75 | Exactly the rows complete in every column survive, in their original order. |
| Stationarity.DropIncomplete | code/utils.py:75 | The output keeps the column names; each kept row carries its index label and its value from every column. |
| Stationarity.UnmarkedSpec | code/utils.py:76 | A name is in `variables_diferenciadas` iff it is a column marked non-stationary. |
| Stationarity.FirstRowDropped | code/utils.py:72-75 | Once any column is differenced, the first row is dropped from every column. |
| Stationarity.StationaryColumnKept | code/utils.py:72-75 | A stationary column keeps its original values on the surviving rows. |
| Stationarity.DifferencedColumnKept | code/utils.py:72-75 | A differenced column holds x[t] - x[t-1] on each surviving row t, and both operands are present. |
| Standardize.Scale | code/utils.py:96-98 | The fitted scale is never zero: a zero deviation becomes 1. |
| Standardize.Fit | code/utils.py:96-98 | Fitting succeeds iff the training frame has rows and columns. The parameters are each training column's mean and scale, under the training column names. |
| Standardize.Transform | code/utils.py:97-107 | Transform succeeds iff the frame has rows and exactly the fitted columns. Index and columns are preserved, and each value becomes (x - mean) / scale of its column. |
| Standardize.InverseTransform | code/04_metrics_summary.py:17 | The inverse checks only the shape: it succeeds iff the frame has rows and as many columns as were fitted, whatever their names. Index and columns are preserved, and each value becomes x · scale + mean of its column position. |
| Standardize.InverseIgnoresNames | code/04_metrics_summary.py:17 | Renaming a frame's columns changes neither whether the inverse succeeds nor the values it gives. |
| Standardize.StandardizeTrainTest | code/utils.py:83-109 | Succeeds iff train has rows and columns and test has rows and the same columns. The scaler is fitted on train alone, and both frames are transformed with it. |
| Standardize.RestoreStandardized | code/utils.py:96-109 | Undoing the standardisation of a column gives the column back. |
| Standardize.StandardizeRestored | code/utils.py:96-109 | Standardising an undone column gives it back. |
| Standardize.InverseAfterTransform | code/utils.py:96-109 | `inverse_transform(transform(f)) == f` for any frame with the fitted columns. |
| Standardize.TransformAfterInverse | code/utils.py:96-109 | `transform(inverse_transform(f)) == f` for any frame with the fitted columns. |
| Standardize.TrainColumnsCentred | code/utils.py:96-101 | Every standardised training column has mean zero. |
| LogCandidates.Candidates | code/01_preprocessing.py:15-25 | The result lists the names of the qualifying columns, one per qualifying column, in column order. |
| LogCandidates.Qualifies | code/01_preprocessing.py:17-24 | One column passes the two `continue` guards and the ratio and level test iff it is a candidate. |
| LogCandidates.Qualifying | code/01_preprocessing.py:16-24 | One flag per column, true iff that column is a candidate. |
| LogCandidates.IndicesWhereMembers | code/01_preprocessing.py:16-24 | A position is listed iff its flag is set. |
| LogCandidates.IndicesWhereIncreasing | code/01_preprocessing.py:16-24 | Listed positions are strictly increasing, so each appears once and in column order. |
| LogCandidates.CandidateIndicesSpec | code/01_preprocessing.py:15-25 | Exactly the qualifying columns are selected, each once, in column order. |
| LogCandidates.Max | code/01_preprocessing.py:22 | `serie.max()` is a value of the series and at least every value. |
| LogCandidates.Min | code/01_preprocessing.py:22 | `serie.min()` is a value of the series and at most every value. |
| LogCandidates.NonPositiveNeverCandidate | code/01_preprocessing.py:18-19 | A column with a zero or negative numeric value is never selected. |
| LogCandidates.FewValuesNeverCandidate | code/01_preprocessing.py:20-21 | A column with fewer than three numeric values is never selected. |
| LogCandidates.ConstantNeverCandidate | code/01_preprocessing.py:22-23 | With a ratio threshold of at least 1, a constant column is never selected. |
| Interpolation.Interpolate | code/01_preprocessing.py:52-97 | The series is sorted by date on entry and the checks run in the source's order. A target off the ladder fails first, then fewer than three dates fail. Then `ffill` returns the forward-filled target grid of the sorted series; any other method gets the log/walk/exponent result of the sorted series. |
| Interpolation.SortByIndex | code/01_preprocessing.py:57 | `sort_index` gives a series of the same length whose dates ascend and whose (date, value) pairs are those of the input. |
| Interpolation.SortPoints | code/01_preprocessing.py:57 | The sorted pairs are in date order and are a permutation of the input pairs. |
| Interpolation.InsertPoint | code/01_preprocessing.py:57 | Inserting a pair adds exactly that pair. |
| Interpolation.InsertAscending | code/01_preprocessing.py:57 | Inserting a pair into pairs in date order keeps them in date order. |
| Interpolation.SortAscendingKeeps | code/01_preprocessing.py:57 | Pairs already in date order are left as they are. |
| Interpolation.SortedSeriesKept | code/01_preprocessing.py:57 | A series already in date order comes out of `sort_index` unchanged. |
| Interpolation.LogWalk | code/01_preprocessing.py:74-94 | The log guard, the walk down the visited frequencies and the exponent rule compute exactly the specified result. |
| Interpolation.Interpolated | code/01_preprocessing.py:74-94 | A non-positive value under the log flag fails before any step; a success is a well-formed series. |
| Interpolation.WalkSteps | code/01_preprocessing.py:79-91 | The loop over the visited frequencies computes the walk, stopping at the first error. |
| Interpolation.Step | code/01_preprocessing.py:80-91 | One step fails as follows: an empty index fails, duplicate dates fail, and spline or polynomial with fewer than four known points fails. A success lies on the grid at that frequency over the series' span, and its values are what the kernel returns for the series reindexed onto that grid; a kernel failure is reported as such. |
| Interpolation.Steps | code/01_preprocessing.py:79 | Stepwise mode visits the ladder after annual up to the target, in order (empty for annual); direct mode visits only the target. |
| Interpolation.LadderPosition | code/01_preprocessing.py:59-62 | The position of a valid target on the ladder. |
| Interpolation.FfillPath | code/01_preprocessing.py:68-72 | The `ffill` path fails only on duplicate dates. Otherwise it lands on the target grid over the input's span. |
| Interpolation.ForwardFillSpec | code/01_preprocessing.py:70 | A known value is kept, a gap takes the nearest earlier known value, and leading gaps stay gaps. |
| Interpolation.FfillIgnoresFlags | code/01_preprocessing.py:68-72 | The `ffill` result depends on neither the log nor the stepwise flag. Each of its slots is empty iff every slot up to it was empty after reindexing. |
| Interpolation.Reindex | code/01_preprocessing.py:81 | Each new date takes the series' value at that date, or a gap when the series lacks it. |
| Interpolation.MapKnown | code/01_preprocessing.py:77 | Applying log or exp keeps the index and the positions of gaps. |
| Interpolation.Earliest | code/01_preprocessing.py:69 | `index.min()` is an index label no greater than any other. |
| Interpolation.Latest | code/01_preprocessing.py:69 | `index.max()` is an index label no smaller than any other. |
| Interpolation.WalkEndsOnLastGrid | code/01_preprocessing.py:79-81 | A successful walk ends on the grid of the last frequency it visits. |
| Interpolation.InterpolatedOnTargetGrid | code/01_preprocessing.py:79-81 | A successful interpolation that visits at least one frequency ends on the target frequency's grid. |
| Interpolation.AnnualStepwiseSorts | code/01_preprocessing.py:57-94 | Stepwise to annual visits nothing. The result is the input sorted by date, with dates ascending, and exp is applied only when both log flags are set. |
| ForecastMetrics.EvaluateModels | code/04_metrics_summary.py:1-58 | Both result dicts have exactly one key per lag. Each lag maps to its train and test metrics, or to NaN for all six when its evaluation raises. |
| ForecastMetrics.Tabulate | code/04_metrics_summary.py:10-56 | The loop over lags gives each lag an entry in both dicts, holding that lag's outcome. |
| ForecastMetrics.EvaluateLag | code/04_metrics_summary.py:11-50 | The try body succeeds iff both the train and the test windows can be built; then both MAEs are numbers. |
| ForecastMetrics.Rows | code/04_metrics_summary.py:13 | A row slice of the frame holds, at each row, one value per column. |
| ForecastMetrics.TrainSeed | code/04_metrics_summary.py:13 | `values[-p:]` is the last p rows of train, or all rows when p is 0. |
| ForecastMetrics.TestSeed | code/04_metrics_summary.py:36 | `values[:p]` is the first p rows of test, or all of them when there are fewer. |
| ForecastMetrics.AsFrame | code/04_metrics_summary.py:15 | The forecast rows become a frame over the partition's columns, transposed entry by entry. |
| ForecastMetrics.DescaledTarget | code/04_metrics_summary.py:15-19 | Descaling succeeds iff the rows have the frame's width, there is a row, the width is the fitted one and the target is a column. Each value is then pred · scale + mean of the target's column. |
| ForecastMetrics.Telescoping | code/04_metrics_summary.py:19 | Adding true first differences to the anchor value gives back the following values. |
| ForecastMetrics.ReconstructDifferences | code/04_metrics_summary.py:19 | Cumulative-sum reconstruction from the value before a window reproduces the window. |
| ForecastMetrics.Target | code/04_metrics_summary.py:18 | The target column exists iff the name is a column of the original series. |
| ForecastMetrics.Score | code/04_metrics_summary.py:17-24 | Scored windows are non-empty and of equal length. The actual window is the original slice. The prediction at k is the anchor plus the sum of the descaled forecast up to k. |
| ForecastMetrics.TrainWindows | code/04_metrics_summary.py:13-20 | The train reference window has at most p values. |
| ForecastMetrics.TestWindows | code/04_metrics_summary.py:36-43 | The test reference window has at most `forecast_steps` values. |
| ForecastMetrics.Mae | code/04_metrics_summary.py:23 | MAE is non-negative, and zero iff the prediction equals the reference. |
| ForecastMetrics.Mse | code/04_metrics_summary.py:24 | MSE is non-negative. |
| ForecastMetrics.TrainMetrics | code/04_metrics_summary.py:23-33 | Train R² is NaN for fewer than two points or a constant reference; otherwise it is `r2_score`. |
| ForecastMetrics.TestMetrics | code/04_metrics_summary.py:46-50 | Test R² is `r2_score` with no guard. |
| ForecastMetrics.TrainRecoversWindow | code/04_metrics_summary.py:17-20 | If the descaled train forecast is the true differences of the original target, the reconstruction equals the train tail and MAE is zero. |
| ForecastMetrics.TestRecoversWindow | code/04_metrics_summary.py:40-43 | If the descaled test forecast is the true differences of the original target, the reconstruction equals the test head and MAE is zero. |
| ForecastMetrics.FlatTrainTailHasNoR2 | code/04_metrics_summary.py:27-31 | A constant train tail gives NaN train R², whatever the forecast. |
| ForecastMetrics.FailedForecastGivesNaN | code/04_metrics_summary.py:52-56 | A lag whose forecast fails gets NaN for all six metrics. |

## Left out

- Printing, `traceback`, `os.makedirs` and CSV export are I/O.
  - This includes the verbose report of the correlation screen and its "no high correlation" message.
  - It also includes the non-annual warning after `infer_freq`.
- Library numerics are inputs, as listed above.
  - This covers the VAR fit, `irf`, `cholesky` (and its positive-definiteness failure), `corr`, `adfuller`, `sqrt`, `r2_score`, `forecast`, `date_range`, the interpolation kernels, and `log`/`exp`.
  - Their values are not modelled.
- Floating point is modelled as exact reals. The `== 0` test on the FEVD total is exact, and `np.allclose` is exact equality.
- The `isinstance` check and `pd.to_datetime` are left out. Dates are integer labels.
- Interpolation.SortByIndex: `sort_index` is modelled as a stable insertion sort by date. pandas' default sort does not promise an order among equal dates. Equal dates only survive on the stepwise-to-annual path, because every reindex refuses them.
- The index names `fecha` and `Step` are left out.
- `infer_freq` raises on fewer than three dates. Only that failure is modelled, as `TooFewDates`.
- `pd.to_numeric(..., errors='coerce')` is not modelled as a parse. A column arrives with non-numeric cells already missing.
- Collinearity.HighCorrelations: `list.sort` is modelled as a stable insertion sort on values. The in-place update of the list is not modelled.
- ForecastMetrics.EvaluateModels: requires every lag to be below the number of training rows. A larger lag makes `len(train) - 1 - p` negative, and pandas would then read from the end of the series.
- ForecastMetrics.EvaluateModels: the lag keys are a sequence and the fitted models are one `forecast` function of the lag. Dict keys are not required to be distinct; a repeated lag rewrites an equal entry.
- Stationarity.PreprocessSeries: requires distinct column names. With repeated names, pandas column selection returns a frame, not a series.
- ColumnTable.FlattenedOrder and ColumnTable.FlattenedColumns: require pairwise distinct keys.
  - Fevd.CollidingColumnNames shows that distinct names can still collide.
  - In that case Fevd.CalculateFevd still gives the dict's overwrite semantics, but the layout lemmas do not apply.
- Fevd.CalculateFevd: `psi` must hold at least `steps` matrices, as `irf(steps)` provides. The DataFrame wrapper around the dict (its integer row index) is not modelled.
