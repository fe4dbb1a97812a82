# meteoflow data pipeline in Dafny

This is a model of the data side of meteoflow, a weather forecasting
pipeline: daily observations for a location are collected, cleaned,
turned into feature tables and split chronologically for training, and a
daily job makes a forecast for the next day from the most recent
observations. These parts are modelled:

- **Collection** (`DataCollection`): choosing columns from the daily table
  the weather service returns.
- **Spatial fusion** (`Interpolation`): building one series for the target
  point from several stations by inverse-distance weighting (IDW), plus
  the lookup of station coordinates.
- **Preprocessing** (`Preprocessing`): forward fill then backward fill, and
  clipping to the interquartile fences with a count of clipped values per
  column.
- **Feature engineering** (`FeatureEngineering`, `FeatureRows`): next-day
  targets, lag columns, calendar columns, and dropping incomplete rows.
- **Split** (`DataSplitting`): the chronological train/test split.
- **Daily update** (`UpdatePrediction`): the fetch window, the features of
  the last row, the prediction loop over the models, and the forecast
  record.

How the model represents things:

- A table is column-major. `Tables.Table` holds an index of day numbers
  (day 0 is 1970-01-01), the column names in order, and one column of
  cells per name.
- A cell is `Option<real>`, and `None` stands for a missing value (NaN).
- pandas operations become small modelled functions:
  - `df[name]` is `Tables.ColumnOf` and `df[name] = col` is
    `Tables.SetColumn`. Both are meant for tables whose column names are
    distinct, where the column with that name is the only one: the read
    takes it, and the assignment overwrites it or else appends.
  - `shift` is by row position.
  - `dropna` keeps the rows with no missing cell.
  - `df.empty` holds when there are no rows or no columns.
- Calendar columns use the proleptic Gregorian calendar. Weekday 0 is
  Monday.
- Where the program stops (a raised exception, `sys.exit`, an early
  return of `None`), the model returns an `Err` or `None`.
- Where the program loops, the model has a method with a loop, and that
  method is proved equal to a specification function. The properties are
  proved about those functions:
  - `IdwInterpolate`, `InterpolateVariables`, `InterpolateVariable`,
    `InterpolateDay` and `AccumulateStations` in the IDW code;
  - `ForwardFill`, `BackwardFill`, `FillGaps`, `ClipOutliers` and
    `PreprocessData` in preprocessing;
  - `AddTargets`, `AddLags` and `EngineerFeatures` in feature engineering;
  - `GetFeaturesForDate`, `PredictAll` and `RunPrediction` in the daily
    update.

Two behaviours of the code that the model keeps:

- `preprocess_data` (src/data_preprocessing.py:13-17) fills gaps but never
  drops a row that is still incomplete. Such a row survives only when a
  whole column is missing, and it then stays in the table.
- In `split_data`, a test period of zero days or fewer passes the
  row-count test (src/data_splitting.py:40). The lookup
  `index[split_index]` then raises. This is `SplitError.InvalidSplitIndex`.

Two consequences of the code, proved as lemmas that compose:

- On gap-free daily data, the last engineered row is the day before the
  last fetched day. This is because the next-day target of the last day is
  missing, so `dropna` removes that row (`FeatureRows.EngineeredFullInput`).
- So when the fetch reaches the day before the target day, the features
  come from two days before it:
  - the date warning of src/update_prediction_data.py:70-72 fires
    (`UpdatePrediction.WindowLastRow`);
  - the record's forecast date is the day before the target day
    (`UpdatePrediction.ForecastFields`: the forecast date is the feature
    date plus one).
- The program reports that date as the actual forecast date
  (src/update_prediction_data.py:133, 150, 203), so this is recorded here as
  behaviour, not as a defect.

## Model

| member | source | states |
|---|---|---|
| Tables.PresentNames | src/data_collection.py:24 | the listed names the table has as columns, in the listed order: the available required columns here, and the present targets of src/data_splitting.py:15-17 |
| DataCollection.Missing | src/data_collection.py:27 | a column is reported missing exactly when it is required and absent from the raw table |
| DataCollection.MissingEssentials | src/data_collection.py:29 | an essential column is missing exactly when it is not among the available columns |
| DataCollection.GetWeatherData | src/data_collection.py:24-48 | a successful selection contains every essential column; the outcome is `CollectionOutcome` and the selected table `CollectedTable` |
| DataCollection.ColumnsPartitionRequired | src/data_collection.py:24-27 | available and missing columns both keep the required order, and together they hold each required column as many times as the required list does |
| DataCollection.CollectionOutcome | src/data_collection.py:29-48 | collection succeeds iff every essential column is available, the table has rows and some required column is present; a missing essential column gives the error listing exactly those columns; an empty selection is the only other error |
| DataCollection.CollectedTable | src/data_collection.py:40-48 | a successful selection keeps every row and date, holds exactly the available columns in required order with the raw cells, contains every essential column, and reports the absent required columns |
| DataCollection.CollectedComplete | src/data_collection.py:40 | selecting columns from a table without missing cells gives a table without missing cells |
| Interpolation.Weight | src/interpolation.py:120 | the weight `1 / d^power` of a positive distance is positive |
| Interpolation.Pow | src/interpolation.py:120 | `d ** power` of a positive base is positive; its growth in the base is `PowMonotone` |
| Interpolation.PowMonotone | src/interpolation.py:120 | for positive bases, a larger base has a power at least as large, and strictly larger for an exponent of 1 or more |
| Interpolation.WeightDecreasing | src/interpolation.py:120 | with power 1 or more a farther station has a strictly smaller weight; with power 0 every weight is 1 |
| Interpolation.CloserPullsToward | src/interpolation.py:113-129 | with two far stations of values v1 < v2, moving the first one closer (still at least `eps` away) strictly lowers the day's value toward v1 |
| Interpolation.CoordinatesOfCharacterized | src/interpolation.py:27-38 | a station has coordinates exactly when an inventory row with its id is requested and has both coordinates; the last such row supplies them |
| Interpolation.CoordinatesOf | src/interpolation.py:34-38 | every key of the coordinate dictionary is a requested id; which keys and values is `CoordinatesOfCharacterized` |
| Interpolation.GetStationData | src/interpolation.py:18-56 | a failed inventory load gives the empty dictionary; otherwise a station id is a key iff it is requested and some inventory row for it has both coordinates, and its value is the pair of coordinates of the last such row |
| Interpolation.CoordinatesOfAll | src/interpolation.py:27-38 | the same key and value characterization for the coordinate loop over all inventory rows |
| Interpolation.StationDataKeys | src/interpolation.py:27-48 | a key is in the station dictionary iff it is requested and some inventory row for it has both coordinates; with no such row the dictionary is empty |
| Interpolation.FirstDay | src/interpolation.py:79 | the earliest date of all stations: no station date is earlier, and some station starts on it |
| Interpolation.LastDay | src/interpolation.py:80 | the latest date of all stations: no station date is later, and some station ends on it |
| Interpolation.DayRange | src/interpolation.py:81 | the daily range from the first to the last date, both included, each day once and in order |
| Interpolation.RangeCoversAllStationDates | src/interpolation.py:79-81 | every date of every station lies in the reference range |
| Interpolation.ContributionCharacterized | src/interpolation.py:105-111 | a station contributes to a day and variable iff it has a distance, the day and the variable, and the cell is present; it then contributes its distance and that value |
| Interpolation.Lookup | src/interpolation.py:108-110 | a station value exists only when the station has the date and the variable; the full condition is `ContributionCharacterized` |
| Interpolation.ContributionOf | src/interpolation.py:104-111 | a contribution carries the station's distance; when a station contributes is `ContributionCharacterized` |
| Interpolation.PresentExact | src/interpolation.py:104-123 | the present contributions are taken one per contributing position, at ascending positions, each the contribution at its position |
| Interpolation.Samples | src/interpolation.py:104-123 | a day has no more samples than there are stations; that there is one per contributing station, in station order, is `SamplesCharacterized` |
| Interpolation.SamplesCharacterized | src/interpolation.py:104-111 | the k-th sample of a day is the contribution of the k-th contributing station: one sample per contributing station, in station order, and none from the others |
| Interpolation.NearIndex | src/interpolation.py:113 | the position of the first sample closer than `eps`: every earlier sample is at least `eps` away |
| Interpolation.SumW | src/interpolation.py:122 | the sum of weights is zero exactly when there are no samples, and never negative |
| Interpolation.CoincidenceDecides | src/interpolation.py:113-131 | a sample closer than `eps` that follows only far samples decides the day: its value is the result, whatever comes after it |
| Interpolation.FirstNearStationWins | src/interpolation.py:104-131 | the first station in iteration order that has a value closer than `eps` supplies the value of the day |
| Interpolation.WeightedSumBounds | src/interpolation.py:120-123 | the weighted sum lies between the smallest and largest value times the sum of weights |
| Interpolation.WSum | src/interpolation.py:121 | no contract of its own; `WeightedSumBounds` bounds it by the smallest and largest value times the sum of weights |
| Interpolation.MeanWithinBounds | src/interpolation.py:120-129 | with enough far samples the day has a value, and that value lies between the smallest and the largest sample value |
| Interpolation.FarDayValue | src/interpolation.py:120-129 | with enough samples, all far away, the day's value is the weighted sum divided by the sum of weights |
| Interpolation.SingleContributor | src/interpolation.py:113-131 | a single contributing station gives exactly its own value, whatever its distance |
| Interpolation.MissingExactlyWithoutContributors | src/interpolation.py:126-134 | with the minimum of one station, a day is missing exactly when no station contributes |
| Interpolation.TwoSampleMean | src/interpolation.py:120-129 | two far samples give the mean of their values weighted by `1 / d^power` |
| Interpolation.TwoStationExample | src/interpolation.py:15-129 | stations 5 and 50 away with values 10 and 20 and power 2 give the weighted mean (10/25 + 20/2500) / (1/25 + 1/2500) |
| Interpolation.NearOutcome | src/interpolation.py:113-131 | when some sample is closer than `eps`, the day's value is the first such sample's value if the marker 999 meets the minimum station count, and missing otherwise |
| Interpolation.DayValue | src/interpolation.py:113-131 | a day with no sample has no value; the value itself is `NearOutcome`, `FarOutcome` and `FirstNearStationWins` |
| Interpolation.FarOutcome | src/interpolation.py:120-129 | when no sample is closer than `eps`, the day has the weighted mean iff the minimum count is met and the weights are positive |
| Interpolation.AccumulateStations | src/interpolation.py:99-123 | the station loop ends with the near sample's value, weight 1 and the marker 999 when a sample is closer than `eps`, and otherwise with the weighted sum, the sum of weights and the number of samples |
| Interpolation.InterpolateDay | src/interpolation.py:99-131 | the value of one day is the specified IDW value of that day's samples |
| Interpolation.FusedColumnCell | src/interpolation.py:98-136 | each cell of a fused column is the IDW value of the samples of its day |
| Interpolation.FusedColumn | src/interpolation.py:94-136 | one cell per day of the range; each cell is `FusedColumnCell` |
| Interpolation.CountMissing | src/interpolation.py:133-134 | the missing-day count is zero exactly when every day has a value |
| Interpolation.InterpolateVariable | src/interpolation.py:92-138 | the day loop yields the fused column and counts its missing days |
| Interpolation.DistanceMap | src/interpolation.py:86-90 | a distance exists for exactly the stations that have coordinates |
| Interpolation.ComputeDistances | src/interpolation.py:86-90 | the distance loop builds the distance map |
| Interpolation.Dedup | src/interpolation.py:138-144 | the result columns: each variable once, and nothing else |
| Interpolation.FusedCharacterized | src/interpolation.py:138-144 | the result table has one column per distinct variable, and each one is that variable's fused column |
| Interpolation.Fused | src/interpolation.py:138-144 | the result table is well formed over the day range; its columns are `FusedCharacterized` |
| Interpolation.MissingCountsCell | src/interpolation.py:133-140 | the missing-day count of each variable is the number of missing cells of its fused column |
| Interpolation.MissingCounts | src/interpolation.py:95-134 | one count per variable; each count is `MissingCountsCell` |
| Interpolation.InterpolateVariables | src/interpolation.py:92-144 | the variable loop builds the fused table and the per-variable missing counts |
| Interpolation.IdwInterpolate | src/interpolation.py:58-150 | no result exactly when there are no stations or no metadata; otherwise the fused table over the daily range from the first to the last date, with its missing counts |
| Preprocessing.LastPresent | src/data_preprocessing.py:15 | the last position at or before `i` with a present cell, with only missing cells after it; none when all are missing |
| Preprocessing.NextPresent | src/data_preprocessing.py:17 | the first position from `i` on with a present cell; none when all are missing |
| Preprocessing.FFill | src/data_preprocessing.py:15 | `ffill` keeps the length; its cells are `FillCharacterized` and `ForwardFill` |
| Preprocessing.BFill | src/data_preprocessing.py:17 | `bfill` keeps the length; its cells are `FillCharacterized` and `BackwardFill` |
| Preprocessing.Fill | src/data_preprocessing.py:15-17 | `ffill` then `bfill` keeps the length; its cells are `FillCharacterized`, `FillKeepsPresent` and `FillMissingExactly` |
| Preprocessing.FillStep | src/data_preprocessing.py:13-17 | the conditional fill keeps rows and columns; it is idempotent by `FillStepIdempotent` |
| Preprocessing.FillCharacterized | src/data_preprocessing.py:15-17 | after forward then backward fill a cell holds the last present value at or before it, and failing that the first present value of the column |
| Preprocessing.FillKeepsPresent | src/data_preprocessing.py:15-17 | filling never changes a present cell |
| Preprocessing.FillMissingExactly | src/data_preprocessing.py:15-17 | a cell stays missing after the fill iff the whole column is missing |
| Preprocessing.FillIdempotent | src/data_preprocessing.py:15-17 | filling a filled column changes nothing |
| Preprocessing.ForwardFill | src/data_preprocessing.py:15 | the forward-fill loop computes `ffill` |
| Preprocessing.BackwardFill | src/data_preprocessing.py:17 | the backward-fill loop computes `bfill` |
| Preprocessing.FillStepIdempotent | src/data_preprocessing.py:13-17 | the fill step applied twice equals the fill step once |
| Preprocessing.FillGaps | src/data_preprocessing.py:13-17 | the fill loop over the columns fills every column when some cell is missing, and otherwise leaves the table alone |
| Preprocessing.Fences | src/data_preprocessing.py:29-34 | fences exist iff both quartiles exist and the IQR is positive, and then lower < Q1 < Q3 < upper |
| Preprocessing.ColumnFences | src/data_preprocessing.py:27-34 | the fences of a column, when defined, have the lower one below the upper one; when they exist is `Fences` |
| Preprocessing.CountBelow | src/data_preprocessing.py:37 | at most one count per cell; the cells counted are `ClipChangesOutliers` and `OutlierCountIsChanged` |
| Preprocessing.CountAbove | src/data_preprocessing.py:38 | at most one count per cell; the cells counted are `ClipChangesOutliers` and `OutlierCountIsChanged` |
| Preprocessing.ClipCell | src/data_preprocessing.py:43 | a missing cell stays missing and a present one stays present, and with ordered fences a clipped value lies within them |
| Preprocessing.ClipColumn | src/data_preprocessing.py:43 | `clip` keeps the length; its cells are `ClippedWithinFences` and `ClipChangesOutliers` |
| Preprocessing.ClipChangesOutliers | src/data_preprocessing.py:37-43 | clipping changes exactly the cells below the lower fence and above the upper one |
| Preprocessing.NoOutliersInside | src/data_preprocessing.py:37-41 | with no value below or above the fences, every present value lies within them |
| Preprocessing.UndefinedFencesUnchanged | src/data_preprocessing.py:32-50 | a column whose IQR is missing, zero or negative is left unchanged, with no outlier counted |
| Preprocessing.ClippedWithinFences | src/data_preprocessing.py:32-43 | after clipping, missing cells stay missing, every value lies within the fences, and values already inside are unchanged |
| Preprocessing.OutlierCountIsChanged | src/data_preprocessing.py:37-44 | the outlier count of a column equals the number of cells that clipping changes |
| Preprocessing.OutlierCount | src/data_preprocessing.py:27-39 | the count of values outside the fences, zero without fences; it equals the changed cells by `OutlierCountIsChanged` |
| Preprocessing.ClippedColumn | src/data_preprocessing.py:27-43 | the clipped column keeps its length; its cells are `ClippedWithinFences` and `ClipChangesOutliers` |
| Preprocessing.ClipColumnStep | src/data_preprocessing.py:27-44 | the column step counts the outliers and returns the column clipped to its fences; when the count is zero that clipped column is the column unchanged |
| Preprocessing.ClipOutliers | src/data_preprocessing.py:23-44 | every column is clipped to its fences; a column is counted exactly when it has outliers, with its outlier count |
| Preprocessing.PreprocessData | src/data_preprocessing.py:5-61 | the result is the filled table with every column clipped, the same rows and columns, and the outlier counts of the filled columns |
| FeatureEngineering.Shift | src/feature_engineering.py:19-35 | a shifted column has the length of the column |
| FeatureEngineering.LagRunAt | src/feature_engineering.py:34-35 | the i-th lag name of a column is `col_lag_i` |
| FeatureEngineering.NatToString | src/feature_engineering.py:35 | `str(i)` of a natural number is a non-empty string |
| FeatureEngineering.LagName | src/feature_engineering.py:35 | the lag name is longer than the column name; `LagNameStartsWithColumn` shows it starts with the column name and `_lag_` |
| FeatureEngineering.LagNameStartsWithColumn | src/feature_engineering.py:35 | `f'{col}_lag_{i}'` begins with `col` and then `_lag_` |
| FeatureEngineering.LagCount | src/feature_engineering.py:34 | `range(1, lag_days + 1)` has no element exactly when `lag_days <= 0` |
| FeatureEngineering.TargetData | src/feature_engineering.py:17-19 | each target column is its base column shifted by -1 |
| FeatureEngineering.LagDataAt | src/feature_engineering.py:34-35 | the i-th lag column is the column shifted by i |
| FeatureEngineering.TargetErrorPersists | src/feature_engineering.py:17-21 | once the target loop raises, it raises with the same error |
| FeatureEngineering.TargetColumns | src/feature_engineering.py:17-19 | while the target loop succeeds, its columns are the original columns and the targets made so far |
| FeatureEngineering.TargetNext | src/feature_engineering.py:17-21 | a target step succeeds iff its base is a column of the table built so far, and otherwise raises naming that base |
| FeatureEngineering.FirstUnavailableMeans | src/feature_engineering.py:17-21 | the first pair whose base is neither an original column nor an earlier target; none iff every base is available |
| FeatureEngineering.TargetOutcome | src/feature_engineering.py:17-21 | the target loop succeeds iff every base is available, and otherwise fails naming the first unavailable base |
| FeatureEngineering.TargetsAppended | src/feature_engineering.py:17-19 | with original bases and new target names the loop appends the targets, each its base shifted by -1 |
| FeatureEngineering.LagsAppended | src/feature_engineering.py:29-35 | with fresh lag names the lag loop appends, for each column in order, its lag columns 1 to `lag_days` |
| FeatureEngineering.WithLagsOf | src/feature_engineering.py:34-35 | the lag loop of one column keeps the index and every column; its lag columns are `LagDataAt` and `LagsAppended` |
| FeatureEngineering.LagNamesCount | src/feature_engineering.py:33-35 | the lag loop makes `lag_days` names per column |
| FeatureEngineering.CalendarAppended | src/feature_engineering.py:39-41 | the calendar step appends month, day of year and weekday, computed from the index |
| FeatureEngineering.WithTargets | src/feature_engineering.py:17-21 | the target loop keeps the index; its outcome is `TargetOutcome` and its columns `TargetColumns` |
| FeatureEngineering.WithLags | src/feature_engineering.py:29-35 | the lag loops keep the index and every column; what they append is `LagsAppended` |
| FeatureEngineering.WithCalendar | src/feature_engineering.py:39-41 | the calendar step keeps the index; what it appends is `CalendarAppended` |
| FeatureEngineering.Engineered | src/feature_engineering.py:3-50 | a result is never empty; the outcome is `EngineeredOutcome` and `EngineeredFailures`, the layout `ExpandedLayout` |
| FeatureEngineering.CompletePositions | src/feature_engineering.py:45 | the positions `dropna` keeps are exactly the complete rows; that they ascend is `CompletePositionsAscending` |
| FeatureEngineering.CompletePositionsAscending | src/feature_engineering.py:45 | the kept positions ascend strictly, so each complete row is kept once, in order |
| FeatureEngineering.DropNa | src/feature_engineering.py:45 | `dropna` keeps the columns; its rows are `DropNaRows` |
| FeatureEngineering.DropNaRows | src/feature_engineering.py:45 | the rows left are exactly the complete rows of the table, in their order, each with its date and cells |
| FeatureEngineering.Targeted | src/feature_engineering.py:17-19 | for conforming inputs the target loop succeeds, and its table is the original one with the target columns appended |
| FeatureEngineering.ExpandedLayout | src/feature_engineering.py:17-41 | before `dropna` the columns are the originals, the targets, their lags and the calendar columns, in this order |
| FeatureEngineering.Expanded | src/feature_engineering.py:17-41 | the table before `dropna` keeps the index; its columns are `ExpandedLayout`, `ExpandedOriginals`, `ExpandedTargets`, `ExpandedLags` and `ExpandedCalendar` |
| FeatureEngineering.ExpandedOriginals | src/feature_engineering.py:17-41 | original columns keep their cells |
| FeatureEngineering.ExpandedTargets | src/feature_engineering.py:17-19 | each target column is its base column shifted by -1 |
| FeatureEngineering.ExpandedLags | src/feature_engineering.py:29-35 | for each original or target column x and each i from 1 to `lag_days`, `x_lag_i` is x shifted by i |
| FeatureEngineering.ExpandedCalendar | src/feature_engineering.py:39-41 | the month, day of year and weekday columns are computed from the index |
| FeatureEngineering.AddTargets | src/feature_engineering.py:17-21 | the target loop computes the specified targets or the error |
| FeatureEngineering.AddLagsOf | src/feature_engineering.py:34-35 | the inner lag loop adds the lags of one column |
| FeatureEngineering.AddLags | src/feature_engineering.py:29-35 | the lag loops add the lags of every column present after the targets |
| FeatureEngineering.EngineerFeatures | src/feature_engineering.py:3-63 | the whole procedure computes the specified engineered table or the error |
| FeatureRows.DropNaComplete | src/feature_engineering.py:45 | after `dropna` no cell is missing |
| FeatureRows.EngineeredComplete | src/feature_engineering.py:45-50 | an engineered table is non-empty and has no missing cell |
| FeatureRows.ShapeRowComplete | src/feature_engineering.py:17-45 | on gap-free input a row survives `dropna` iff it has all its lags and a next day |
| FeatureRows.ShapeKeptRows | src/feature_engineering.py:17-45 | on gap-free input the kept positions run from `lag_days` to the next-to-last row |
| FeatureRows.LayoutCount | src/feature_engineering.py:17-41 | the engineered table has (columns + targets) x (lag_days + 1) + 3 columns |
| FeatureRows.EngineeredOutcome | src/feature_engineering.py:45-50 | for conforming inputs the result is the incomplete rows dropped from the expanded table, in the layout of `ExpandedLayout`; the only error is that no row is left |
| FeatureRows.EngineeredResult | src/feature_engineering.py:45-50 | for conforming inputs the procedure gives `NoRowsLeft` iff no row of the expanded table is complete |
| FeatureRows.EngineeredFullInput | src/feature_engineering.py:17-50 | on gap-free input rows remain iff there are more than `lag_days` + 1 rows; they are the days from position `lag_days` to the next-to-last one |
| FeatureRows.EngineeredFailures | src/feature_engineering.py:7-50 | lists of different length, empty lists and an unavailable base give their errors; otherwise the only failure is that no row is left |
| DataSplitting.FeatureColumns | src/data_splitting.py:10-14 | a feature column is a table column that is neither a target nor a base column |
| DataSplitting.SplitColumns | src/data_splitting.py:10-17 | features and targets are disjoint; features keep the table order and targets the configured order; with all targets present, the present targets are the configured ones |
| DataSplitting.FeaturesPartitionColumns | src/data_splitting.py:10-14 | the feature columns and the excluded columns together form the table's columns |
| DataSplitting.PercentagesAdd | src/data_splitting.py:63-66 | the two percentages lie from 0 to 100 and add up to 100 |
| DataSplitting.SplitOutcome | src/data_splitting.py:19-54 | the split succeeds iff a target and a feature are present and 0 < test days < rows; no target, no feature, too few rows and a bad index give their errors |
| DataSplitting.SplitData | src/data_splitting.py:7-87 | a successful split has the feature columns and the present targets; the outcome is `SplitOutcome`, the rows `SplitPartition` |
| DataSplitting.SplitAt | src/data_splitting.py:46-66 | its two sides hold every row, and features and targets share the dates on each side; the sides are `SplitPartition` and `SplitChronological` |
| DataSplitting.Before | src/data_splitting.py:57-60 | positions of the rows dated before the split date, all within the table; their dates and order are `SplitPartition` |
| DataSplitting.From | src/data_splitting.py:57-60 | positions of the rows dated on or after the split date, all within the table; their dates and order are `SplitPartition` |
| DataSplitting.Percentage | src/data_splitting.py:65-66 | the share of a part in its whole lies from 0 to 100; the two shares add up to 100 by `PercentagesAdd` |
| DataSplitting.SplitDataOk | src/data_splitting.py:46-60 | a successful split cuts at the date in position rows - test days |
| DataSplitting.SplitPartition | src/data_splitting.py:30-60 | both feature tables have the feature columns and both target tables the target columns; each pair shares its dates; training dates come before the split date and test dates from it on; the two sides keep the table order and together have every row |
| DataSplitting.SplitChronological | src/data_splitting.py:46-60 | on ascending dates the training set is the first rows - test days rows and the test set the last test days rows |
| DataSplitting.SplitPercentages | src/data_splitting.py:63-66 | the percentages add up to 100, lie within 0 to 100, and on ascending dates are the shares of the training and test rows |
| Calendar.DaysInMonth | src/feature_engineering.py:39-40 | a month has 28 to 31 days |
| Calendar.Month | src/feature_engineering.py:39 | the month of a day lies from 1 to 12 |
| Calendar.DayOfYear | src/feature_engineering.py:40 | the day of the year lies from 1 to 366 |
| Calendar.Weekday | src/feature_engineering.py:41 | the weekday lies from 0 (Monday) to 6 |
| Calendar.WeekdayNext | src/feature_engineering.py:41 | the weekday of the next day is the next weekday, wrapping from Sunday to Monday |
| Calendar.DaysBeforeYear | src/feature_engineering.py:39-40 | the month lengths of a year add up to the length of that year |
| Calendar.MonthBounds | src/feature_engineering.py:39-40 | the month of a day is the one whose days before it are at most the day's offset in the year and whose days through it exceed it; the day of the year is that offset plus one |
| Calendar.NextDay | src/feature_engineering.py:39-40 | the next day's day of year is one more within a year and wraps back to 1 after the last day, starting the next year |
| Calendar.NextMonth | src/feature_engineering.py:39 | the next day has the same month, except after the last day of a month, where it has the next month, and after December 31st, where it has January |
| Calendar.KnownDates | src/feature_engineering.py:39-41 | 1970-01-01 is a Thursday, day 1 of January; 1970-03-01 is day 60; 1969-12-31 is a Wednesday, day 365 of December; 1971-01-01 is a Friday |
| UpdatePrediction.FetchWindowDays | src/update_prediction_data.py:24-26 | the fetch starts at midnight `lag_days + 5` days before the target day and ends at 23:59:59 of the day before it |
| UpdatePrediction.FetchWindow | src/update_prediction_data.py:24-26 | the window is non-empty exactly when `lag_days` is at least -4; its bounds are `FetchWindowDays` |
| UpdatePrediction.FillFillsAll | src/update_prediction_data.py:45-46 | filling every column unconditionally equals the conditional fill step |
| UpdatePrediction.CleanedMeans | src/update_prediction_data.py:45-51 | the cleaning gives the filled table when no gap is left, and no table otherwise, because a gap left by the fill empties the table under `dropna` |
| UpdatePrediction.Cleaned | src/update_prediction_data.py:45-51 | a cleaned table keeps the columns; when it exists is `CleanedMeans` |
| UpdatePrediction.FeaturesForDate | src/update_prediction_data.py:19-94 | there is one value per feature column; when features exist and which are `FeaturesOutcome` and `LastRowFeatures` |
| UpdatePrediction.LastRowFeatures | src/update_prediction_data.py:67-78 | the features come from the last row, in feature-column order; the date flag holds iff that row is the day before the target day |
| UpdatePrediction.LastRowMeaning | src/update_prediction_data.py:77-84 | the features exist iff every feature cell of the last row is present, as they always are in a complete table, and the values are those cells |
| UpdatePrediction.RowValues | src/update_prediction_data.py:78-84 | one value per feature column when they all exist; when they do is `LastRowMeaning` |
| UpdatePrediction.GetFeaturesForDate | src/update_prediction_data.py:19-94 | the feature procedure computes the specified features or their absence |
| UpdatePrediction.FeaturesOutcome | src/update_prediction_data.py:30-94 | features exist iff the collection succeeds, the fill leaves no gap and engineering succeeds; they are then the last engineered row's features |
| UpdatePrediction.FeaturesOfComplete | src/update_prediction_data.py:30-89 | on a gap-free collected table that engineering accepts, the features exist and are those of the last engineered row |
| UpdatePrediction.WindowLastRow | src/update_prediction_data.py:67-72 | when the engineered rows are positions `lag` to the next-to-last of the data, the features are dated the next-to-last data day; so with data up to the day before the target, the date warning fires |
| UpdatePrediction.TargetIndex | src/update_prediction_data.py:174-175 | the index of a target is -1 or a position below the number of targets |
| UpdatePrediction.PredictedValue | src/update_prediction_data.py:178-187 | a value comes from a position within the prediction row and is the cell there; when one exists is `ExtractedValue` |
| UpdatePrediction.ExtractedValue | src/update_prediction_data.py:174-187 | the index is -1 iff the target is not configured; a value is extracted iff the target is configured, its first index lies within the prediction row and that cell is not NaN; the value is then that cell |
| UpdatePrediction.ModelResult | src/update_prediction_data.py:158-196 | a temperature or wind value comes only with a configured target; the values are `ExtractedValue` |
| UpdatePrediction.Predictions | src/update_prediction_data.py:153-196 | the dictionary has at most one entry per model; which keys and outputs is `PredictionsLookup` |
| UpdatePrediction.PredictAll | src/update_prediction_data.py:153-196 | the model loop computes the specified map of outputs |
| UpdatePrediction.PredictionsLookup | src/update_prediction_data.py:153-196 | a model name has an output iff some model has that name, and the output comes from the last model with that name |
| UpdatePrediction.RecordFields | src/update_prediction_data.py:150-209 | the record's date is the feature date plus one; its four values are the rf and xgb outputs for temperature and wind |
| UpdatePrediction.MakeRecord | src/update_prediction_data.py:200-209 | without predictions every value of the record is null; the fields are `RecordFields` |
| UpdatePrediction.Field | src/update_prediction_data.py:204-207 | `.get(key, {}).get(field)` is null for a model key without an entry |
| UpdatePrediction.Forecast | src/update_prediction_data.py:97-209 | a record exists iff the features do, dated the day after the features; its values are `ForecastFields` |
| UpdatePrediction.RunPrediction | src/update_prediction_data.py:97-209 | the daily run computes the specified record or the stop |
| UpdatePrediction.ForecastFields | src/update_prediction_data.py:120-209 | a record exists iff features exist; its date is the feature date plus one, and each value is the model's prediction for that target, absent when the model fails or the target has no value |
| Tables.ColumnOfFirst | src/feature_engineering.py:19 | `df[name]` reads the column at the first position carrying that name, the only one when names are distinct |
| Tables.ColumnOf | src/feature_engineering.py:19 | `df[name]` has one cell per row; which column it reads is `ColumnOfFirst` |
| Tables.SetColumn | src/feature_engineering.py:19-41 | assigning `df[name]` overwrites the existing column or appends a new one; every other column keeps its cells |
| Tables.NoMissing | src/data_preprocessing.py:13 | the table has no missing cell, the negation of `isnull().sum().sum() > 0`; `DropNaComplete` and `EngineeredComplete` establish it |
| Tables.IsEmpty | src/feature_engineering.py:49 | `df.empty`: no rows or no columns |
| Tables.RowComplete | src/feature_engineering.py:45 | the row has a value in every column, the test `dropna` applies to each row; `DropNaRows` keeps exactly those rows |
| Tables.SelectRows | src/data_splitting.py:57-60 | selecting rows keeps the columns and takes the dates and cells of the chosen positions |
| Tables.Project | src/data_collection.py:40 | selecting columns keeps the index and takes the named columns in the given order |
| Tables.Within | src/data_collection.py:24 | the kept elements are exactly those also in the other list, in order |
| Tables.Without | src/data_collection.py:27 | the kept elements are exactly those not in the other list, in order |

## Left out

- The Meteostat fetches (`Daily(...).fetch()`, `Stations().fetch()`) are not modelled. The tables they return are parameters, and a failed inventory load is the `None` inventory.
- The great-circle distance of src/geo_utils.py is a parameter `haversine`. Only the distances it returns matter to the weighting.
- pandas `quantile` with its linear interpolation is a parameter `quantile`. Column clipping is proved for any quartiles it returns.
- Floating point is modelled as exact reals. No NaN arises from arithmetic; NaN appears only as a missing cell.
- The stored models are not modelled. `load_model` and the models' `predict` are parameters: a prediction function gives one row of outputs, or `None` where it raises. A failed model load ends the program before anything modelled happens.
- `date.today()` and `datetime.now().isoformat()` are parameters: the target day and the time-stamp string.
- The JSON file is not modelled: `json.dump`, its `default` rounding (it never applies to floats) and `strftime`. The model ends with the forecast record.
- Console output, progress bars, warnings and the demonstration prints of `engineer_features` are not modelled. The warnings that are data (the missing columns, the outlier counts, the date flag, the missing-day counts) are part of the results.
- `preprocess_data` keeps only numeric columns for clipping (`select_dtypes`). Every column is numeric in the model.
- Tables are taken to have distinct column names (`NoDup`, required by `ClipOutliers` and `PreprocessData`). With a repeated name pandas reads and assigns every column of that name at once, and `preprocess_data` raises at src/data_preprocessing.py:32; the model does not capture that behaviour or that error.
- Station tables are taken as non-empty, with ascending dates and distinct columns (`ValidStations`). The stations are a sequence, where the program has a dictionary keyed by station id: the model also admits a repeated id, which no run of the program produces, and every property is proved for that wider input too. With an empty station table `date_range` would get no start date.
- The input tables of `preprocess_data` and `engineer_features` are never modified (`copy()`), and in the model this holds by value semantics. The in-place `ffill`/`bfill`/`dropna` of the daily update are modelled on values.
- The gap-free behaviour of the daily update is stated as lemmas that compose, not as one lemma: `DataCollection.CollectedComplete`, `FeatureRows.EngineeredFullInput`, `UpdatePrediction.FeaturesOfComplete` and `UpdatePrediction.WindowLastRow`.
- FeatureEngineering.ExpandedLayout and the other `Expanded`/`Targeted` lemmas cover only conforming inputs (`Conforming`): distinct original columns and targets, and no generated name clashing with another. Other inputs follow `SetColumn`'s overwrite semantics through `Engineered`, but their column layout is not characterized.
- The rest of the repository is not part of this model: model training, evaluation, ARIMA/SARIMA, plots, menus and the web front end.
