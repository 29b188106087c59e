# Outlier handler, modelled in Dafny

This project models `OutlierHandler`, a small pandas-based tool. For one column of a table it splits the rows into three
groups: the rows whose value is missing, the outliers and the non-outliers. For a whole table it builds a report with,
for each numeric column, the three counts and their percentages of the row count. A warning is printed when the counts
do not add up.

The files:

- `dataframe.dfy` covers what the handler needs from a DataFrame:
  - rows carrying an index label and cells looked up by column name, where a missing cell (NaN/None) is `None`;
  - boolean masks;
  - `df[mask]` as the filter `Where`, which keeps the selected rows in their original order, every copy of each.
- `statistics.dfy` defines the statistics behind the two rules, in exact reals:
  - sum, mean and population variance;
  - an ascending sort, and the quartiles `quantile(0.25)` and `quantile(0.75)` by linear interpolation (ranks are
    counted in quarters).
- `outlier_rules.dfy` defines the closed enum of rules, the interquartile rule (Tukey's fences at 1.5 IQR) and the
  z-score rule (|z| > 3). The z-score rule is stated without the square root: (v − mean)² > 9 · variance.
- `outlier_handler.dfy` holds:
  - the `OutlierHandler` class: it holds the rule chosen at construction, and its getters are functions;
  - the partition theorem;
  - `percentage`;
  - `get_outliers_information` as a method with a loop that builds a `map<string, ColumnReport>` and the list of
    columns it warns about.
- `scenarios.dfy` works through small tables:
  - the interquartile rule on `[10, 12, 11, 13, NaN, 200]`;
  - the z-score rule on any table of at most ten rows;
  - a table whose index labels repeat, which trips the warning.

The central result is `OutlierHandler.Partition`. When the index labels are distinct, the missing, outlier and
non-outlier rows of a column:

- are pairwise disjoint;
- together hold every row;
- have counts that add up to the row count.

So the report's mismatch warning never fires, and the three percentages add up to 100. The distinct-labels assumption
is needed because `__filter_dataframe_out` removes rows by index label (`isin`): with a repeated label, an outlier also
takes away the non-outlier that shares its label (`Scenarios.RepeatedLabelsTripTheWarning`).

Proved about the z-score rule, in exact arithmetic: no population z-score exceeds √(n − 1). So the rule never flags
anything in a column of at most ten present values.

Consequences of the code that the model keeps:

- `percentage(part, 0)` raises `ZeroDivisionError` (base_data_science_utils.py:12). So the report of a table without
  rows fails at its first selected column; it does not return a partial report.
- On the column `[1, 2, 3, 4, 5, 100]`, the z-score rule does not flag 100. Its population z-score is at most √5, which
  is below 3.
- A column with zero variance gets NaN z-scores from `scipy`, no comparison with NaN holds, and so nothing is flagged.
  The squared form of the rule flags nothing there either (`OutlierRules.ZScoreFlagsNothingWithoutSpread`).

## Model

| member | source | states |
|---|---|---|
| DataFrame.Holds | outlier_handler.py:28-54 | a row passes a comparison mask (`<`, `>`, `\|z\| >`) only when its cell is present: a comparison never holds of a missing value |
| DataFrame.Where | outlier_handler.py:54 | `df[mask]` keeps at most the rows it is given, and a row is kept exactly when it is one of them and the mask holds for it |
| DataFrame.WhereConcat | outlier_handler.py:54 | selection keeps the original row order: filtering a concatenation is the concatenation of the filtered parts |
| DataFrame.WhereSelects | outlier_handler.py:54 | `df[mask]` is an ordered selection: a subsequence of the rows, keeping every copy of each row the mask holds of |
| DataFrame.WhereComplement | outlier_handler.py:54-61 | a mask and its negation (`isna` / `dropna`) split the rows: their sizes add up to the row count |
| DataFrame.WhereKeepsUniqueIds | outlier_handler.py:61 | filtering never introduces a repeated index label |
| DataFrame.ExcludeSelected | outlier_handler.py:47 | with distinct labels, removing by label the rows a mask selects leaves exactly the rows the mask rejects, in order |
| Statistics.Mean | outlier_handler.py:34 | the mean `zscore` subtracts times the count is the sum of the values |
| Statistics.Variance | outlier_handler.py:34 | the population variance `zscore` divides by is never negative |
| Statistics.DeviationsFromMean | outlier_handler.py:34 | deviations from the mean sum to zero |
| Statistics.DeviationBound | outlier_handler.py:34 | no squared deviation exceeds (n − 1) times the population variance, so no absolute z-score exceeds √(n − 1) |
| Statistics.SortAscending | outlier_handler.py:22-23 | the values `quantile` ranks are sorted ascending and are a permutation of the column |
| Statistics.RankValueBetween | outlier_handler.py:22-23 | an interpolated quantile lies between the two sorted values around its rank |
| Statistics.RankValueMonotone | outlier_handler.py:22-23 | interpolated quantiles grow with the rank |
| Statistics.LowerQuartile | outlier_handler.py:22 | `quantile(0.25)` lies between the sorted values at and just after rank (n − 1)/4, and equals the value at that rank when the rank is whole |
| Statistics.UpperQuartile | outlier_handler.py:23 | `quantile(0.75)` lies between the sorted values at and just after rank 3(n − 1)/4, and equals the value at that rank when the rank is whole |
| Statistics.QuartilesOrdered | outlier_handler.py:22-24 | Q1 ≤ Q3, so the interquartile range is never negative |
| Statistics.QuartilesWithinRange | outlier_handler.py:22-23 | Q1 and Q3 each lie within the range of the values: some value is at most it and some value is at least it |
| OutlierRules.Values | outlier_handler.py:22-34 | `df[column]` of rows whose cells are all present: one value per row, in row order, each the row's cell |
| OutlierRules.OutsideFences | outlier_handler.py:27-28 | the fence test with threshold 1.5; when Q1 ≤ Q3 a value outside the fences lies strictly outside [Q1, Q3] |
| OutlierRules.BeyondThreeSigma | outlier_handler.py:37-38 | the `z > 3` test with threshold 3; with a non-negative variance a value beyond it differs from the mean |
| OutlierRules.FenceMask | outlier_handler.py:27-28 | the mask holds of a row exactly when its value is present and strictly below Q1 − 1.5·IQR or strictly above Q3 + 1.5·IQR |
| OutlierRules.ZScoreMask | outlier_handler.py:34-38 | the mask holds of a row exactly when its value is present and lies more than three standard deviations from the mean |
| OutlierRules.ZScoreRuleIsStandardScore | outlier_handler.py:34-38 | the squared form of the rule is exactly \|v − mean\| / sd > 3, a strict inequality |
| OutlierRules.InterquartileOutliers | outlier_handler.py:20-29 | with no rows nothing is flagged; otherwise a row is flagged exactly when it lies outside the fences of the column's own quartiles; the flagged rows keep their order and every copy |
| OutlierRules.ZScoreOutliers | outlier_handler.py:32-40 | with no rows nothing is flagged; otherwise a row is flagged exactly when its value is beyond three population standard deviations of the column's mean; the flagged rows keep their order and every copy |
| OutlierRules.DetectOutliers | outlier_handler.py:15-18 | the dispatch table: `Interquartile` applies the interquartile rule and `ZScore` the z-score rule |
| OutlierRules.DetectOutliersSelects | outlier_handler.py:28-38 | both rules return rows of their input, as one mask filter over it |
| OutlierRules.InterquartileOutliersOutsideQuartiles | outlier_handler.py:22-28 | every interquartile outlier lies strictly outside [Q1, Q3] |
| OutlierRules.SmallColumnWithinThreeSigma | outlier_handler.py:34-38 | in a column of at most ten values no value lies beyond three standard deviations |
| OutlierRules.ZScoreNeedsMoreThanTenRows | outlier_handler.py:32-40 | the z-score rule flags nothing among at most ten present values |
| OutlierRules.ZScoreFlagsNothingWithoutSpread | outlier_handler.py:34-38 | a column with zero variance has no z-score outliers |
| OutlierHandling.Percentage | base_data_science_utils.py:11-12 | a zero whole raises `ZeroDivisionError`; otherwise the result times the whole is 100 times the part, and a part of the whole gives 0 to 100 |
| OutlierHandling.ShareOfWhole | outlier_handler.py:99-106 | shares of three parts of a positive whole, each scaled to 100, add up to 100 |
| OutlierHandling.PercentagesAddUp | outlier_handler.py:99-106 | three parts that make up the whole have percentages that add up to 100 |
| OutlierHandling.CollectKeys | outlier_handler.py:85-99 | the loop's map has a key exactly for each selected column met so far |
| OutlierHandling.CollectEntry | outlier_handler.py:99-110 | each key of the loop's map holds the entry computed for that column |
| OutlierHandling.FlaggedMembers | outlier_handler.py:96-97 | a column is warned about exactly when it is selected and its count test fails |
| OutlierHandling.OutlierHandler.constructor | outlier_handler.py:13-18 | the handler keeps the rule it is given; the default is `ZScore` |
| OutlierHandling.OutlierHandler.GetMissing | outlier_handler.py:50-54 | `KeyError` for an unknown column; otherwise exactly the rows of the table whose value is missing, in table order and with every copy |
| OutlierHandling.OutlierHandler.GetNonMissing | outlier_handler.py:57-61 | `KeyError` for an unknown column; otherwise exactly the rows whose value is present, in table order and with every copy |
| OutlierHandling.OutlierHandler.GetOutliers | outlier_handler.py:64-70 | `KeyError` for an unknown column; otherwise only non-missing rows, chosen by the handler's rule applied to the non-missing rows, in their order and with every copy |
| OutlierHandling.OutlierHandler.FilterOut | outlier_handler.py:43-47 | exactly the rows that share no index label with a row of the filter, in their order and with every copy |
| OutlierHandling.OutlierHandler.GetNonOutliers | outlier_handler.py:73-79 | `KeyError` for an unknown column; otherwise exactly the non-missing rows sharing no label with an outlier, none of them missing or an outlier, in the order of the non-missing rows and with every copy |
| OutlierHandling.OutlierHandler.Mismatch | outlier_handler.py:96 | the count test: it compares the three counts with the row count, and a table without rows never fails it |
| OutlierHandling.OutlierHandler.Partition | outlier_handler.py:50-79 | with distinct labels the three groups are pairwise disjoint, together hold every row, and their sizes add up to the row count |
| OutlierHandling.OutlierHandler.Report | outlier_handler.py:92-110 | an entry's counts are the sizes of the three groups, its percentages are those counts over the row count, and it carries the three sub-tables exactly when asked to |
| OutlierHandling.OutlierHandler.ReportAddsUp | outlier_handler.py:92-106 | with distinct labels an entry's counts add up to the row count and its percentages to 100 |
| OutlierHandling.OutlierHandler.NoMismatchWithUniqueIds | outlier_handler.py:96-97 | with distinct labels the count test never fails |
| OutlierHandling.OutlierHandler.NoWarningsWithUniqueIds | outlier_handler.py:85-97 | with distinct labels the report warns about no column |
| OutlierHandling.OutlierHandler.NoWarningsWithoutRows | outlier_handler.py:83-97 | a table without rows is warned about for no column |
| OutlierHandling.OutlierHandler.ColumnInformation | outlier_handler.py:87-110 | one loop step: the warning flag is the count test, the step fails with `ZeroDivisionError` exactly when the table has no rows, and otherwise it gives the column's report entry |
| OutlierHandling.OutlierHandler.GetOutliersInformation | outlier_handler.py:82-114 | fails with `ZeroDivisionError` exactly when the table has no rows and some column is selected; otherwise one entry per selected numeric column; warns about exactly the columns whose counts miss; with distinct labels, no warnings and every entry adds up to the row count and to 100 % |
| OutlierHandling.OutlierHandler.EveryEntryAddsUp | outlier_handler.py:92-106 | with distinct labels every entry of the report has counts that add up to the row count and percentages that add up to 100 |
| OutlierHandling.OutlierHandler.ReportContents | outlier_handler.py:85-110 | the report has an entry exactly for each numeric column the selection admits, each one that column's entry, and with distinct labels each adds up |
| OutlierHandling.OutlierHandler.WarningContents | outlier_handler.py:96-97 | a column is warned about exactly when it is reported and its three counts miss the row count |
| Scenarios.SpreadQuartiles | outlier_handler.py:22-23 | the values 10, 12, 11, 13, 200 have Q1 = 11 and Q3 = 13 |
| Scenarios.InterquartileFlagsTheFarValue | outlier_handler.py:50-79 | on `[10, 12, 11, 13, NaN, 200]` with the interquartile rule: the NaN row is missing, 200 is the one outlier, the other four rows are the non-outliers |
| Scenarios.ZScoreFlagsNothingInSmallTables | outlier_handler.py:64-70 | the z-score handler finds no outliers in a table of at most ten rows |
| Scenarios.RepeatedQuartiles | outlier_handler.py:22-23 | the values 1, 1, 1, 1, 100 have Q1 = Q3 = 1 |
| Scenarios.RepeatedLabelsTripTheWarning | outlier_handler.py:43-97 | on `[1, 1, 1, 1, 100]` whose last two rows share a label: one outlier, three non-outliers, counts that miss the row count, and a warning for the column |
| Scenarios.DefaultHandler | outlier_handler.py:13-14 | a handler built without arguments uses the z-score rule |

## Left out

- The console output is left out: the warning `print` (outlier_handler.py:97) and `__log_column_information` with its
  `log_information` switch (outlier_handler.py:112-124). The warning becomes the returned list `warnings`, in column
  order.
- OutlierHandling.Percentage: does not round to four digits, because the model works in exact reals. So the
  percentages add up to exactly 100, where the code's rounded floats only come within rounding of it.
- Floating point is left out: all statistics are exact reals, and there are no NaN or infinity values beyond missing
  cells. With ten values the z-score bound √9 = 3 is reached exactly (nine 0s and one 1), so there float rounding
  decides whether `z > 3` holds; the model, in exact arithmetic, flags nothing.
- OutlierHandling.OutlierHandler: `calculation_method` is a public attribute that `get_outliers` re-reads on each call
  (outlier_handler.py:14, 70), so Python code may reassign it. The model's `calculationMethod` is a `const`, so it
  does not capture such a reassignment.
- The report is a `map<string, ColumnReport>`, which has no order. The dict of outlier_handler.py:99 keeps the column
  order, but only the logging, which is left out, iterates over it.
- `sp.stats.zscore` is modelled through the population variance without its square root. `quantile` is modelled as
  linear interpolation over an insertion sort, which is pandas' default.
- `is_numeric_dtype` is a flag on each column. Columns holding anything but numbers or missing values are not modelled.
- Index labels are integers. pandas allows any hashable label.
- A table is assumed to have distinct column names. With repeated names `df[column]` returns a frame in pandas, which
  is not modelled.
- `.copy()` (outlier_handler.py:29, 40) has no counterpart: sequences are values.
- The unused `non_missing_values_df` of outlier_handler.py:88 is not computed. It has no effect on the result.
- The imports of `base_data_science_utils.py` (plotting libraries) are not modelled.
