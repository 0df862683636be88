# Coarse classing and cleaning of a loan table, modelled in Dafny

The modelled code prepares a table of consumer loans for a credit-scoring model.

- `preprocess.py` cleans the table:
  - `drop_columns` removes columns by substring pattern;
  - `emp_length_to_numeric` turns employment-length labels into numbers;
  - `vintage_selection_for_modeling` keeps only the loans old enough to have an outcome;
  - `good_bad_definition` turns a loan status into a 0/1 good/bad label.
- `feature_engineering.py` coarse-classes the predictors:
  - `coarse_class_discrete_variables` merges groups of one-hot dummy columns into one column each and deletes the dummies;
  - `coarse_class_continuous_variables` replaces each of twelve numeric columns by a set of 0/1 bin columns.

The project has four modules:

- `Frame` (`frame.dfy`) is the table.
  - A cell is missing, a number (an exact `real`) or a string.
  - A `Table` value is the ordered list of column names, a map from name to column, and the row count.
  - The mutable `DataFrame` class holds the same three fields.
  - The two updates every procedure is built from are given both as functions on `Table` and as methods of `DataFrame`: column assignment `df[name] = col` and all-or-nothing `df.drop(labels, axis=1, inplace=True)`.
- `CoarseDiscrete` (`coarse_discrete.dfy`) models the group merges.
- `CoarseContinuous` (`coarse_continuous.dfy`) models the bin columns.
- `Preprocess` (`preprocess.dfy`) models the four cleaning helpers.

Procedures that update the frame in place are methods on `DataFrame`. Each method's postcondition equates the final frame and the outcome (`Pass`, or `Fail` with the Python exception) with a specification function of the input table. A step that raises leaves the effects of the steps before it in place, as pandas does.

The pure helpers are functions: `generate_col_names_for_deletion`, `good_bad_definition` and `vintage_selection_for_modeling`. The lemmas state what the source promises about these specification functions:

- partitions into bins;
- sums of one-hot dummies;
- which columns survive;
- parse round trips;
- row filters.

## Model

| member | source | states |
|---|---|---|
| Frame.WithColumn | feature_engineering.py:35 | `df[name] = col` stores `col` under `name`, replacing an existing column in place or appending a new name; all other columns, the order of the others and the row count stay |
| Frame.FirstMissing | feature_engineering.py:37 | the first label, in list order, that is not a column: every label before it is a column; none exactly when every label is a column |
| Frame.Without | feature_engineering.py:37 | the names with the labels removed: a name remains exactly when it is not a label; distinct names stay distinct |
| Frame.WithoutColumns | feature_engineering.py:37 | `df.drop(labels, axis=1)` succeeds exactly when every label is a column, and then removes exactly those columns, keeping the order and data of the others; otherwise KeyError naming the first missing label in list order |
| Frame.DataFrame.Get | feature_engineering.py:35 | `df[name]` returns the column, or KeyError(name) exactly when there is none |
| Frame.DataFrame.Assign | feature_engineering.py:35 | the in-place assignment leaves the frame equal to WithColumn of the old frame |
| Frame.DataFrame.Drop | feature_engineering.py:37 | the in-place drop leaves the new table on success and the old one on KeyError |
| CoarseDiscrete.GenerateColNamesForDeletion | feature_engineering.py:20-23 | one name per input, in input order, each `prefix + prefix_sep + col`; the separator defaults to `_` |
| CoarseDiscrete.AddCells | feature_engineering.py:35 | `a + b` on two cells fails exactly when a string meets a number, and then with TypeError; a missing value on either side gives a missing value |
| CoarseDiscrete.SumCells | feature_engineering.py:35 | a left-to-right sum of cells fails only with TypeError, and never on cells without strings |
| CoarseDiscrete.AddColumns | feature_engineering.py:35 | element-wise `a + b` succeeds exactly when every row adds, and then row `i` is the sum of row `i` |
| CoarseDiscrete.RowOf | feature_engineering.py:35 | (definition) the cells of one row in the listed columns, in order |
| CoarseDiscrete.SumColumns | feature_engineering.py:35 | `df[d0] + ... + df[dk]`, each column looked up as it is added: on success every listed column is present and the result has one cell per row |
| CoarseDiscrete.MergeStep | feature_engineering.py:35-37 | one merge, the assignment of the sum and then the drop of the dummies, keeps the table well formed (its effect: MergeStepEffect) |
| CoarseDiscrete.RunMerges | feature_engineering.py:35-101 | the merges in order, stopping at the first exception, keep the table well formed |
| CoarseDiscrete.MergeGroup | feature_engineering.py:35-37 | the method's final frame and outcome are MergeStep of the old frame |
| CoarseDiscrete.MergeAll | feature_engineering.py:35-101 | the loop's final frame and outcome are RunMerges of the old frame |
| CoarseDiscrete.CoarseClassDiscreteVariables | feature_engineering.py:25-103 | the procedure equals RunMerges over the seventeen configured merges |
| CoarseDiscrete.RunMergesStops | feature_engineering.py:35-101 | after a failed step the rest change nothing |
| CoarseDiscrete.SumColumnsRows | feature_engineering.py:35 | row `i` of a successful sum is the left-to-right sum of row `i` of the sources |
| CoarseDiscrete.SumColumnsDefined | feature_engineering.py:35 | with all sources present, the sum fails exactly when some row cannot be added, and then with TypeError |
| CoarseDiscrete.SumColumnsMissing | feature_engineering.py:35 | an absent source makes the sum fail; it is never skipped |
| CoarseDiscrete.FirstSummandMissing | feature_engineering.py:35 | an absent first source gives KeyError naming it |
| CoarseDiscrete.NumericSumColumns | feature_engineering.py:35 | on columns without strings the only error is the KeyError of the first absent source |
| CoarseDiscrete.SumColumnsFrame | feature_engineering.py:35 | the sum depends only on the listed columns |
| CoarseDiscrete.SumOfIndicators | feature_engineering.py:35 | the sum of 0/1 cells is the number of ones, and that number is 0 exactly when no cell is 1 |
| CoarseDiscrete.ExclusiveIndicatorSum | feature_engineering.py:35 | mutually exclusive indicators sum to an indicator that is 1 exactly when one of them is |
| CoarseDiscrete.MergedIndicator | feature_engineering.py:35 | where at most one source is 1, the merged cell is their logical OR |
| CoarseDiscrete.MergeStepEffect | feature_engineering.py:35-37 | a merge succeeds exactly when the sum does; it adds the merged column, removes exactly the dummies and keeps all else; a failure leaves the frame unchanged |
| CoarseDiscrete.MergeNotRepeatable | feature_engineering.py:35-37 | a second application of the same merge raises KeyError for its first dummy |
| CoarseDiscrete.RunMergesOrigin | feature_engineering.py:35-101 | after a successful run every column is a merged column or an unchanged input column; the row count is kept |
| CoarseDiscrete.RunMergesDummiesGone | feature_engineering.py:35-101 | after a successful run no dummy of any merge remains, provided no merge writes a column that is a dummy of a merge |
| CoarseDiscrete.RunMergesUntouched | feature_engineering.py:35-101 | columns no merge writes or deletes survive unchanged |
| CoarseDiscrete.RunMergesTargets | feature_engineering.py:35-101 | every merged column is present and holds the sum of its dummies in the input frame |
| CoarseDiscrete.SumAfterMerges | feature_engineering.py:35-101 | merges that neither write nor delete a dummy of a later merge leave that merge's sum as it is on the input frame |
| CoarseDiscrete.RunMergesOutcome | feature_engineering.py:35-101 | independent merges with disjoint dummies run without raising exactly when every merge's sum can be computed on the input frame |
| CoarseDiscrete.AddrStateNaming | feature_engineering.py:35-77 | each `addr_state` merge writes `addr_state:` + the state codes joined by `_`, and its dummies use `_` as separator |
| CoarseDiscrete.HomeOwnershipNaming | feature_engineering.py:79-85 | the same naming for `home_ownership` |
| CoarseDiscrete.SubGradeNaming | feature_engineering.py:87-89 | the same naming for `sub_grade` |
| CoarseDiscrete.PurposeNaming | feature_engineering.py:91-101 | the `purpose` merges write abbreviated names and delete `purpose:<value>` dummies |
| CoarseDiscrete.SummedColumnsAreDummies | feature_engineering.py:35-101 | the columns each merge adds up, as the source spells them out, are exactly the dummies `generate_col_names_for_deletion` names for it and the source drops, in the same order |
| CoarseDiscrete.TargetNotDummy | feature_engineering.py:35-101 | when a merged name cannot be a dummy name of another merge |
| CoarseDiscrete.ShapedNotDummy | feature_engineering.py:35-101 | a configured merged column is not a dummy of a configured merge |
| CoarseDiscrete.AllShaped | feature_engineering.py:35-101 | every configured merge is about one of the four variables, writes `variable:...`, and uses `:` as dummy separator for `purpose` and `_` otherwise; no `purpose` merged suffix is a `purpose` value |
| CoarseDiscrete.DiscreteTargetsNotDummies | feature_engineering.py:35-101 | no configured merged column is a dummy of any configured merge |
| CoarseDiscrete.DiscreteTargetsDistinct | feature_engineering.py:35-101 | no two configured merges write the same column |
| CoarseDiscrete.DiscreteMergesIndependent | feature_engineering.py:35-101 | the configured merges do not interfere |
| CoarseDiscrete.DummiesApart | feature_engineering.py:35-101 | two merges of different variables, or of one variable with no common value, share no dummy |
| CoarseDiscrete.AddrStateApart | feature_engineering.py:35-77 | no state code is listed in two `addr_state` merges |
| CoarseDiscrete.OtherFamiliesApart | feature_engineering.py:79-101 | no value is listed in two `home_ownership` merges or in two `purpose` merges |
| CoarseDiscrete.PrefixAt | feature_engineering.py:35-101 | the variable of the merge at each position: eleven `addr_state`, two `home_ownership`, one `sub_grade`, three `purpose` |
| CoarseDiscrete.SameVariableApart | feature_engineering.py:35-101 | two configured merges of the same variable list disjoint values |
| CoarseDiscrete.DiscreteDummiesDisjoint | feature_engineering.py:35-101 | no column is a dummy of two configured merges |
| CoarseDiscrete.OneHotSum | feature_engineering.py:4-17 | the sum of the one-hot dummies `get_dummies` produces is 1 exactly when one of them is |
| CoarseDiscrete.RunMergesIndicators | feature_engineering.py:35-101 | on one-hot input every merged column is again an indicator, 1 exactly when one of its dummies was |
| CoarseDiscrete.CoarseClassDiscreteEffect | feature_engineering.py:25-103 | does not raise exactly when the sum of every merge can be computed on the input frame; on success: each merged column holds the row-wise sum of its dummies, all dummies are gone, all other columns are unchanged input columns, rows kept; on one-hot input each merged column is an indicator |
| CoarseDiscrete.CoarseClassDiscreteFirstFailure | feature_engineering.py:35 | missing first dummies raise KeyError at once and leave the frame unchanged |
| CoarseContinuous.Trunc | feature_engineering.py:142 | `int(m)` truncates toward zero: within 1 of `m`, on the side of 0 |
| CoarseContinuous.CellKinds | feature_engineering.py:107-223 | a column holds a string / a number exactly when some cell is one |
| CoarseContinuous.MaxNum | feature_engineering.py:142 | (definition) `col.max()` skipping missing values; its properties are `MaxNumIsMaximum` |
| CoarseContinuous.MaxNumIsMaximum | feature_engineering.py:142 | `col.max()` skipping NaN is a number of the column, at least every other, and exists exactly when some cell is a number |
| CoarseContinuous.Top | feature_engineering.py:142 | (definition) `int(col.max())` with its TypeError and ValueError; its properties are `TopIsTruncatedMaximum` |
| CoarseContinuous.TopIsTruncatedMaximum | feature_engineering.py:142 | `int(col.max())` succeeds exactly on a string-free column with a number; TypeError with a string, ValueError without a number; it truncates a cell's value and no cell truncates above it |
| CoarseContinuous.Holds | feature_engineering.py:119-220 | (definition) whether one cell passes one bin test: a missing value passes only `isnull`, a string passes nothing, `isin` and `range` tests take integral numbers only |
| CoarseContinuous.Indicators | feature_engineering.py:119 | (definition) `np.where(test, 1, 0)`: one 0/1 cell per row, 1 exactly when the row's cell passes |
| CoarseContinuous.Evaluate | feature_engineering.py:129 | (definition) the indicator column of a test, or the exception the test raises; its properties are `EvaluateMeaning` |
| CoarseContinuous.EvaluateMeaning | feature_engineering.py:129 | an ordered comparison raises TypeError on a string column, the `range(.., int(max))` test raises what `int(max)` raises; otherwise the indicator column |
| CoarseContinuous.BinStep | feature_engineering.py:119 | one bin line keeps the table well formed (its effect: BinStepEffect) |
| CoarseContinuous.RunBins | feature_engineering.py:119-124 | the bin lines of a variable in order, stopping at the first exception, keep the table well formed |
| CoarseContinuous.BinVariable | feature_engineering.py:119-125 | the bin lines, then the drop of the raw column, keep the table well formed |
| CoarseContinuous.RunBinnings | feature_engineering.py:119-221 | the blocks in order, stopping at the first exception, keep the table well formed |
| CoarseContinuous.SelectedMeaning | feature_engineering.py:119-221 | a row sets exactly the bins whose test its cell passes, in bin order |
| CoarseContinuous.SelectedOnly | feature_engineering.py:119-221 | when exactly one bin passes, the row sets that bin alone |
| CoarseContinuous.SelectedNone | feature_engineering.py:119-221 | when no bin passes, the row sets none |
| CoarseContinuous.LadderSelects | feature_engineering.py:129-133 | on a `<= t0`, `(t_i, t_i+1]`, `> t_n` ladder every number sets exactly one bin, the lower one at a threshold |
| CoarseContinuous.NoBinForNullOrText | feature_engineering.py:119-221 | a missing value sets no bin of a variable without a Missing bin; a string sets none |
| CoarseContinuous.EmpLengthBins | feature_engineering.py:119-124 | 0..10 each set exactly one `emp_length` bin; other values and a missing one set none |
| CoarseContinuous.IntRateBins | feature_engineering.py:129-133 | every rate sets exactly one bin; 9.548 falls in the bin labelled `<9.548` |
| CoarseContinuous.AnnualIncLadder | feature_engineering.py:179-190 | the `annual_inc` bins are a ladder over their thresholds |
| CoarseContinuous.DtiLadder | feature_engineering.py:201-210 | the `dti` bins are a ladder over their thresholds |
| CoarseContinuous.EarliestCrLineBins | feature_engineering.py:137-142 | whole numbers 0..352 set exactly one bin, 140 landing in `141-164`; from 353 only values below `int(max)` set the last bin; fractions set none |
| CoarseContinuous.EarliestCrLineMaximum | feature_engineering.py:142 | the column maximum, a whole number of at least 353, sets no bin |
| CoarseContinuous.Delinq2yrsBins | feature_engineering.py:145-147 | 0 sets `:0`, 1..3 set `:1-3`, 9 and more set `:>=4`; 4..8 set none |
| CoarseContinuous.InqLast6mthsBins | feature_engineering.py:150-153 | each whole number of at least 0 sets exactly one bin |
| CoarseContinuous.OpenAccBins | feature_engineering.py:156-163 | each whole number of at least 0 sets exactly one bin |
| CoarseContinuous.PubRecBins | feature_engineering.py:168-170 | each whole number of at least 0 sets exactly one bin |
| CoarseContinuous.TotalAccBins | feature_engineering.py:173-175 | each whole number sets exactly one bin |
| CoarseContinuous.AnnualIncBins | feature_engineering.py:179-190 | every income sets exactly one bin; 20000 falls in `<20K` |
| CoarseContinuous.DtiBins | feature_engineering.py:201-210 | every ratio sets exactly one bin, the lower one at a threshold |
| CoarseContinuous.LastDelinqBins | feature_engineering.py:193-197 | a missing value sets only `Missing`; a whole number of at least 0 sets exactly one range bin and never `Missing` |
| CoarseContinuous.LastRecordBins | feature_engineering.py:214-220 | the same for `mths_since_last_record` |
| CoarseContinuous.AddBinColumn | feature_engineering.py:119 | the method's final frame and outcome are BinStep of the old frame |
| CoarseContinuous.CoarseClassVariable | feature_engineering.py:119-125 | the method's final frame and outcome are BinVariable of the old frame |
| CoarseContinuous.CoarseClassAll | feature_engineering.py:119-221 | the loop's final frame and outcome are RunBinnings of the old frame |
| CoarseContinuous.CoarseClassContinuousVariables | feature_engineering.py:107-223 | the procedure equals RunBinnings over the twelve configured blocks |
| CoarseContinuous.RunBinsStops | feature_engineering.py:119-124 | after a failed bin line the rest change nothing |
| CoarseContinuous.RunBinningsStops | feature_engineering.py:119-221 | after a failed block the rest change nothing |
| CoarseContinuous.BinNameInjective | feature_engineering.py:119-124 | different suffixes give different bin column names |
| CoarseContinuous.BinStepEffect | feature_engineering.py:119 | a bin line raises KeyError or the test's error and leaves the frame, or writes the indicator column |
| CoarseContinuous.RunBinsKeepsRaw | feature_engineering.py:119-124 | bin lines keep the row count and the raw column, whatever the outcome |
| CoarseContinuous.RunBinsOutcome | feature_engineering.py:119-124 | the bin lines pass exactly when the raw column is there and no test raises; a missing raw column raises KeyError |
| CoarseContinuous.RunBinsFrame | feature_engineering.py:119-124 | every column afterwards is a bin column or an unchanged input column |
| CoarseContinuous.RunBinsWritten | feature_engineering.py:119-124 | every bin has its indicator column computed from the raw column |
| CoarseContinuous.BinVariableEffect | feature_engineering.py:119-125 | a block fails with KeyError without the raw column and passes exactly when no test raises; then the raw column is gone, every bin is written, all else is kept |
| CoarseContinuous.BinNamesApart | feature_engineering.py:119-221 | colon-free variables with a different name or a different suffix give different bin column names |
| CoarseContinuous.RunBinningsFrame | feature_engineering.py:119-221 | after the blocks every column is a bin column or an unchanged input column that is no raw variable |
| CoarseContinuous.OtherColumnSurvives | feature_engineering.py:119-221 | a colon-free column that is no raw variable comes through a passing run unchanged, or stays absent |
| CoarseContinuous.RunBinningsOutcome | feature_engineering.py:119-221 | the blocks pass exactly when every raw column is there and none of its tests raises |
| CoarseContinuous.RunBinningsWritten | feature_engineering.py:119-221 | after a pass every bin of every variable holds the indicator computed from the input raw column |
| CoarseContinuous.ContinuousSeparate | feature_engineering.py:119-221 | the twelve configured blocks cannot interfere |
| CoarseContinuous.CoarseClassContinuousEffect | feature_engineering.py:107-223 | the procedure passes exactly when all twelve raw columns are present and no test raises; then rows kept, raw columns gone, every bin column computed from its input, other columns kept |
| CoarseContinuous.CoarseClassContinuousFirstFailure | feature_engineering.py:119 | without `emp_length` it raises KeyError and leaves the frame unchanged |
| CoarseContinuous.RowOnesAreSelected | feature_engineering.py:119-221 | the bin columns set in row `k` are the bins the raw cell is selected for |
| CoarseContinuous.CoarseClassContinuousRows | feature_engineering.py:107-223 | after a pass, row by row, a variable's bin columns are 1 exactly for the bins its input value selects |
| Preprocess.FindFrom | preprocess.py:32 | `s.find(pat, i)`: -1 or the first occurrence at or after `i` |
| Preprocess.Find | preprocess.py:32 | `s.find(pat)` is -1 exactly when `pat` occurs nowhere, else the lowest occurrence |
| Preprocess.Matching | preprocess.py:32-38 | the list comprehension keeps exactly the names containing the pattern, in order, without repeats |
| Preprocess.DropLists | preprocess.py:32-40 | five label lists in drop order: for each of `hardship_`, `settlement_`, `sec_`, `_joint` exactly the names containing it, then `id`, `member_id`, `url` |
| Preprocess.DropEach | preprocess.py:42-46 | the five drops in order, stopping at the first KeyError |
| Preprocess.DropColumns | preprocess.py:21-48 | the method's final frame and outcome are DropEach over lists all computed from the columns on entry |
| Preprocess.Flatten | preprocess.py:42-46 | the labels of all drops together |
| Preprocess.WithoutTwice | preprocess.py:42-46 | two drops in a row remove the labels of both |
| Preprocess.DropEachMeaning | preprocess.py:42-46 | the drops pass exactly when every label is a column no earlier drop removed; then they remove exactly the labels named, keeping order, data and rows; otherwise KeyError |
| Preprocess.KeptNames | preprocess.py:21-48 | reference filter: exactly the names no drop targets, in order |
| Preprocess.OtherColumnsUntouchedByPatterns | preprocess.py:32-40 | `id`, `member_id` and `url` contain none of the four patterns |
| Preprocess.DropListsApply | preprocess.py:32-46 | the drops apply exactly when `id`, `member_id`, `url` are columns and no name contains two patterns |
| Preprocess.DropListsTarget | preprocess.py:32-46 | a name is dropped exactly when it contains a pattern or is an other column |
| Preprocess.DropColumnsOutcome | preprocess.py:32-46 | `drop_columns` passes exactly when `id`, `member_id`, `url` are present and no column name contains two of the patterns; failures are KeyErrors |
| Preprocess.DropColumnsResult | preprocess.py:21-48 | on success the names are KeptNames of the input (every other column kept, in original order) with data and rows unchanged |
| Preprocess.DropColumnsRemoved | preprocess.py:21-48 | on success no remaining name contains a pattern, `id`, `member_id`, `url` are gone, and every untargeted column is still present |
| Preprocess.Replaced | preprocess.py:61 | (definition) `df.loc[col == from, col] = to` changes exactly the cells equal to the string `from` |
| Preprocess.FirstToken | preprocess.py:64 | `s.split(' ')[0]` is the prefix of `s` up to the first space |
| Preprocess.ParseInt | preprocess.py:64 | `int(s)` succeeds exactly on an optional sign followed by digits |
| Preprocess.NotAnInteger | preprocess.py:64 | a character that is no digit (nor a leading sign) makes `int()` fail |
| Preprocess.DecimalString | preprocess.py:64 | a nonempty digit string without leading zero |
| Preprocess.DecimalStringRoundTrip | preprocess.py:64 | `int(str(n)) == n` for every natural `n` |
| Preprocess.ParseCell | preprocess.py:63-65 | (definition) a missing value stays missing, a number raises AttributeError, a string gives its first token's integer or ValueError |
| Preprocess.ParseColumn | preprocess.py:64 | the map succeeds exactly when every cell converts, cell by cell; otherwise the error of the first failing cell |
| Preprocess.NormalizedCell | preprocess.py:61-62 | (definition) one cell under the two label rewrites |
| Preprocess.Normalized | preprocess.py:61-62 | each cell after the two label rewrites |
| Preprocess.EmpLengthRun | preprocess.py:51-66 | the procedure keeps the table well formed and the row count |
| Preprocess.EmpLengthToNumeric | preprocess.py:51-66 | the method's final frame and outcome are EmpLengthRun of the old frame |
| Preprocess.EmpLengthValue | preprocess.py:61-65 | (definition) what one cell becomes: the rewrites, then the parse; its properties are `EmpLengthYears`, `EmpLengthRejectsText`, `EmpLengthOtherCells` and `EmpLengthNotAvailable` |
| Preprocess.EmpLengthOutcome | preprocess.py:51-66 | KeyError without the column; otherwise passes exactly when every cell converts, then holds each cell's value with all else unchanged; on failure the rewrites stay and the error is the first failing cell's |
| Preprocess.EmpLengthLabels | preprocess.py:61-62 | `< 1 year` becomes 0 and `10+ years` becomes 10 |
| Preprocess.EmpLengthLabelsNeedRewrite | preprocess.py:61-64 | without the rewrites both labels would raise ValueError |
| Preprocess.FirstTokenBeforeSpace | preprocess.py:64 | the first token of `w + " " + rest` is `w` when `w` has no space |
| Preprocess.NumberLabelKept | preprocess.py:61-62 | a label starting with a number is neither rewritten label |
| Preprocess.EmpLengthYears | preprocess.py:63-65 | `"<n> ..."` becomes `n` for every natural `n` |
| Preprocess.EmpLengthRejectsText | preprocess.py:64 | a label whose first token is no integer raises ValueError |
| Preprocess.EmpLengthOtherCells | preprocess.py:63-64 | a missing value stays missing; a number raises AttributeError |
| Preprocess.EmpLengthNotAvailable | preprocess.py:64 | `n/a` raises ValueError |
| Preprocess.IsBad | preprocess.py:95-96 | (definition) `isin(bads)` on one value: a string equal to one of the four bad statuses |
| Preprocess.GoodBadDefinition | preprocess.py:84-97 | same length, only 0 and 1, and 0 exactly for the four bad statuses |
| Preprocess.CountBad | preprocess.py:95-96 | the number of bad statuses is at most the length |
| Preprocess.GoodBadCounts | preprocess.py:95-96 | the labels sum to the number of values that are not bad |
| Preprocess.GoodBadLabels | preprocess.py:95-96 | the listed statuses give 0; other statuses, `Late (16-30 days)`, missing and numeric values give 1 |
| Preprocess.IsMature | preprocess.py:79-80 | (definition) a 36-month loan issued before 2018 or a 60-month loan issued before 2016; a missing date is not mature |
| Preprocess.Mask | preprocess.py:79-81 | (definition) the row mask holds exactly for mature rows |
| Preprocess.Kept | preprocess.py:81 | the kept row positions: in range, increasing, exactly where the mask holds |
| Preprocess.Filter | preprocess.py:81 | (definition) `col[mask]`; its properties are `FilterTakesKept` |
| Preprocess.FilterTakesKept | preprocess.py:81 | `col[mask]` is the cells at the kept positions, in order |
| Preprocess.SelectRows | preprocess.py:81 | `df[mask]` keeps the column labels and gives a well-formed table |
| Preprocess.FilterLengths | preprocess.py:81 | every filtered column has one cell per kept row |
| Preprocess.VintageSelection | preprocess.py:69-82 | (definition) KeyError for a missing date column, AttributeError for a string date, KeyError for a missing term column, else the mature rows; its properties are `VintageSelectionMeaning` |
| Preprocess.VintageSelectionMeaning | preprocess.py:69-82 | fails exactly with KeyError for a missing column or AttributeError for a string date, in the order the source meets them; on success the same labels and, per column, exactly the mature rows in original order |
| Preprocess.VintageExamples | preprocess.py:79-80 | 2017 with ` 36 months` is kept, 2018 is not; 2015 with ` 60 months` is kept, 2016 is not; a term without the leading space and a missing date are never kept |

## Left out

- `get_dummies` (feature_engineering.py:4-17) calls the library directly. Only its output is modelled, as the one-hot assumption `OneHot` on the dummy columns.
- `object_to_date` (preprocess.py:5-19) is library date parsing. `issue_d_date` is modelled as an already-extracted year held in a number cell.
- EDA.py is not part of this model. It computes null counts for display.
- Floating point is not modelled: cells hold exact reals.
- `astype(float)` and dtypes are not modelled. In `emp_length_to_numeric` the parsed integers are stored directly as numbers.
- Pandas row index labels are not modelled. `vintage_selection_for_modeling` returns rows by position.
- Boolean dummies from newer pandas versions are not modelled. Dummies are the numbers 0 and 1.
- Preprocess.ParseInt: accepts only an optional sign and ASCII digits. Python's `int()` also admits surrounding whitespace other than a space, underscores between digits and non-ASCII digits. Such tokens are treated as ValueError.
- Preprocess.VintageSelection: the missing `.dt` accessor is modelled as AttributeError when the date column holds a string. A date column with no dates at all is treated as a column of missing dates.
- CoarseContinuous.Top: any string in the column is a TypeError for `max()`. A column made only of strings, which pandas would order, is also treated as TypeError.
- CoarseContinuous.CoarseClassContinuousEffect: on failure only the outcome is characterised. The partial state left by the completed lines is given by `RunBinnings` but not restated as a lemma.
- The discrete merges write the source's literal sums `df['a'] + df['b'] + ...`. The model sums the columns that `generate_col_names_for_deletion` names for the same group. The literal summands are transcribed as `SummedColumns`, and `SummedColumnsAreDummies` proves that for every configured merge they are the same columns in the same order.
- Frame.FirstMissing: pandas' `drop` raises one KeyError that lists every missing label. The model's KeyError names only the first missing label, in list order (`WithoutColumns`).
- Behaviours of the code a reader might not expect, modelled as written:
  - Applying a merge twice raises KeyError rather than doing nothing (`MergeNotRepeatable`).
  - `delinq_2yrs` values 4 to 8 set no bin.
  - The `>352` bin of `mths_since_earliest_cr_line` excludes the column maximum.
  - Several bin labels disagree with their tests: `int_rate:<9.548` takes 9.548, `mths_since_earliest_cr_line:141-164` takes 140, and `delinq_2yrs:>=4` starts at 9.
  - All of these are stated as lemmas above.
