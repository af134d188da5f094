# Credit scoring pipeline: cleaning, features, training inputs, label handling

This project models the data path of a loan-default pipeline in Dafny. The pipeline is written in Python over pandas and scikit-learn, and has four stages:

- **Cleaning** (`clean_data`): copy the frame, drop duplicate rows keeping the first, then forward-fill missing cells down each column.
- **Feature engineering** (`engineer_features`): copy the frame and add up to three derived columns, each only when its input columns exist. `monthly_income` and `estimated_monthly_debt` are float64, or object when an input column is object; `emp_length_num` is int64 when every label is known and float64 otherwise:
  - `monthly_income = annual_inc / 12`;
  - `estimated_monthly_debt = monthly_income * dti / 100`;
  - `emp_length_num`, an ordinal encoding of `emp_length` from eleven labels to 0..10.
- **Training up to the fit** (`train_model`):
  - separate the target column;
  - keep the int64 and float64 feature columns;
  - turn ±inf into NaN, then NaN into 0;
  - split the rows 80/20 with `train_test_split`.
- **Evaluation label handling** (`evaluate_model`): binarize the test labels against `"Fully Paid"` and count the confusion matrix.

A data frame is the value `Table.Table`:
- column names;
- a dtype tag per column (`Int64`, `Float64`, `Other`);
- rows of cells: `Missing` (NaN/None), `Num`, `PosInf`, `NegInf` or `Str`.

`Table.Valid` says a frame is well formed: distinct column names, rectangular rows, and every cell fitting its column's dtype.

The stages copy their input and then change the copy in place. That part is modelled by the class `Frames.Frame`. Its methods (`DropDuplicates`, `ForwardFill`, `SetColumn`, `ReplaceInfinities`, `FillMissingWithZero`) are each proved against a function on values:
- `Table.DropDuplicateRows`, `Table.FFill` and `Table.WithColumn` for the first three;
- `Table.MapCells` for the last two.

Each stage is:
- a function on values (`Cleaning.Clean`, `Features.EngineerFeatures`, `Training.PrepareTraining`, `Evaluation.Binarize`, `Evaluation.ConfusionMatrix`);
- a method on frames, proved equal to that function, where the source works in place (`Cleaning.CleanData`, `Features.EngineerFeaturesOn`, `Training.TrainModel`);
- lemmas stating what the stage promises.

`Pipeline` composes the stages in the order the pipeline script runs them.

Errors the source raises are modelled as `Failure` results:
- the `TypeError` pandas raises when a text cell takes part in arithmetic. Dividing `annual_inc` by 12 raises on any text in it. Multiplying `monthly_income` by `dti` raises only when text in one factor faces a present value in the other: on object columns pandas computes just the rows where both factors are present;
- the `KeyError` of a missing target column;
- the `ValueError` of `train_test_split` when no training row is left;
- the `ValueError` of `confusion_matrix` for sequences of different lengths.

Some properties one might expect of such a pipeline do not hold of the code, and the model follows the code:
- **Idempotence.** Cleaning twice can differ from cleaning once. Forward fill can turn two distinct rows into duplicates, which a second pass drops (`Cleaning.CleanNotIdempotent`).
- **Empty input.** An empty frame, one without rows or without columns, is returned unchanged rather than rejected. `drop_duplicates` leaves such a frame alone, so a frame without columns keeps all of its rows (`Cleaning.Clean`).
- **Gaps that survive.** Cleaning does not remove every missing value: a gap in the first row survives (`Cleaning.CleanKeepsFirstRowGap`).
- **No numeric feature.** `train_model` does not check that any feature column is left. Zero feature columns only fail inside the classifier fit, which is not modelled.

## Model

| member | source | states |
|---|---|---|
| Table.KeepFirst | src/data_cleaning/clean_data.py:13 | deduplication keeps no more rows than the input, keeps a row exactly when the input has it, and leaves no two equal rows |
| Table.FirstOccurrences | src/data_cleaning/clean_data.py:13 | the kept positions are increasing and are exactly the positions whose row appears at no earlier position |
| Table.KeepFirstIsFirstOccurrences | src/data_cleaning/clean_data.py:13 | the deduplicated rows are the input rows at their first-occurrence positions, in input order |
| Table.KeepFirstOfDistinct | src/data_cleaning/clean_data.py:13 | rows without duplicates are left unchanged |
| Table.DropDuplicateRows | src/data_cleaning/clean_data.py:13 | `drop_duplicates` never adds rows and keeps exactly the rows the input has; with columns no two rows are equal, and without columns every row is kept |
| Table.FFillNoColumns | src/data_cleaning/clean_data.py:16 | forward fill leaves rows without cells unchanged |
| Table.FFill | src/data_cleaning/clean_data.py:16 | forward fill keeps the number and width of rows and never changes a non-missing cell |
| Table.FFillStep | src/data_cleaning/clean_data.py:16 | each filled row is the input row filled from the filled row above it |
| Table.FFillNearest | src/data_cleaning/clean_data.py:16 | a missing cell takes the value of the nearest non-missing cell above it in its column |
| Table.FFillMissingIff | src/data_cleaning/clean_data.py:16 | a filled cell is missing exactly when every cell at or above it in its column is missing |
| Table.FFillFromColumn | src/data_cleaning/clean_data.py:16 | every filled cell comes from the same column of the same or an earlier row |
| Table.WithColumn | src/feature_engineering/feature_engineering.py:13 | `df[name] = values` overwrites an existing column in place or appends a new last column; the named column holds the values and the dtype, every other column is unchanged, and the frame stays well formed |
| Table.WithColumnValues | src/feature_engineering/feature_engineering.py:13 | after the assignment the named column reads back the values and every other column reads back what it held |
| Table.Project | src/modeling/train_model.py:19 | selecting columns keeps every row and takes the chosen columns' names, dtypes and cells, in order |
| Table.ColumnValues | src/feature_engineering/feature_engineering.py:13 | `df[name]` has one cell per row |
| Table.TakeRows | src/modeling/train_model.py:28-30 | the rows at the given positions, in that order, with the columns and dtypes kept and the frame still well formed |
| Table.TakeCells | src/modeling/train_model.py:28-30 | the labels at the given positions, in that order |
| Table.MapCells | src/modeling/train_model.py:22-25 | an element-wise replace or fill keeps the shape and applies the map to every cell |
| Frames.Frame.Copy | src/data_cleaning/clean_data.py:10 | `df.copy()` is a fresh frame with the same contents |
| Frames.Frame.DropDuplicates | src/data_cleaning/clean_data.py:13 | the frame's rows become exactly `DropDuplicateRows` of its old value: an empty frame is left as it is, otherwise the in-place scan keeps `KeepFirst` of the old rows; the columns are kept |
| Frames.Frame.ForwardFill | src/data_cleaning/clean_data.py:16 | the in-place scan leaves exactly `FFill` of the old rows and keeps the columns |
| Frames.Frame.SetColumn | src/feature_engineering/feature_engineering.py:13 | the frame becomes `WithColumn` of its old value |
| Frames.Frame.ReplaceInfinities | src/modeling/train_model.py:22 | every ±inf cell becomes NaN, nothing else changes |
| Frames.Frame.FillMissingWithZero | src/modeling/train_model.py:25 | every NaN cell becomes 0, nothing else changes |
| Cleaning.Clean | src/data_cleaning/clean_data.py:3-21 | cleaning keeps the columns and dtypes, never adds rows, returns a frame without rows or without columns unchanged, and keeps a frame well formed |
| Cleaning.CleanData | src/data_cleaning/clean_data.py:10-21 | the stage returns a fresh frame equal to `Clean` of the input and leaves the input frame unchanged |
| Cleaning.CleanValid | src/data_cleaning/clean_data.py:13-16 | deduplication then forward fill keeps every cell fitting its column's dtype |
| Cleaning.CleanedMissingIff | src/data_cleaning/clean_data.py:16 | after cleaning a cell is missing exactly when every cell at or above it in its column of the deduplicated rows is missing |
| Cleaning.CleanKeepsFirstRowGap | src/data_cleaning/clean_data.py:16 | a gap in the first row survives cleaning |
| Cleaning.CleanNotIdempotent | src/data_cleaning/clean_data.py:13-16 | there is a well-formed frame that a second cleaning pass changes |
| Features.DivCell | src/feature_engineering/feature_engineering.py:13 | division by a positive constant never yields text and yields NaN exactly for NaN |
| Features.MulCell | src/feature_engineering/feature_engineering.py:18 | the product is the product of two numbers, NaN when either factor is NaN or an infinity meets zero, and never text; text is only allowed to face NaN, as in the rows pandas skips |
| Features.TextMeetsSameGaps | src/feature_engineering/feature_engineering.py:17-18 | whether multiplying raises depends only on where the other factor has gaps |
| Features.IncomeValues | src/feature_engineering/feature_engineering.py:13 | one value per row, never text; NaN exactly where `annual_inc` is NaN; a number divided by 12 otherwise |
| Features.DebtValues | src/feature_engineering/feature_engineering.py:17-19 | one value per row, never text; NaN in every row where a factor is NaN; `monthly_income * dti / 100` where both are numbers |
| Features.EmpLengthNum | src/feature_engineering/feature_engineering.py:36 | an encoded cell is NaN or a whole number of years from 0 to 10 |
| Features.EmpLengthValues | src/feature_engineering/feature_engineering.py:36 | one encoded cell per row, each fitting the dtype `EncodedDType` gives the column |
| Features.EmpLengthKnown | src/feature_engineering/feature_engineering.py:23-36 | each of the eleven employment-length labels maps to its number of years |
| Features.EmpLengthOnlyLabels | src/feature_engineering/feature_engineering.py:36 | only those eleven labels map to a number; anything else maps to NaN |
| Features.EncodedDType | src/feature_engineering/feature_engineering.py:36 | the encoded column is int64 exactly when every label was found, float64 otherwise |
| Features.IncomeRule | src/feature_engineering/feature_engineering.py:12-13 | rule 1 raises on any text in `annual_inc`; otherwise it keeps the frame well formed and the row count |
| Features.DebtRule | src/feature_engineering/feature_engineering.py:16-19 | rule 2 raises only when text in one factor faces a present value in the other; otherwise it keeps the frame well formed and the row count |
| Features.EmpLengthRule | src/feature_engineering/feature_engineering.py:22-36 | rule 3 keeps the frame well formed and the row count |
| Features.EngineerFeatures | src/feature_engineering/feature_engineering.py:4-41 | on success the result is well formed with the input's row count |
| Features.EngineerFeaturesOn | src/feature_engineering/feature_engineering.py:9-36 | the stage on frames fails exactly when `EngineerFeatures` does, with the same error; otherwise it returns a fresh frame equal to it, and the input frame is unchanged |
| Features.IncomeRuleFacts | src/feature_engineering/feature_engineering.py:12-13 | without `annual_inc` rule 1 changes nothing; with it, `monthly_income` is `annual_inc / 12`, float64 or object as `annual_inc` is numeric or object, and no other column changes |
| Features.DebtRuleFacts | src/feature_engineering/feature_engineering.py:16-19 | without both inputs rule 2 changes nothing; with them, no text met a present value, `estimated_monthly_debt` is `monthly_income * dti / 100`, object when a factor is object and float64 otherwise, and no other column changes |
| Features.EmpLengthRuleFacts | src/feature_engineering/feature_engineering.py:22-36 | without `emp_length` rule 3 changes nothing; with it, `emp_length_num` is the encoding with its dtype and no other column changes |
| Features.FeaturesExtend | src/feature_engineering/feature_engineering.py:9-36 | the stage keeps the rows and every input column in place, leaves non-derived columns unchanged, and appends only derived columns |
| Features.FeaturesMonthlyIncome | src/feature_engineering/feature_engineering.py:12-13 | with `annual_inc`, the result's `monthly_income` is `annual_inc / 12` row by row, NaN exactly where `annual_inc` is NaN, and float64 unless `annual_inc` is an object column |
| Features.FeaturesDebtPresent | src/feature_engineering/feature_engineering.py:16 | `estimated_monthly_debt` is in the result exactly when it was already there, or `dti` is there with `annual_inc` or `monthly_income` |
| Features.FeaturesDebt | src/feature_engineering/feature_engineering.py:16-19 | when rule 2 runs, no text faced a present value, and the result's `estimated_monthly_debt` is its `monthly_income * dti / 100` row by row, with the dtype the two factors give |
| Features.FeaturesEmpLength | src/feature_engineering/feature_engineering.py:22-36 | with `emp_length`, the result's `emp_length_num` encodes each row's label, with the encoded dtype |
| Features.FeaturesNoRuleApplies | src/feature_engineering/feature_engineering.py:12-36 | with none of the rules' inputs present, the frame comes back unchanged |
| Features.FeaturesFailIff | src/feature_engineering/feature_engineering.py:12-19 | the stage fails exactly when `annual_inc` holds text, or when text in `dti` or in an input `monthly_income` faces a present value of the other factor (`annual_inc` standing in for the income rule 1 computes) |
| Training.FeatureIndices | src/modeling/train_model.py:15-19 | the kept column positions are increasing and are exactly the non-target int64/float64 columns |
| Training.SelectFeatures | src/modeling/train_model.py:15-19 | the feature frame is well formed with every input row, never holds the target, and has only int64 and float64 columns |
| Training.SelectFeaturesSpec | src/modeling/train_model.py:15-19 | the feature frame is well formed; its columns are exactly the numeric non-target columns, in input order, with their dtypes and cells |
| Training.SanitizeCell | src/modeling/train_model.py:22-25 | replace-then-fill keeps finite numbers and text and turns ±inf and NaN into 0 |
| Training.SanitizeCellSpec | src/modeling/train_model.py:22-25 | the order matters: filling alone leaves every infinity, and replacing after the fill would leave NaN |
| Training.FeatureMatrix | src/modeling/train_model.py:19-25 | the sanitized features are a well-formed frame with the selected columns and dtypes; every cell is a number, namely the sanitized input cell |
| Training.PrepareTraining | src/modeling/train_model.py:12-30 | fails with the missing-target error exactly when the target is absent, and with the empty-training-set error exactly when it is present with fewer than two rows; on success the test part has `ceil(n/5)` rows and labels, the training part the rest, and both are well-formed frames over the selected columns |
| Training.TestSize | src/modeling/train_model.py:28-30 | the test part has `ceil(n / 5)` rows |
| Training.TrainModel | src/modeling/train_model.py:12-30 | the stage on frames returns exactly `PrepareTraining` of the input |
| Training.TrainOutcome | src/modeling/train_model.py:15-30 | training succeeds exactly when the target is present and at least two rows are left |
| Training.TrainSplitRows | src/modeling/train_model.py:28-30 | the test and training parts have `ceil(n/5)` and `n - ceil(n/5)` rows; the k-th feature row and the k-th label of each part come from the same shuffled input row |
| Training.PermutationCovers | src/modeling/train_model.py:28-30 | a shuffle of the rows lists every row |
| Training.SplitPartition | src/modeling/train_model.py:28-30 | the test rows and the training rows are disjoint, together are all the rows, and have the stated sizes |
| Evaluation.Binarize | src/evaluation/evaluate_model.py:38 | one binary value per label: 0 exactly for `"Fully Paid"`, 1 for every other value, missing included |
| Evaluation.BinarizeCountsDefaults | src/evaluation/evaluate_model.py:38 | the binary target sums to the number of labels other than `"Fully Paid"` |
| Evaluation.Occurrences | src/evaluation/evaluate_model.py:38 | the count of a status is at most the number of labels, and zero exactly when the status does not occur |
| Evaluation.Insert | src/evaluation/evaluate_model.py:29 | adding a label to a sorted label list keeps it strictly sorted and adds exactly that label |
| Evaluation.UniqueLabels | src/evaluation/evaluate_model.py:29 | the class labels are strictly sorted in Python's string order and are exactly the labels that occur |
| Evaluation.SortedListUnique | src/evaluation/evaluate_model.py:29 | only one strictly sorted list holds a given set of labels |
| Evaluation.ConfusionMatrix | src/evaluation/evaluate_model.py:29 | the matrix is square over its labels and fails exactly when the two sequences differ in length |
| Evaluation.Tally | src/evaluation/evaluate_model.py:29 | the matrix built one pair at a time is square over the labels; `TallyCounts` and `TallyTotal` state its cells |
| Evaluation.TallyCounts | src/evaluation/evaluate_model.py:29 | each cell (i, j) counts the rows of actual class i predicted as class j |
| Evaluation.TallyTotal | src/evaluation/evaluate_model.py:29 | the cells add up to the number of rows |
| Evaluation.ConfusionMatrixSpec | src/evaluation/evaluate_model.py:18-29 | with one prediction per test row, the labels are the sorted distinct labels of both sequences; cell (i, j) counts the rows of actual class i predicted as j; the cells sum to the number of test rows |
| Evaluation.ScoredClass | src/evaluation/evaluate_model.py:19 | the ROC score's class is a training label above the smallest one, and only the smallest training label is below it: it is the second sorted training label |
| Evaluation.ScoredClassIsFullyPaid | src/evaluation/evaluate_model.py:19-40 | for the training labels "Charged Off" and "Fully Paid", the scored class is "Fully Paid", which the binary target marks 0 |
| Evaluation.DefaultClasses | src/evaluation/evaluate_model.py:36-40 | the classes whose probabilities make the default score are exactly those the binary target marks 1 |
| Evaluation.DefaultClassesOfClosedLoans | src/evaluation/evaluate_model.py:36-40 | for "Charged Off" and "Fully Paid", the default score is the probability of "Charged Off" |
| Pipeline.TargetKept | test_pipe.py:14-19 | feature engineering keeps the target column and its values |
| Pipeline.RunPipeline | test_pipe.py:13-19 | on success the test part has `ceil(n/5)` of the `n` cleaned rows, the two parts together have all of them, and `loan_status` is never a feature |
| Pipeline.MonthlyIncomeIsFeature | test_pipe.py:13-19 | `monthly_income` reaches the classifier exactly when `annual_inc` is an int64 or float64 column; computed from an object column it is an object column, which feature selection drops |
| Pipeline.RunPipelineOn | test_pipe.py:13-19 | running the stages on frames gives the composed value and leaves the input frame unchanged |
| Pipeline.PipelineOutcome | test_pipe.py:13-19 | without `loan_status` the run fails with the missing-target error, unless feature engineering failed first; with it, the run succeeds exactly when features succeed and at least two cleaned rows remain |
| Pipeline.PipelineTestLabels | test_pipe.py:13-21 | the evaluated labels are the cleaned loan statuses of the shuffled test rows, `ceil(n/5)` of the `n` cleaned rows, and their binary target is 0 exactly for "Fully Paid" |

## Left out

- The classifier is not modelled: `LogisticRegression(...).fit`, `predict` and `predict_proba` are library numerics with internal parallelism. The predictions are a parameter of `Evaluation.ConfusionMatrix`. Errors raised only during the fit are not modelled, including the fit on zero feature columns.
- `classification_report`, `roc_curve` and `auc` are not modelled. They are floating-point metrics over library code.
- Plots, CSV output and `print` calls are not modelled; they are I/O.
- Data loading and the orchestration DAG are not modelled. They are I/O and scheduling, with no logic over the data.
- Rounding is not modelled. Cell arithmetic is exact over `real`; infinities and NaN follow IEEE rules, but overflow to infinity does not occur.
- The seeded shuffle of `train_test_split` (`random_state=42`) is not modelled. The shuffle is the parameter `perm`, which must be a permutation of the row positions.
- Training.TestSize: the test size is the exact `ceil(n / 5)`. scikit-learn computes `ceil(0.2 * n)` in floating point; the two agree for realistic row counts.
- Features.ArithDType: the `Other` dtype tag is treated as object in arithmetic. pandas divides a bool column into float64 and raises on datetime and category columns; those dtypes are not told apart here.
- Table.Valid: frames with repeated column names are not modelled.
- Evaluation.ConfusionMatrix: the labels are text only. A NaN label, or a mix of text and numbers, is not modelled; scikit-learn rejects or orders those differently.
- Cleaning.Clean: pandas' own dtype changes during forward fill (an object column filled with numbers, say) are not modelled; the dtype tags are kept.
- NaN and None are the same `Missing` cell. pandas treats them alike in `drop_duplicates`, `fillna` and arithmetic.

## Findings

| source | as written | input that shows it | evidently intended | confidence | as-written member | corrected member |
|---|---|---|---|---|---|---|
| src/evaluation/evaluate_model.py:19 | the ROC score is `predict_proba(X_test)[:, 1]`, the probability of the second sorted class, while the binary target at line 38 marks every status other than "Fully Paid" as 1 | training labels "Charged Off" and "Fully Paid": column 1 is the probability of "Fully Paid", the class marked 0, so the curve ranks non-defaults as positives | score each row by the probability of default: the sum of the probabilities of the classes the binary target marks 1 | medium, not executed | Evaluation.ScoredClassIsFullyPaid | Evaluation.DefaultClasses |
