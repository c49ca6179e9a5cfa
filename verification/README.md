# AKI predictor: creatinine features and the NHS AKI rule, in Dafny

This project models the feature-extraction core of the aki-predictor repository. The repository
flags Acute Kidney Injury (AKI) from a patient's history of creatinine blood tests. A patient row
holds age, sex, an optional training label (`y`/`n`) and pairs of (test date, test result).

The model covers three source files:

- `utils.py` (module `Utils`):
  - the 0/1 conversion of tokens and its inverse;
  - the column layout of a row (`get_header`);
  - the field filter and zip of a test row;
  - the 48-hour creatinine change D;
  - the banding of the reference-value (RV) ratio;
  - the per-patient feature vector (sex, age, c1, RV1, RV2, RV ratio, D);
  - the per-record error isolation of `process_patient_data`.
- `data_processing.py` (module `DataProcessing`):
  - generation of the column names;
  - the one-argument `to_binary`;
  - whole days elapsed between consecutive tests;
  - per-row min/mean/max of the results;
  - splitting off the `aki` column. The table is a `DataFrame` class whose columns `format_data`
    updates in place.
- `nhs_aki_algo.py` (module `NhsAkiAlgo`): the NHS England AKI rule (ratio >= 1.5, or
  D > 26) and that file's own banding of the elapsed days.

Support modules:

- `Outcomes`: Option and Result.
- `Durations`: pandas Timedelta as an integer count of nanoseconds, with the 2-, 7- and
  365-day constants and the whole-day floor.
- `Naming`: decimal rendering of indices and the `creatinine_{kind}_{i}` names.
- `Statistics`: minimum, maximum, mean, sorting and the pandas median (the average of the two
  middle values for an even count).

Representation choices:

- Results are `real`. Test dates are integer nanoseconds.
- A patient is a gap-free sequence of (date, result) measurements.
- Python's silent fall-through and catch-all error returns become explicit datatype values:
  - `None` from `calculate_rv_ratio` is `Ratio.NoBand`;
  - `(-1, -1)` from the window is `Window.WindowFailed`;
  - `([], -1)` / `[]` from `process_patient_data` is `TrainFailed` / `TestFailed`;
  - a missing column (pandas KeyError) is `None`;
  - a division by a zero reference value (inf/nan in numpy) is `Ratio.DivisionByZero`.

## Model

| member | source | states |
|---|---|---|
| Utils.ToBinary | utils.py:4-12 | the result is 0 or 1, and it is 1 exactly when the token equals the truth token, so the ValueError branch is unreachable |
| Utils.ToLabel | utils.py:15-23 | 1 and 0 succeed; any other value is the invalid-binary-label error carrying that value |
| Utils.BinaryLabelRoundTrip | utils.py:9-23 | with distinct tokens, converting 0 or 1 to a token and back gives the same 0/1 |
| Utils.TokenRoundTrip | utils.py:9-23 | with distinct tokens, either token converted to 0/1 and back is itself |
| Utils.GetHeader | utils.py:26-51 | unknown dataset type gives []; train with fewer than 3 slots gives [] (the IndexError path); test with fewer than 2 slots grows to [age, sex]; otherwise the header has row_length slots, starts age, sex (, aki), then date_j/result_j pairs, and an odd leftover slot stays '' |
| Utils.SlotNameOfLayout | utils.py:40-45 | every slot of a paired layout carries the name given by its position |
| Utils.SlotNamesDistinct | utils.py:41-42 | two different slots after the fixed columns get different names; the earlier one is longer than the three-letter fixed names, and the later one is too unless it is the empty leftover slot |
| Utils.TestHeaderDistinct | utils.py:30-45 | a test header names every slot differently, so the zip into a dict loses no field |
| Utils.KeepFields | utils.py:207 | the filter keeps only fields other than '', 'y' and 'n', drawn from the input |
| Utils.KeepFieldsAppend | utils.py:207 | filtering distributes over concatenation, so kept fields stay in order |
| Utils.KeepFieldsCounts | utils.py:207 | each kept value occurs as often as in the input; dropped values never occur |
| Utils.KeepFieldsOfClean | utils.py:207 | a row with no dropped field is returned unchanged |
| Utils.StrippingTheLabel | utils.py:207 | filtering a labelled row with clean fields removes exactly the label |
| Utils.PrepareTestFields | utils.py:207-214 | the fields are the filtered row, the header is the test header of its length, and the record maps the k-th header name to the k-th field and holds nothing else |
| Utils.UsableResultsMembers | utils.py:83-88 | a result is usable exactly when its test is within 2 days of the newest, however large an earlier gap |
| Utils.WindowChange | utils.py:71-99 | no results is the failure value; one test gives (0, 0); no usable older result gives (0, 0); otherwise the span is newest minus oldest date and D is the newest result minus the least usable older one |
| Utils.GetChangeInLastTwoDays | utils.py:71-99 | the loop's result equals the window function for every input |
| Utils.AscendingWindowIsSuffix | utils.py:83-88 | for ascending dates the usable tests are exactly those from some index on |
| Utils.FirstInWindow | utils.py:83-88 | the first index from a given start whose test is within 2 days of the newest, or the last index when there is none |
| Utils.WindowOfThreeTests | utils.py:80-96 | a concrete history: span 3 days, D = 0.8 |
| Utils.WindowKeepsWalkingPastALargeGap | utils.py:83-88 | a concrete unsorted history: a test beyond 2 days does not stop later tests being used |
| Utils.Divide | utils.py:118-121 | a quotient whenever the divisor is non-zero, the division-by-zero value otherwise |
| Utils.CalculateRvRatio | utils.py:102-127 | no value exactly for a negative gap; at most one date means gap 0; 0..7 days is c1/RV1, beyond 7 up to 365 days is c1/RV2, beyond 365 days is 0 |
| Utils.RvRatioUsesExactGap | utils.py:116-122 | the bands compare the exact duration: 7 days and 1 ns already selects RV2, 365 days and 1 ns gives 0 |
| Utils.ExtractPatientFeatures | utils.py:130-153 | fails exactly without results; c1 is the newest result, RV1 the minimum, RV2 the median (between RV1 and the maximum), sex is 1 for 'f', age is passed through, ratio and D come from the dates and results |
| Utils.ProcessPatientData | utils.py:156-169 | train mode yields the features with the 0/1 aki label (1 for 'y'); any other mode yields the features alone; a failing record yields the mode's failure value |
| Utils.TrainAndTestAgree | utils.py:160-166 | for a labelled patient both modes fail together and otherwise compute the same features |
| Utils.SingleTestFeatures | utils.py:143-153 | one non-zero result: c1 = RV1 = RV2 = that result, ratio 1, D = 0 |
| Utils.C1IsNewestNotLargest | utils.py:143-145 | c1 depends on test order, RV1 does not |
| Utils.PrepareTestRecordAsWritten | utils.py:222-232 | a test record with results is labelled; one without results raises |
| Utils.RecordWithoutResultsCrashes | utils.py:222-232 | the row age 40, sex m with no tests raises at the rename |
| Utils.PrepareTestRecord | utils.py:222-232 | never raises; rejects exactly the records without results |
| Utils.PrepareTestRecordNeverCrashes | utils.py:222-232 | the corrected step never raises, labels exactly the records with results, and agrees with the code as written on them |
| Statistics.MinOf | utils.py:145 | the minimum is an element and bounds every element from below |
| Statistics.MaxOf | data_processing.py:80 | the maximum is an element and bounds every element from above |
| Statistics.Mean | data_processing.py:79 | the mean lies between the minimum and the maximum |
| Statistics.SortAscending | utils.py:146 | the result is ascending and a permutation of the input |
| Statistics.Median | utils.py:146 | the median lies between minimum and maximum, and is an element for an odd count |
| Statistics.MiddlePairIsMiddleRanked | utils.py:146 | at most (n-1)/2 values lie below and at most n/2 above the lower middle value, at most n/2 below and at most (n-1)/2 above the upper one, so they are the (n/2)-th and (n/2+1)-th smallest values for an even count and the middle value for an odd one |
| Statistics.CountsOfPermutation | utils.py:146 | values below/above a bound are counted the same in any permutation |
| Naming.NatToString | data_processing.py:101 | decimal rendering is non-empty and has one digit exactly below 10 |
| Naming.NatToStringInjective | data_processing.py:101 | different indices render differently |
| Naming.ColumnName | data_processing.py:101 | every name starts with `creatinine_` and is as long as that prefix, the kind, one separator and the decimal index together |
| Naming.ColumnNameInjective | data_processing.py:101 | different indices give different column names |
| Naming.DateIsNotResult | utils.py:41-42 | a date column name is never a result column name |
| Durations.WholeDays | data_processing.py:70 | the whole-day count is the floor of the duration in days |
| DataProcessing.GetCreatinineDataframeColumns | data_processing.py:86-102 | exactly max(n, 0) names, the i-th being `creatinine_{type}_{i}`, all different |
| DataProcessing.ToBinary | data_processing.py:121-132 | 0 or 1, and 1 exactly for 'y' or 'f'; it never fails |
| DataProcessing.ToBinaryMergesTokens | data_processing.py:130-132 | it is the sum of the two-argument conversions for 'y' and for 'f' |
| DataProcessing.DayGap | data_processing.py:67-70 | whole days between two timestamp cells, floored; no value (NaT) unless both cells are timestamps |
| DataProcessing.CalculateElapsedTime | data_processing.py:53-72 | a missing date column is the KeyError; otherwise max(n-1, 0) columns, the i-th named `elapsed_exam_{i}-{i+1}` holding, row by row, the whole days from test i to test i+1 |
| DataProcessing.StatsOf | data_processing.py:78-80 | no value on an empty row; otherwise min <= mean <= max, min and max are row values bounding every row value |
| DataProcessing.RowResultsMembers | data_processing.py:78-80 | a row's values are exactly the numbers in its first n result cells |
| DataProcessing.RowStatsOf | data_processing.py:78-80 | the row statistics exist exactly when a result cell holds a number; then min and max are values of such cells and bound every such number, and the average is the mean of the row's numbers, between them |
| DataProcessing.GetCreatinineStats | data_processing.py:75-83 | a missing result column is the KeyError; otherwise one entry per row whose min and max are values of its result cells bounding all of them and whose average is the mean of those values, all over the same result columns |
| DataProcessing.Without | data_processing.py:26 | removing a column name keeps exactly the other names and their distinctness |
| DataProcessing.WithoutRemovesOne | data_processing.py:26 | removing a column present once leaves the columns before and after it in order |
| DataProcessing.FormatData | data_processing.py:5-27 | returns the former aki column and removes it from the frame, every other column and its cells unchanged; without an aki column it is the KeyError and the frame is unchanged |
| DataProcessing.ProcessData | data_processing.py:30-50 | exactly what FormatData returns, with the same effect on the frame |
| NhsAkiAlgo.AkiRule | nhs_aki_algo.py:22-27 | the result is 0 or 1, and 1 exactly when ratio >= 1.5 (inclusive) or D > 26 (exclusive) |
| NhsAkiAlgo.RuleOn | nhs_aki_algo.py:15-27 | the rule on a computed ratio; a zero divisor stays the division-by-zero verdict |
| NhsAkiAlgo.BandedDecision | nhs_aki_algo.py:12-27 | elapsed <= 0 or > 365 days gives 0 without the rule; 1..7 days applies the rule to c1/RV1; 8..365 days to c1/RV2 |
| NhsAkiAlgo.IncomingRatioUnused | nhs_aki_algo.py:12-21 | the ratio passed in never reaches the rule |
| NhsAkiAlgo.NhsAkiAlgo | nhs_aki_algo.py:11-14 | with elapsed fixed at 0 the detector always answers 0 |
| NhsAkiAlgo.AgreesWithFeatureRatio | nhs_aki_algo.py:15-18 | for 1..365 days it applies the rule to exactly the ratio `calculate_rv_ratio` computes |
| NhsAkiAlgo.DisagreesOnSameDayTests | nhs_aki_algo.py:12-14 | at a 0-day gap `calculate_rv_ratio` uses c1/RV1 and the rule fires, while this detector answers 0 |
| NhsAkiAlgo.DisagreesBeyondAYear | nhs_aki_algo.py:19-20 | beyond a year the feature ratio is 0 but D > 26 still fires the rule, while this detector answers 0 |

## Findings

| source | as written | input that shows it | evidently intended | confidence | as-written member | corrected member |
|---|---|---|---|---|---|---|
| utils.py:222-232 | `prepare_test_data` calls `.rename` on the result of `process_patient_data`, whose failure value in test mode is the list `[]`, so a failed record raises AttributeError | the test row `40, m` with no creatinine fields: `creatinine_columns[0]` raises IndexError, the record fails, and `[].rename` raises | a failed test record comes back as a rejection, as `process_patient_data` isolates it | medium, not executed | Utils.PrepareTestRecordAsWritten | Utils.PrepareTestRecord |

## Left out

- `model.py`: classifier training and prediction, the F3 gate, argparse and CSV I/O.
- `get_longest_row`, `pd.read_csv`, `pd.to_datetime` and `convert_to_datetime` are file I/O and library date parsing. Dates enter the model already parsed, as nanosecond timestamps.
- `prepare_train_data`: the batch `apply` over a parsed CSV and the renaming of its columns. Its per-row work is `ProcessPatientData`.
- `prepare_test_data` lines 217-220 convert the date fields with `pd.to_datetime`. Turning the zipped record into a `Patient` is therefore not modelled.
- The `print` calls in the `except` branches. Only the returned values are modelled.
- IEEE floats: results are exact reals. A zero RV1/RV2 divisor gives numpy inf or nan; the model keeps it as the separate value `DivisionByZero` instead of infinite arithmetic.
- pandas label-based slicing up to the last non-empty column, NaN cells inside a patient's history, and a trailing date without a result. A patient is a gap-free sequence of measurements.
- Utils.ExtractPatientFeatures: the age is carried as the raw field. No numeric conversion is modelled, and the source performs none.
- DataProcessing.GetCreatinineStats: text in a result column is treated like NaN.
- DataProcessing.DayGap: a number or text cell in a date column gives no value (NaT). The source subtracts two numeric cells as numbers and casts the difference to nanoseconds, and raises TypeError on text. Date columns are taken to hold parsed timestamps or missing cells only.
- DataProcessing.CalculateElapsedTime: inherits that reading of DayGap for number or text cells in a date column.
- DataProcessing.CalculateElapsedTime: pandas aligns the subtracted columns by row index. The model subtracts row by row in the same order.
- `calculate_rv_ratio`'s `except ValueError` branch returning -1 is not modelled. No operation on exact reals and integer timestamps raises ValueError there.
- `nhs_aki_algo` line 7 calls `process_patient_data` with two of its three arguments. Line 9 calls `get_reference_interval`, which neither nhs_aki_algo.py nor utils.py (the only module it imports names from) defines, so the call fails as written. The detector is therefore modelled from line 11 on, over the unpacked feature values. The reference-interval lookup is not part of this model.
