/** utils.py: label conversion, row layout, and the per-patient creatinine features
    (c1, rv1, rv2, RV ratio and the 48-hour change D) of the NHS AKI algorithm. */
module Utils {
  import opened Outcomes
  import opened Durations
  import opened Naming
  import opened Statistics

  // ---------------------------------------------------------------------------
  // Binary / label conversion

  /** `to_binary(label, truth)`: 1 exactly when the token is the truth token. The source's third
      branch (raising ValueError) is unreachable: a value is either equal to the token or not. */
  function ToBinary<T(==)>(token: T, truth: T): (b: int)
    ensures b == 0 || b == 1
    ensures b == 1 <==> token == truth
  {
    if token == truth then 1
    else if token != truth then 0
    else assert false; 0
  }

  datatype LabelError = InvalidBinaryLabel(binaryLabel: int)

  /** `to_label(binary_label, truth, false)`: 1 and 0 map back to the two tokens; any other value
      is the ValueError. */
  function ToLabel<T>(binaryLabel: int, truth: T, falseLabel: T): (r: Result<T, LabelError>)
    ensures r.Success? <==> binaryLabel == 0 || binaryLabel == 1
    ensures r.Failure? ==> r.error == InvalidBinaryLabel(binaryLabel)
  {
    if binaryLabel == 1 then Success(truth)
    else if binaryLabel == 0 then Success(falseLabel)
    else Failure(InvalidBinaryLabel(binaryLabel))
  }

  /** Converting a 0/1 prediction to a token and back gives the prediction again. */
  lemma BinaryLabelRoundTrip<T>(b: int, truth: T, falseLabel: T)
    requires b == 0 || b == 1
    requires truth != falseLabel
    ensures ToLabel(b, truth, falseLabel).Success?
    ensures ToBinary(ToLabel(b, truth, falseLabel).value, truth) == b
  {
  }

  /** Converting one of the two tokens to 0/1 and back gives the token again. */
  lemma TokenRoundTrip<T>(x: T, truth: T, falseLabel: T)
    requires x == truth || x == falseLabel
    ensures ToLabel(ToBinary(x, truth), truth, falseLabel) == Success(x)
  {
  }

  // ---------------------------------------------------------------------------
  // Row layout

  const TrainMode: string := "train"
  const TestMode: string := "test"

  /** From slot `off` on, the slots come in (date, result) pairs named after the test index, and
      an odd slot left over at the end stays empty. */
  ghost predicate PairedLayout(header: seq<string>, off: nat)
    requires off <= |header|
  {
    && (forall j :: 0 <= j < (|header| - off) / 2 ==>
          header[off + 2 * j] == ColumnName("date", j) && header[off + 2 * j + 1] == ColumnName("result", j))
    && ((|header| - off) % 2 == 1 ==> header[|header| - 1] == "")
  }

  /** `get_header(row_length, dataset_type)`. A training row is laid out as age, sex, aki and then
      the test pairs; a test row as age, sex and the pairs. A training row too short to hold the
      aki slot and an unknown dataset type give the empty header of the caught exception. The
      slice assignment of age and sex lengthens a list shorter than two. */
  method GetHeader(rowLength: int, datasetType: string) returns (header: seq<string>)
    ensures datasetType != TrainMode && datasetType != TestMode ==> header == []
    ensures datasetType == TrainMode && rowLength < 3 ==> header == []
    ensures datasetType == TestMode && rowLength < 2 ==> header == ["age", "sex"]
    ensures datasetType == TrainMode && rowLength >= 3 ==>
              |header| == rowLength && header[..3] == ["age", "sex", "aki"] && PairedLayout(header, 3)
    ensures datasetType == TestMode && rowLength >= 2 ==>
              |header| == rowLength && header[..2] == ["age", "sex"] && PairedLayout(header, 2)
  {
    header := seq(if rowLength > 0 then rowLength else 0, _ => "");
    header := ["age", "sex"] + if |header| >= 2 then header[2..] else [];
    var i := 2;
    if datasetType == TrainMode {
      if i >= |header| {
        return [];
      }
      header := header[i := "aki"];
      i := i + 1;
    } else if datasetType != TestMode {
      return [];
    }
    ghost var off := i;
    ghost var prefix := header[..off];
    var testNum := (rowLength - i) / 2;
    var j := 0;
    while j < testNum && i < rowLength
      invariant 0 <= j && i == off + 2 * j
      invariant off <= rowLength ==> |header| == rowLength && j <= testNum
      invariant off > rowLength ==> j == 0 && |header| == off
      invariant header[..off] == prefix
      invariant forall q :: 0 <= q < j ==>
                  header[off + 2 * q] == ColumnName("date", q) && header[off + 2 * q + 1] == ColumnName("result", q)
      invariant forall k :: i <= k < |header| ==> header[k] == ""
    {
      header := header[i := ColumnName("date", j)][i + 1 := ColumnName("result", j)];
      j := j + 1;
      i := i + 2;
    }
  }

  /** The name the layout gives slot `k` of a row of `n` slots whose pairs start at `off`. */
  function SlotName(off: nat, n: nat, k: nat): string
    requires off <= k < n
  {
    var p := k - off;
    if p < 2 * ((n - off) / 2) then ColumnName(if p % 2 == 0 then "date" else "result", p / 2) else ""
  }

  lemma SlotNameOfLayout(header: seq<string>, off: nat, k: nat)
    requires off <= k < |header| && PairedLayout(header, off)
    ensures header[k] == SlotName(off, |header|, k)
  {
    var n := |header|;
    var p := k - off;
    var j := p / 2;
    var pairs := (n - off) / 2;
    if p < 2 * pairs {
      assert j < pairs;
      if p % 2 == 0 {
        assert k == off + 2 * j;
        assert SlotName(off, n, k) == ColumnName("date", j);
      } else {
        assert k == off + 2 * j + 1;
        assert SlotName(off, n, k) == ColumnName("result", j);
      }
    } else {
      assert (n - off) % 2 == 1 && k == n - 1;
    }
  }

  lemma SlotNamesDistinct(off: nat, n: nat, a: nat, b: nat)
    requires off <= a < b < n
    ensures SlotName(off, n, a) != SlotName(off, n, b)
    ensures |SlotName(off, n, a)| > 3
    ensures SlotName(off, n, b) == "" || |SlotName(off, n, b)| > 3
  {
    var pa, pb := a - off, b - off;
    var kindA := if pa % 2 == 0 then "date" else "result";
    var kindB := if pb % 2 == 0 then "date" else "result";
    if pb < 2 * ((n - off) / 2) {
      if kindA == kindB {
        if ColumnName(kindA, pa / 2) == ColumnName(kindB, pb / 2) {
          ColumnNameInjective(kindA, pa / 2, pb / 2);
        }
      } else if kindA == "date" {
        DateIsNotResult(pa / 2, pb / 2);
      } else {
        DateIsNotResult(pb / 2, pa / 2);
      }
    }
  }

  /** The header of a test row names every slot differently, so zipping it with the row loses
      no field. */
  lemma TestHeaderDistinct(header: seq<string>)
    requires 2 <= |header| && header[..2] == ["age", "sex"] && PairedLayout(header, 2)
    ensures forall a, b :: 0 <= a < b < |header| ==> header[a] != header[b]
  {
    forall a, b | 0 <= a < b < |header| ensures header[a] != header[b] {
      assert header[0] == "age" && header[1] == "sex";
      if b >= 2 {
        SlotNameOfLayout(header, 2, b);
        if a >= 2 {
          SlotNameOfLayout(header, 2, a);
          SlotNamesDistinct(2, |header|, a, b);
        } else if SlotName(2, |header|, b) != "" {
          assert |SlotName(2, |header|, b)| > 3;
        }
      }
    }
  }

  // ---------------------------------------------------------------------------
  // Test-row filter and zip

  /** Fields a test row drops: empty cells and the two label tokens. */
  predicate IsDroppedField(d: string)
  {
    d == "" || d == "y" || d == "n"
  }

  /** The filter of `prepare_test_data`, as its list comprehension. */
  function KeepFields(data: seq<string>): (kept: seq<string>)
    ensures |kept| <= |data|
    ensures forall x :: x in kept ==> x in data && !IsDroppedField(x)
  {
    if data == [] then []
    else
      var rest := KeepFields(data[1..]);
      assert forall x :: x in rest ==> x in data;
      (if IsDroppedField(data[0]) then [] else [data[0]]) + rest
  }

  /** Filtering a concatenation filters each part, so kept fields stay in their original order. */
  lemma {:induction false} KeepFieldsAppend(a: seq<string>, b: seq<string>)
    ensures KeepFields(a + b) == KeepFields(a) + KeepFields(b)
  {
    if a == [] {
      assert a + b == b;
    } else {
      assert (a + b)[0] == a[0] && (a + b)[1..] == a[1..] + b;
      KeepFieldsAppend(a[1..], b);
    }
  }

  /** Every field that is not dropped is kept as often as it occurs; dropped ones never are. */
  lemma {:induction false} KeepFieldsCounts(data: seq<string>)
    ensures forall x :: multiset(KeepFields(data))[x] == if IsDroppedField(x) then 0 else multiset(data)[x]
  {
    if data != [] {
      KeepFieldsCounts(data[1..]);
      assert data == [data[0]] + data[1..];
    }
  }

  /** A row whose fields are all kept passes the filter unchanged. */
  lemma {:induction false} KeepFieldsOfClean(data: seq<string>)
    requires forall x :: x in data ==> !IsDroppedField(x)
    ensures KeepFields(data) == data
  {
    if data != [] {
      assert data[0] in data;
      assert forall x :: x in data[1..] ==> x in data;
      KeepFieldsOfClean(data[1..]);
    }
  }

  /** Filtering a training row (age, sex, label, tests...) removes exactly the label, so the row
      becomes the test row of the same patient. */
  lemma StrippingTheLabel(age: string, sex: string, aki: string, tests: seq<string>)
    requires aki == "y" || aki == "n"
    requires !IsDroppedField(age) && !IsDroppedField(sex)
    requires forall x :: x in tests ==> !IsDroppedField(x)
    ensures KeepFields([age, sex, aki] + tests) == [age, sex] + tests
  {
    KeepFieldsAppend([age, sex, aki], tests);
    KeepFieldsOfClean(tests);
    KeepFieldsAppend([age, sex], [aki]);
    assert [age, sex, aki] == [age, sex] + [aki];
    KeepFieldsOfClean([age, sex]);
  }

  /** Lines 207-214 of `prepare_test_data`: filter the raw row, lay out a test header for the
      filtered length, and zip header and fields into the patient record. */
  method PrepareTestFields(data: seq<string>) returns (fields: seq<string>, header: seq<string>, record: map<string, string>)
    ensures fields == KeepFields(data)
    ensures |fields| < 2 ==> header == ["age", "sex"]
    ensures |fields| >= 2 ==> |header| == |fields| && header[..2] == ["age", "sex"] && PairedLayout(header, 2)
    ensures forall k :: 0 <= k < |fields| && k < |header| ==> header[k] in record && record[header[k]] == fields[k]
    ensures forall key :: key in record ==> exists k :: 0 <= k < |fields| && k < |header| && header[k] == key
  {
    fields := [];
    var n := 0;
    while n < |data|
      invariant n <= |data| && fields == KeepFields(data[..n])
    {
      KeepFieldsAppend(data[..n], [data[n]]);
      assert data[..n + 1] == data[..n] + [data[n]];
      if data[n] != "" && data[n] != "y" && data[n] != "n" {
        fields := fields + [data[n]];
      }
      n := n + 1;
    }
    assert data[..|data|] == data;
    header := GetHeader(|fields|, TestMode);
    TestHeaderDistinct(header);
    var count := if |fields| < |header| then |fields| else |header|;
    record := map[];
    var k := 0;
    while k < count
      invariant k <= count
      invariant forall q :: 0 <= q < k ==> header[q] in record && record[header[q]] == fields[q]
      invariant forall key :: key in record ==> exists q :: 0 <= q < k && header[q] == key
    {
      record := record[header[k] := fields[k]];
      k := k + 1;
    }
  }

  // ---------------------------------------------------------------------------
  // Patient records

  /** One creatinine test: its timestamp (nanoseconds) and its result. */
  datatype Measurement = Measurement(date: int, result: real)

  /** A patient as the feature extraction sees it: the raw age, the sex token, the training label
      when the row has one, and the tests in column order. */
  datatype Patient = Patient(age: string, sex: string, aki: Option<string>, tests: seq<Measurement>)

  function Results(tests: seq<Measurement>): (rs: seq<real>)
    ensures |rs| == |tests| && forall i :: 0 <= i < |tests| ==> rs[i] == tests[i].result
  {
    seq(|tests|, i requires 0 <= i < |tests| => tests[i].result)
  }

  function Dates(tests: seq<Measurement>): (ds: seq<int>)
    ensures |ds| == |tests| && forall i :: 0 <= i < |tests| ==> ds[i] == tests[i].date
  {
    seq(|tests|, i requires 0 <= i < |tests| => tests[i].date)
  }

  predicate DatesAscending(tests: seq<Measurement>)
  {
    forall i, j :: 0 <= i < j < |tests| ==> tests[i].date <= tests[j].date
  }

  // ---------------------------------------------------------------------------
  // The 48-hour window

  /** The change D and the span the source returns with it; WindowFailed is the (-1, -1) of the
      caught exception. */
  datatype Window = Window(span: int, delta: real) | WindowFailed

  /** Test k lies within 48 hours before the newest test. */
  predicate InWindow(tests: seq<Measurement>, k: nat)
    requires k < |tests|
  {
    tests[|tests| - 1].date - tests[k].date <= TwoDays
  }

  /** Results of the tests at positions lo .. |tests|-2 that lie in the window, newest first. */
  function UsableResults(tests: seq<Measurement>, lo: nat): seq<real>
    requires lo < |tests|
    decreases |tests| - lo
  {
    if lo == |tests| - 1 then []
    else UsableResults(tests, lo + 1) + if InWindow(tests, lo) then [tests[lo].result] else []
  }

  /** The usable results are exactly the results of the earlier tests inside the window. */
  lemma {:induction false} UsableResultsMembers(tests: seq<Measurement>, lo: nat)
    requires lo < |tests|
    ensures forall x :: x in UsableResults(tests, lo) <==>
              exists k :: lo <= k < |tests| - 1 && InWindow(tests, k) && tests[k].result == x
    decreases |tests| - lo
  {
    if lo < |tests| - 1 {
      UsableResultsMembers(tests, lo + 1);
    }
  }

  /** What `get_change_in_last_two_days` returns: no tests fail; a single test, or no earlier
      test within 48 hours of the newest, give (0, 0); otherwise D is the newest result minus the
      lowest earlier result in the window (signed), and the span is newest minus oldest date. */
  function WindowChange(tests: seq<Measurement>): (w: Window)
    ensures w.WindowFailed? <==> tests == []
    ensures |tests| == 1 ==> w == Window(0, 0.0)
    ensures |tests| >= 2 && (forall k :: 0 <= k < |tests| - 1 ==> !InWindow(tests, k)) ==> w == Window(0, 0.0)
    ensures |tests| >= 2 && (exists k :: 0 <= k < |tests| - 1 && InWindow(tests, k)) ==>
              && w.Window?
              && w.span == tests[|tests| - 1].date - tests[0].date
              && (forall k :: 0 <= k < |tests| - 1 && InWindow(tests, k) ==>
                    w.delta >= tests[|tests| - 1].result - tests[k].result)
              && (exists k :: 0 <= k < |tests| - 1 && InWindow(tests, k) &&
                    w.delta == tests[|tests| - 1].result - tests[k].result)
  {
    if tests == [] then WindowFailed
    else if |tests| < 2 then Window(0, 0.0)
    else
      var usable := UsableResults(tests, 0);
      UsableResultsMembers(tests, 0);
      assert forall k :: 0 <= k < |tests| - 1 && InWindow(tests, k) ==> tests[k].result in usable;
      if usable == [] then Window(0, 0.0)
      else
        var low := MinOf(usable);
        assert exists k :: 0 <= k < |tests| - 1 && InWindow(tests, k) && tests[k].result == low;
        Window(tests[|tests| - 1].date - tests[0].date, tests[|tests| - 1].result - low)
  }

  /** `get_change_in_last_two_days`: walks back from the newest test adding up the gaps between
      neighbours and keeps each result while the running total is at most 48 hours. The total
      telescopes to the gap from the newest test, and the walk never stops early. */
  method GetChangeInLastTwoDays(tests: seq<Measurement>) returns (w: Window)
    ensures w == WindowChange(tests)
  {
    if tests == [] {
      return WindowFailed;
    }
    var n := |tests|;
    var elapsed := 0;
    var usable := [tests[n - 1].result];
    if n < 2 {
      return Window(0, 0.0);
    }
    var t := n - 1;
    while t > 0
      invariant 0 <= t <= n - 1
      invariant elapsed == tests[n - 1].date - tests[t].date
      invariant usable == [tests[n - 1].result] + UsableResults(tests, t)
    {
      t := t - 1;
      elapsed := elapsed + (tests[t + 1].date - tests[t].date);
      if elapsed <= TwoDays {
        usable := usable + [tests[t].result];
      }
      assert usable == [tests[n - 1].result] + UsableResults(tests, t);
    }
    assert usable[1..] == UsableResults(tests, 0);
    if |usable| < 2 {
      return Window(0, 0.0);
    }
    w := Window(elapsed, usable[0] - MinOf(usable[1..]));
  }

  /** With dates in ascending order, the tests in the window form a contiguous run ending just
      before the newest test. */
  lemma AscendingWindowIsSuffix(tests: seq<Measurement>)
    requires |tests| > 0 && DatesAscending(tests)
    ensures forall k :: 0 <= k < |tests| - 1 ==> (InWindow(tests, k) <==> FirstInWindow(tests, 0) <= k)
  {
    var lo := FirstInWindow(tests, 0);
    forall k | 0 <= k < |tests| - 1 ensures InWindow(tests, k) <==> lo <= k {
      if lo <= k {
        assert lo < |tests| - 1 && InWindow(tests, lo);
        assert tests[lo].date <= tests[k].date;
      }
    }
  }

  /** Position of the first test at or after `from` that lies in the window (the newest test's
      position when none does). */
  function FirstInWindow(tests: seq<Measurement>, from: nat): (lo: nat)
    requires from <= |tests| - 1
    ensures from <= lo <= |tests| - 1
    ensures forall k :: from <= k < lo ==> !InWindow(tests, k)
    ensures lo < |tests| - 1 ==> InWindow(tests, lo)
    decreases |tests| - from
  {
    if from == |tests| - 1 || InWindow(tests, from) then from else FirstInWindow(tests, from + 1)
  }

  /** Tests one and two days before a newest result of 2.0: the window keeps only the 1.2 taken
      48 hours earlier, so D = 0.8, and the span reported is the full 72 hours. */
  lemma WindowOfThreeTests()
    ensures WindowChange([Measurement(0, 1.0), Measurement(Day, 1.2), Measurement(3 * Day, 2.0)]) == Window(3 * Day, 0.8)
  {
    var tests := [Measurement(0, 1.0), Measurement(Day, 1.2), Measurement(3 * Day, 2.0)];
    assert !InWindow(tests, 0) && InWindow(tests, 1);
    assert UsableResults(tests, 2) == [];
    assert UsableResults(tests, 1) == [1.2];
    assert UsableResults(tests, 0) == [1.2];
    assert MinOf([1.2]) == 1.2;
  }

  /** Dates out of order: the running total passes 48 hours at the middle test and comes back
      under it at the first, whose result is still used. */
  lemma WindowKeepsWalkingPastALargeGap()
    ensures WindowChange([Measurement(2 * Day, 1.0), Measurement(-Day, 0.5), Measurement(3 * Day, 2.0)]) == Window(Day, 1.0)
  {
    var tests := [Measurement(2 * Day, 1.0), Measurement(-Day, 0.5), Measurement(3 * Day, 2.0)];
    assert InWindow(tests, 0) && !InWindow(tests, 1);
    assert UsableResults(tests, 2) == [];
    assert UsableResults(tests, 1) == [];
    assert UsableResults(tests, 0) == [1.0];
    assert MinOf([1.0]) == 1.0;
  }

  // ---------------------------------------------------------------------------
  // RV ratio

  /** The RV ratio: a quotient, the source's division by a zero reference value (inf or nan in
      numpy, made explicit here), or no value at all (the function's fall-through returning
      None). */
  datatype Ratio = Finite(value: real) | DivisionByZero | NoBand

  function Divide(x: real, y: real): (r: Ratio)
    ensures r.Finite? <==> y != 0.0
    ensures r.Finite? ==> r.value * y == x
    ensures !r.NoBand?
  {
    if y == 0.0 then DivisionByZero else Finite(x / y)
  }

  /** The exact gap between the two most recent test dates; 0 with fewer than two dates. */
  function LastGap(dates: seq<int>): int
  {
    if |dates| <= 1 then 0 else dates[|dates| - 1] - dates[|dates| - 2]
  }

  /** `calculate_rv_ratio`: the newest result over the lowest result when the previous test is at
      most 7 days older, over the median when it is at most 365 days older, 0 beyond that, and no
      value when the previous test is newer than the last (a negative gap). */
  function CalculateRvRatio(c1: real, rv1: real, rv2: real, dates: seq<int>): (r: Ratio)
    ensures r.NoBand? <==> LastGap(dates) < 0
    ensures |dates| <= 1 ==> r == Divide(c1, rv1)
    ensures 0 <= LastGap(dates) <= SevenDays ==> r == Divide(c1, rv1)
    ensures SevenDays < LastGap(dates) <= Year ==> r == Divide(c1, rv2)
    ensures Year < LastGap(dates) ==> r == Finite(0.0)
  {
    var elapsed := LastGap(dates);
    if 0 <= elapsed <= SevenDays then Divide(c1, rv1)
    else if SevenDays < elapsed <= Year then Divide(c1, rv2)
    else if elapsed > Year then Finite(0.0)
    else NoBand
  }

  /** The gap is compared as an exact duration: one nanosecond past seven days already selects the
      median although the whole-day part is still 7. */
  lemma RvRatioUsesExactGap(c1: real, rv1: real, rv2: real)
    ensures WholeDays(SevenDays + 1) == 7
    ensures CalculateRvRatio(c1, rv1, rv2, [0, SevenDays]) == Divide(c1, rv1)
    ensures CalculateRvRatio(c1, rv1, rv2, [0, SevenDays + 1]) == Divide(c1, rv2)
    ensures CalculateRvRatio(c1, rv1, rv2, [0, Year]) == Divide(c1, rv2)
    ensures CalculateRvRatio(c1, rv1, rv2, [0, Year + 1]) == Finite(0.0)
  {
  }

  // ---------------------------------------------------------------------------
  // Feature assembly

  /** The feature vector, in the source's order (sex, age, c1, rv1, rv2, rv_ratio, D). */
  datatype Features = Features(sex: int, age: string, c1: real, rv1: real, rv2: real, rvRatio: Ratio, delta: real)

  /** The only local failure of the extraction: a patient without results (`iloc[-1]` raises). */
  datatype FeatureError = NoResults

  /** `extract_patient_features`: c1 is the newest result, rv1 the lowest, rv2 the median; sex is
      1 for "f"; the ratio and D come from the test dates and results. */
  function ExtractPatientFeatures(p: Patient): (r: Result<Features, FeatureError>)
    ensures r.Failure? <==> p.tests == []
    ensures r.Success? ==>
              var f := r.value;
              var results := Results(p.tests);
              && f.c1 == p.tests[|p.tests| - 1].result
              && f.rv1 in results && (forall x :: x in results ==> f.rv1 <= x)
              && f.rv1 <= f.rv2 <= MaxOf(results)
              && f.rv2 == Median(results)
              && (f.sex == 1 <==> p.sex == "f") && (f.sex == 0 <==> p.sex != "f")
              && f.age == p.age
              && f.rvRatio == CalculateRvRatio(f.c1, f.rv1, f.rv2, Dates(p.tests))
              && WindowChange(p.tests) == Window(WindowChange(p.tests).span, f.delta)
  {
    if p.tests == [] then Failure(NoResults)
    else
      var results := Results(p.tests);
      var c1 := results[|results| - 1];
      var rv1 := MinOf(results);
      var rv2 := Median(results);
      var rvRatio := CalculateRvRatio(c1, rv1, rv2, Dates(p.tests));
      var delta := match WindowChange(p.tests) case Window(_, d) => d case WindowFailed => -1.0;
      Success(Features(ToBinary(p.sex, "f"), p.age, c1, rv1, rv2, rvRatio, delta))
  }

  /** What `process_patient_data` returns: the features with the 0/1 label in training mode, the
      features alone otherwise, and ([], -1) or [] when the record fails. */
  datatype Processed = TrainRow(features: Features, aki: int) | TestRow(features: Features) | TrainFailed | TestFailed

  /** `process_patient_data`: any data type other than "train" is test mode; a failing record
      (no results, or no aki field in training mode) yields the failure value instead of raising. */
  function ProcessPatientData(p: Patient, dataType: string): (o: Processed)
    ensures dataType == TrainMode ==> o.TrainRow? || o.TrainFailed?
    ensures dataType != TrainMode ==> o.TestRow? || o.TestFailed?
    ensures o.TrainRow? <==> dataType == TrainMode && p.tests != [] && p.aki.Some?
    ensures o.TestRow? <==> dataType != TrainMode && p.tests != []
    ensures o.TrainRow? ==> (o.aki == 0 || o.aki == 1) && (o.aki == 1 <==> p.aki == Some("y"))
    ensures o.TrainRow? || o.TestRow? ==> ExtractPatientFeatures(p) == Success(o.features)
  {
    match ExtractPatientFeatures(p)
    case Failure(_) => if dataType == TrainMode then TrainFailed else TestFailed
    case Success(f) =>
      if dataType == TrainMode then
        match p.aki
        case Some(token) => TrainRow(f, ToBinary(token, "y"))
        case None => TrainFailed
      else TestRow(f)
  }

  /** Training and test mode compute the same features; the label is the only difference. */
  lemma TrainAndTestAgree(p: Patient)
    requires p.aki.Some?
    ensures ProcessPatientData(p, TrainMode).TrainFailed? <==> ProcessPatientData(p, TestMode).TestFailed?
    ensures ProcessPatientData(p, TrainMode).TrainRow? ==>
              ProcessPatientData(p, TestMode) == TestRow(ProcessPatientData(p, TrainMode).features)
  {
  }

  /** A patient with a single non-zero result: c1, rv1 and rv2 are that result, the ratio falls
      in the first band and is 1, and D is 0. */
  lemma SingleTestFeatures(p: Patient)
    requires |p.tests| == 1 && p.tests[0].result != 0.0
    ensures ExtractPatientFeatures(p).Success?
    ensures var f := ExtractPatientFeatures(p).value;
              f.c1 == f.rv1 == f.rv2 == p.tests[0].result && f.rvRatio == Finite(1.0) && f.delta == 0.0
  {
    var results := Results(p.tests);
    assert results == [p.tests[0].result];
  }

  /** The newest result, not the largest: two patients with the same results in opposite order
      get different c1 whenever the first and last results differ. */
  lemma C1IsNewestNotLargest(p: Patient, q: Patient, x: real, y: real)
    requires p.tests == [Measurement(0, x), Measurement(Day, y)] && q.tests == [Measurement(0, y), Measurement(Day, x)]
    requires x != y
    ensures ExtractPatientFeatures(p).value.c1 != ExtractPatientFeatures(q).value.c1
    ensures ExtractPatientFeatures(p).value.rv1 == ExtractPatientFeatures(q).value.rv1
  {
    assert Results(p.tests) == [x, y] && Results(q.tests) == [y, x];
  }

  // ---------------------------------------------------------------------------
  // The processed test record

  /** What the labelling of a processed test record yields: the named feature record, a rejected
      record, or an uncaught exception. */
  datatype Prepared = Prepared(features: Features) | Rejected | Crashed

  /** The last step of `prepare_test_data` as written: `.rename` is called on whatever
      `process_patient_data` returned, and the `[]` of a failed record has no such method. */
  function PrepareTestRecordAsWritten(p: Patient): (r: Prepared)
    ensures r.Prepared? <==> p.tests != []
    ensures r.Crashed? <==> p.tests == []
  {
    match ProcessPatientData(p, TestMode)
    case TestRow(f) => Prepared(f)
    case _ => Crashed
  }

  /** A test row without creatinine fields makes the record fail, and the failure value then
      raises instead of being handed back. */
  lemma RecordWithoutResultsCrashes()
    ensures PrepareTestRecordAsWritten(Patient("40", "m", None, [])) == Crashed
  {
  }

  /** The last step of `prepare_test_data` as evidently intended: a failed record stays a
      rejection, as `process_patient_data` meant it to be. */
  function PrepareTestRecord(p: Patient): (r: Prepared)
    ensures !r.Crashed?
    ensures r.Rejected? <==> p.tests == []
  {
    match ProcessPatientData(p, TestMode)
    case TestRow(f) => Prepared(f)
    case _ => Rejected
  }

  /** The corrected step never raises, labels exactly the records with results, and agrees with
      the code as written on every record it does label. */
  lemma PrepareTestRecordNeverCrashes(p: Patient)
    ensures !PrepareTestRecord(p).Crashed?
    ensures PrepareTestRecord(p).Prepared? <==> p.tests != []
    ensures PrepareTestRecord(p).Prepared? ==>
              PrepareTestRecord(p) == PrepareTestRecordAsWritten(p) &&
              ExtractPatientFeatures(p) == Success(PrepareTestRecord(p).features)
  {
  }
}
