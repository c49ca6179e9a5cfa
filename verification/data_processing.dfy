/** data_processing.py: the second, simpler feature set over a whole table of patients. */
module DataProcessing {
  import opened Outcomes
  import opened Durations
  import opened Naming
  import opened Statistics
  import Utils

  /** One cell of a table: a number, a timestamp (nanoseconds), text, or missing (NaN / NaT). */
  datatype Cell = Missing | Number(x: real) | Timestamp(t: int) | Text(s: string)

  predicate Distinct(s: seq<string>)
  {
    forall i, j :: 0 <= i < j < |s| ==> s[i] != s[j]
  }

  /** A pandas DataFrame: named columns in order, each holding one cell per row. */
  class DataFrame {
    var columns: seq<string>
    var table: map<string, seq<Cell>>
    var height: nat

    ghost predicate Valid()
      reads this
    {
      && (forall c :: c in table <==> c in columns)
      && Distinct(columns)
      && (forall c :: c in table ==> |table[c]| == height)
    }

    constructor (columns: seq<string>, table: map<string, seq<Cell>>, height: nat)
      requires forall c :: c in table <==> c in columns
      requires Distinct(columns)
      requires forall c :: c in table ==> |table[c]| == height
      ensures Valid()
      ensures this.columns == columns && this.table == table && this.height == height
    {
      this.columns := columns;
      this.table := table;
      this.height := height;
    }
  }

  /** `get_creatinine_dataframe_columns(total_tests, col_type)`: the names of the first
      `total_tests` date or result columns, in index order, all different. */
  method GetCreatinineDataframeColumns(totalTests: int, colType: string) returns (columns: seq<string>)
    ensures |columns| == if totalTests > 0 then totalTests else 0
    ensures forall i :: 0 <= i < |columns| ==> columns[i] == ColumnName(colType, i)
    ensures Distinct(columns)
  {
    columns := [];
    var i := 0;
    while i < totalTests
      invariant 0 <= i && |columns| == i
      invariant i <= if totalTests > 0 then totalTests else 0
      invariant forall k :: 0 <= k < i ==> columns[k] == ColumnName(colType, k)
    {
      columns := columns + [ColumnName(colType, i)];
      i := i + 1;
    }
    forall a, b | 0 <= a < b < |columns| ensures columns[a] != columns[b] {
      if columns[a] == columns[b] {
        ColumnNameInjective(colType, a, b);
      }
    }
  }

  /** The one-argument `to_binary`: 1 for "y" (aki) and "f" (sex), 0 for anything else. */
  function ToBinary(x: string): (b: int)
    ensures b == 0 || b == 1
    ensures b == 1 <==> x == "y" || x == "f"
  {
    if x == "y" then 1
    else if x == "f" then 1
    else 0
  }

  /** It is the two-argument conversion of utils.py for the aki token and the sex token at once. */
  lemma ToBinaryMergesTokens(x: string)
    ensures ToBinary(x) == Utils.ToBinary(x, "y") + Utils.ToBinary(x, "f")
  {
  }

  /** `f'elapsed_exam_{prev}-{next}'`. */
  function ElapsedName(prev: nat, next: nat): string
  {
    "elapsed_exam_" + NatToString(prev) + "-" + NatToString(next)
  }

  /** Whole days from an earlier to a later timestamp cell; NaT when either is missing. */
  function DayGap(earlier: Cell, later: Cell): (gap: Option<int>)
    ensures gap.Some? <==> earlier.Timestamp? && later.Timestamp?
    ensures gap.Some? ==> gap.value * Day <= later.t - earlier.t < (gap.value + 1) * Day
  {
    if earlier.Timestamp? && later.Timestamp? then Some(WholeDays(later.t - earlier.t)) else None
  }

  /** A column of the elapsed-days table. */
  datatype ElapsedColumn = ElapsedColumn(name: string, days: seq<Option<int>>)

  /** `calculate_elapsed_time`: one column per pair of consecutive tests, keyed
      `elapsed_exam_{i}-{i+1}` and holding, row by row, the whole days from test i to test i+1.
      A date column missing from the table is the KeyError (None). */
  method CalculateElapsedTime(df: DataFrame, totalTests: int) returns (elapsed: Option<seq<ElapsedColumn>>)
    requires df.Valid()
    ensures elapsed.None? <==> totalTests >= 2 && exists i :: 0 <= i < totalTests && ColumnName("date", i) !in df.table
    ensures elapsed.Some? ==>
              && |elapsed.value| == (if totalTests >= 2 then totalTests - 1 else 0)
              && forall i :: 0 <= i < |elapsed.value| ==>
                   && elapsed.value[i].name == ElapsedName(i, i + 1)
                   && |elapsed.value[i].days| == df.height
                   && forall r :: 0 <= r < df.height ==>
                        elapsed.value[i].days[r] ==
                          DayGap(df.table[ColumnName("date", i)][r], df.table[ColumnName("date", i + 1)][r])
  {
    var columns := GetCreatinineDataframeColumns(totalTests, "date");
    var differences: seq<ElapsedColumn> := [];
    var prev := 0;
    var next := 1;
    while next < totalTests
      invariant 1 <= next && prev == next - 1
      invariant next <= if totalTests >= 2 then totalTests else 1
      invariant |differences| == next - 1
      invariant next >= 2 ==> forall q :: 0 <= q < next ==> ColumnName("date", q) in df.table
      invariant forall i :: 0 <= i < |differences| ==>
                  && differences[i].name == ElapsedName(i, i + 1)
                  && |differences[i].days| == df.height
                  && forall r :: 0 <= r < df.height ==>
                       differences[i].days[r] ==
                         DayGap(df.table[ColumnName("date", i)][r], df.table[ColumnName("date", i + 1)][r])
    {
      if columns[next] !in df.table || columns[prev] !in df.table {
        return None;
      }
      var later := df.table[columns[next]];
      var earlier := df.table[columns[prev]];
      var height := df.height;
      var days := seq(height, r requires 0 <= r < height => DayGap(earlier[r], later[r]));
      differences := differences + [ElapsedColumn(ElapsedName(prev, next), days)];
      prev := next;
      next := next + 1;
    }
    elapsed := Some(differences);
  }

  /** Minimum, mean and maximum of one row; NaN (None) when the row has no number. */
  datatype RowStats = RowStats(minimum: Option<real>, average: Option<real>, maximum: Option<real>)

  function StatsOf(values: seq<real>): (s: RowStats)
    ensures s.minimum.Some? <==> values != []
    ensures s.average.Some? <==> values != []
    ensures s.maximum.Some? <==> values != []
    ensures values != [] ==>
              && s.minimum.value <= s.average.value <= s.maximum.value
              && s.minimum.value in values && s.maximum.value in values
              && forall x :: x in values ==> s.minimum.value <= x <= s.maximum.value
  {
    if values == [] then RowStats(None, None, None)
    else RowStats(Some(MinOf(values)), Some(Mean(values)), Some(MaxOf(values)))
  }

  /** The numbers in row `r` of the first `n` result columns (pandas skips NaN). */
  function RowResults(df: DataFrame, n: nat, r: nat): seq<real>
    reads df
    requires df.Valid() && r < df.height
  {
    if n == 0 then []
    else
      var column := ColumnName("result", n - 1);
      RowResults(df, n - 1, r) +
        if column in df.table && df.table[column][r].Number? then [df.table[column][r].x] else []
  }

  /** A value is among a row's results exactly when one of the first `n` result cells holds it. */
  lemma {:induction false} RowResultsMembers(df: DataFrame, n: nat, r: nat)
    requires df.Valid() && r < df.height
    ensures forall x :: x in RowResults(df, n, r) <==>
              exists i :: 0 <= i < n && ColumnName("result", i) in df.table && df.table[ColumnName("result", i)][r] == Number(x)
  {
    if n > 0 {
      RowResultsMembers(df, n - 1, r);
    }
  }

  /** The statistics of row `r` over the first `n` result columns: present exactly when some of
      those cells holds a number, and then bounding every such number. */
  function RowStatsOf(df: DataFrame, n: nat, r: nat): (s: RowStats)
    reads df
    requires df.Valid() && r < df.height
    requires forall i :: 0 <= i < n ==> ColumnName("result", i) in df.table
    ensures s.minimum.Some? <==> exists i :: 0 <= i < n && df.table[ColumnName("result", i)][r].Number?
    ensures s.average.Some? == s.minimum.Some? && s.maximum.Some? == s.minimum.Some?
    ensures s.minimum.Some? ==> s.minimum.value <= s.average.value <= s.maximum.value
    ensures forall i :: 0 <= i < n && df.table[ColumnName("result", i)][r].Number? ==>
              s.minimum.Some? && s.minimum.value <= df.table[ColumnName("result", i)][r].x <= s.maximum.value
    ensures s.minimum.Some? <==> RowResults(df, n, r) != []
    ensures s.minimum.Some? ==>
              && (exists i :: 0 <= i < n && df.table[ColumnName("result", i)][r] == Number(s.minimum.value))
              && (exists i :: 0 <= i < n && df.table[ColumnName("result", i)][r] == Number(s.maximum.value))
              && s.average.value == Mean(RowResults(df, n, r))
  {
    RowResultsMembers(df, n, r);
    var values := RowResults(df, n, r);
    assert forall i :: 0 <= i < n && df.table[ColumnName("result", i)][r].Number? ==>
             df.table[ColumnName("result", i)][r].x in values;
    StatsOf(values)
  }

  /** `get_creatinine_stats`: for every row, the minimum, mean and maximum over the same
      `total_tests` result columns, so min <= mean <= max. A missing result column is the
      KeyError (None). */
  function GetCreatinineStats(df: DataFrame, totalTests: int): (stats: Option<seq<RowStats>>)
    reads df
    requires df.Valid()
    ensures stats.None? <==> exists i :: 0 <= i < totalTests && ColumnName("result", i) !in df.table
    ensures stats.Some? ==>
              && |stats.value| == df.height
              && forall r :: 0 <= r < df.height ==>
                   var s := stats.value[r];
                   && (s.minimum.Some? <==> exists i :: 0 <= i < totalTests && df.table[ColumnName("result", i)][r].Number?)
                   && s.average.Some? == s.minimum.Some? && s.maximum.Some? == s.minimum.Some?
                   && (s.minimum.Some? ==> s.minimum.value <= s.average.value <= s.maximum.value)
                   && (forall i :: 0 <= i < totalTests && df.table[ColumnName("result", i)][r].Number? ==>
                         s.minimum.Some? && s.minimum.value <= df.table[ColumnName("result", i)][r].x <= s.maximum.value)
                   && (s.minimum.Some? ==>
                         && (exists i :: 0 <= i < totalTests && df.table[ColumnName("result", i)][r] == Number(s.minimum.value))
                         && (exists i :: 0 <= i < totalTests && df.table[ColumnName("result", i)][r] == Number(s.maximum.value)))
                   && (totalTests > 0 ==> (s.minimum.Some? <==> RowResults(df, totalTests, r) != []))
                   && (totalTests > 0 && s.minimum.Some? ==> s.average.value == Mean(RowResults(df, totalTests, r)))
  {
    if exists i :: 0 <= i < totalTests && ColumnName("result", i) !in df.table then None
    else
      var n: nat := if totalTests > 0 then totalTests else 0;
      Some(seq(df.height, r requires 0 <= r < df.height && df.Valid() && forall i :: 0 <= i < n ==> ColumnName("result", i) in df.table
                            reads df => RowStatsOf(df, n, r)))
  }

  /** `columns` without `name`, the others in their order. */
  function Without(columns: seq<string>, name: string): (rest: seq<string>)
    ensures forall c :: c in rest <==> c in columns && c != name
    ensures Distinct(columns) ==> Distinct(rest)
  {
    if columns == [] then []
    else
      var tail := Without(columns[1..], name);
      assert forall c :: c in columns[1..] ==> c in columns;
      assert Distinct(columns) ==> columns[0] !in columns[1..];
      (if columns[0] == name then [] else [columns[0]]) + tail
  }

  /** Removing a column that occurs once leaves the columns before and after it in place. */
  lemma {:induction false} WithoutRemovesOne(columns: seq<string>, k: nat)
    requires Distinct(columns) && k < |columns|
    ensures Without(columns, columns[k]) == columns[..k] + columns[k + 1..]
  {
    if k > 0 {
      WithoutRemovesOne(columns[1..], k - 1);
      assert columns[1..][k - 1] == columns[k];
      assert columns[1..][..k - 1] == columns[1..k];
      assert columns[1..][k..] == columns[k + 1..];
      assert columns[..k] == [columns[0]] + columns[1..k];
    } else {
      WithoutAbsent(columns[1..], columns[0]);
    }
  }

  lemma {:induction false} WithoutAbsent(columns: seq<string>, name: string)
    requires name !in columns
    ensures Without(columns, name) == columns
  {
    if columns != [] {
      WithoutAbsent(columns[1..], name);
    }
  }

  /** `format_data`: takes out the aki column and drops it from the frame in place, leaving every
      other column and its cells unchanged. A frame without an aki column is the KeyError (None)
      and stays as it was. */
  method FormatData(df: DataFrame) returns (frame: DataFrame, aki: Option<seq<Cell>>)
    requires df.Valid()
    modifies df
    ensures frame == df && df.Valid()
    ensures aki.None? <==> "aki" !in old(df.table)
    ensures aki.Some? ==> aki.value == old(df.table)["aki"]
    ensures df.table == old(df.table) - {"aki"}
    ensures df.columns == Without(old(df.columns), "aki")
    ensures df.height == old(df.height)
  {
    frame := df;
    if "aki" !in df.table {
      WithoutAbsent(df.columns, "aki");
      return frame, None;
    }
    aki := Some(df.table["aki"]);
    df.columns := Without(df.columns, "aki");
    df.table := df.table - {"aki"};
  }

  /** `process_data`: exactly what `format_data` returns. */
  method ProcessData(df: DataFrame) returns (frame: DataFrame, aki: Option<seq<Cell>>)
    requires df.Valid()
    modifies df
    ensures frame == df && df.Valid()
    ensures aki.None? <==> "aki" !in old(df.table)
    ensures aki.Some? ==> aki.value == old(df.table)["aki"]
    ensures df.table == old(df.table) - {"aki"}
    ensures df.columns == Without(old(df.columns), "aki")
    ensures df.height == old(df.height)
  {
    frame, aki := FormatData(df);
  }
}
