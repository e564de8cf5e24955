/**
 * The profiler: per-column missing counts, dtype inference and the dataset
 * profile (`createDataset` and `analyzeDataset` in lib/datasetTools.ts).
 */
module Profiler {
  import opened Wrappers
  import opened Table
  import opened Types
  import opened Seqs

  /** `typeof value === 'number'`. */
  predicate IsNumber(v: Option<Cell>)
  {
    v.Some? && v.value.Num?
  }

  /** A present string: `typeof value === 'string'` for a value that is not `''`. */
  predicate IsText(v: Option<Cell>)
  {
    v.Some? && v.value.Str? && v.value.text != ""
  }

  /** A present string for which `Date.parse` is not NaN. */
  predicate IsDateText(h: Host, v: Option<Cell>)
  {
    IsText(v) && h.dateParses(v.value.text)
  }

  predicate HasNumbers(rows: seq<Row>, col: string)
  {
    exists i :: 0 <= i < |rows| && IsNumber(Get(rows[i], col))
  }

  predicate HasStrings(rows: seq<Row>, col: string)
  {
    exists i :: 0 <= i < |rows| && IsText(Get(rows[i], col))
  }

  predicate HasDates(h: Host, rows: seq<Row>, col: string)
  {
    exists i :: 0 <= i < |rows| && IsDateText(h, Get(rows[i], col))
  }

  /** The decision on the three flags, tried in this order. */
  function InferDtype(hasNumbers: bool, hasStrings: bool, hasDates: bool): Dtype
  {
    if hasNumbers && !hasStrings then Numeric
    else if hasDates then Datetime
    else if hasStrings then Categorical
    else Unknown
  }

  /** The profiler's full-scan dtype of a column. */
  function ColumnDtype(h: Host, rows: seq<Row>, col: string): Dtype
  {
    InferDtype(HasNumbers(rows, col), HasStrings(rows, col), HasDates(h, rows, col))
  }

  function ColumnInfoOf(h: Host, rows: seq<Row>, col: string): ColumnInfo
  {
    var present := PresentCount(rows, col, |rows|);
    ColumnInfo(col, ColumnDtype(h, rows, col), present, |rows| - present)
  }

  /** `(nullCount / rowCount) * 100`, before the two-decimal rounding. */
  function Percentage(nullCount: nat, rowCount: nat): real
    requires 0 < rowCount
  {
    (nullCount as real / rowCount as real) * 100.0
  }

  /** The report entry `{column, count, percentage}` of a column with a missing cell. */
  function MissingEntry(info: ColumnInfo, rowCount: nat): MissingValue
    requires 0 < info.nullCount <= rowCount
  {
    MissingValue(info.name, info.nullCount, Percentage(info.nullCount, rowCount))
  }

  /** The missing-value report: the columns with a missing cell, in column order. */
  function MissingReport(infos: seq<ColumnInfo>, rowCount: nat): seq<MissingValue>
    requires forall k :: 0 <= k < |infos| ==> infos[k].nullCount <= rowCount
  {
    if |infos| == 0 then []
    else
      var last := infos[|infos| - 1];
      MissingReport(infos[..|infos| - 1], rowCount)
        + if last.nullCount > 0 then [MissingEntry(last, rowCount)] else []
  }

  /** The positions of the columns that have a missing cell, in increasing order. */
  ghost function MissingPositions(infos: seq<ColumnInfo>): (idx: seq<nat>)
    ensures forall k :: 0 <= k < |idx| ==> idx[k] < |infos| && 0 < infos[idx[k]].nullCount
  {
    if |infos| == 0 then []
    else MissingPositions(infos[..|infos| - 1]) + if infos[|infos| - 1].nullCount > 0 then [|infos| - 1] else []
  }

  /** The profile of `rows` over `columns`. */
  function Profile(h: Host, rows: seq<Row>, columns: seq<string>): DatasetInfo
  {
    var infos := seq(|columns|, k requires 0 <= k < |columns| => ColumnInfoOf(h, rows, columns[k]));
    DatasetInfo(
      (|rows|, |columns|),
      infos,
      MissingReport(infos, |rows|),
      seq(|columns|, k requires 0 <= k < |columns| => DataType(columns[k], infos[k].dtype)))
  }

  /** `Object.keys(data[0])`, or no columns for an empty table. */
  function FirstRowKeys(data: seq<Row>): seq<string>
  {
    if |data| > 0 then data[0].keys else []
  }

  /** The dataset `createDataset(name, data)` builds. */
  function NewDataset(h: Host, name: string, data: seq<Row>): Dataset
  {
    var columns := FirstRowKeys(data);
    Dataset(name, data, columns, Profile(h, data, columns), false)
  }

  /** The body of `analyzeDataset` for one column: a single pass over the rows updating the counter and the three flags. */
  method ProfileColumn(h: Host, data: seq<Row>, column: string) returns (ci: ColumnInfo)
    ensures ci == ColumnInfoOf(h, data, column)
    ensures ci.name == column && ci.nonNullCount + ci.nullCount == |data|
  {
    var nonNullCount := 0;
    var hasNumbers, hasStrings, hasDates := false, false, false;
    for i := 0 to |data|
      invariant nonNullCount == PresentCount(data, column, i)
      invariant hasNumbers <==> exists j :: 0 <= j < i && IsNumber(Get(data[j], column))
      invariant hasStrings <==> exists j :: 0 <= j < i && IsText(Get(data[j], column))
      invariant hasDates <==> exists j :: 0 <= j < i && IsDateText(h, Get(data[j], column))
    {
      var value := Get(data[i], column);
      if value != None && value != Some(Null) && value != Some(Str("")) {
        nonNullCount := nonNullCount + 1;
        match value.value {
          case Num(_) => hasNumbers := true;
          case Str(s) =>
            hasStrings := true;
            if h.dateParses(s) {
              hasDates := true;
            }
        }
      }
    }
    var nullCount := |data| - nonNullCount;
    ci := ColumnInfo(column, InferDtype(hasNumbers, hasStrings, hasDates), nonNullCount, nullCount);
  }

  /** `analyzeDataset`: profiles the columns in order, pushing into three lists. */
  method AnalyzeDataset(h: Host, data: seq<Row>, columns: seq<string>) returns (info: DatasetInfo)
    ensures info == Profile(h, data, columns)
    ensures info.shape == (|data|, |columns|)
    ensures |info.columns| == |columns| && |info.dataTypes| == |columns|
    ensures forall k :: 0 <= k < |columns| ==>
      && info.columns[k].name == columns[k]
      && info.columns[k].nonNullCount + info.columns[k].nullCount == |data|
      && info.dataTypes[k] == DataType(columns[k], info.columns[k].dtype)
  {
    ghost var spec := Profile(h, data, columns);
    var columnsInfo: seq<ColumnInfo> := [];
    var missingValues: seq<MissingValue> := [];
    var dataTypes: seq<DataType> := [];
    for k := 0 to |columns|
      invariant columnsInfo == spec.columns[..k]
      invariant dataTypes == spec.dataTypes[..k]
      invariant missingValues == MissingReport(columnsInfo, |data|)
    {
      var ci := ProfileColumn(h, data, columns[k]);
      assert spec.columns[..k + 1] == columnsInfo + [ci];
      assert spec.dataTypes[..k + 1] == dataTypes + [DataType(columns[k], ci.dtype)];
      MissingReportStep(columnsInfo, ci, |data|);
      columnsInfo := columnsInfo + [ci];
      if ci.nullCount > 0 {
        var percentage := (ci.nullCount as real / |data| as real) * 100.0;
        missingValues := missingValues + [MissingValue(columns[k], ci.nullCount, percentage)];
      }
      dataTypes := dataTypes + [DataType(columns[k], ci.dtype)];
    }
    assert spec.columns[..|columns|] == spec.columns;
    assert spec.dataTypes[..|columns|] == spec.dataTypes;
    info := DatasetInfo((|data|, |columns|), columnsInfo, missingValues, dataTypes);
    ProfileShape(h, data, columns);
  }

  /** One more column profiled: it joins the report exactly when it has a missing cell. */
  lemma MissingReportStep(infos: seq<ColumnInfo>, info: ColumnInfo, rowCount: nat)
    requires forall k :: 0 <= k < |infos| ==> infos[k].nullCount <= rowCount
    requires info.nullCount <= rowCount
    ensures MissingReport(infos + [info], rowCount)
      == MissingReport(infos, rowCount) + if info.nullCount > 0 then [MissingEntry(info, rowCount)] else []
  {
    assert (infos + [info])[..|infos|] == infos;
  }

  /** The profile has one entry per column, in column order, whose counts add up to the row count. */
  lemma ProfileShape(h: Host, data: seq<Row>, columns: seq<string>)
    ensures var info := Profile(h, data, columns);
      && info.shape == (|data|, |columns|)
      && |info.columns| == |columns| && |info.dataTypes| == |columns|
      && forall k :: 0 <= k < |columns| ==>
        && info.columns[k].name == columns[k]
        && info.columns[k].nonNullCount + info.columns[k].nullCount == |data|
        && info.dataTypes[k] == DataType(columns[k], info.columns[k].dtype)
  {
  }

  /** `createDataset`: columns from the first row's keys, profile over them, not cleaned. */
  method CreateDataset(h: Host, name: string, data: seq<Row>) returns (ds: Dataset)
    ensures ds == NewDataset(h, name, data)
    ensures ds.name == name && ds.data == data && !ds.cleaned
    ensures ds.columns == if |data| > 0 then data[0].keys else []
    ensures ds.info == Profile(h, data, ds.columns)
  {
    var columns := if |data| > 0 then data[0].keys else [];
    var info := AnalyzeDataset(h, data, columns);
    ds := Dataset(name, data, columns, info, false);
  }

  /** The listed positions increase and are exactly those with a positive null count. */
  lemma {:induction false} MissingPositionsExact(infos: seq<ColumnInfo>)
    ensures StrictlyIncreasing(MissingPositions(infos))
    ensures forall i :: 0 <= i < |infos| ==> (i in MissingPositions(infos) <==> infos[i].nullCount > 0)
  {
    if |infos| > 0 {
      var n := |infos|;
      var init := infos[..n - 1];
      MissingPositionsExact(init);
      var idx0 := MissingPositions(init);
      var idx := MissingPositions(infos);
      assert idx == idx0 + if infos[n - 1].nullCount > 0 then [n - 1] else [];
      forall i | 0 <= i < n
        ensures i in idx <==> infos[i].nullCount > 0
      {
        if i < n - 1 {
          assert init[i] == infos[i];
          assert i in idx <==> i in idx0;
        }
      }
    }
  }

  /**
   * The missing-value report lists exactly the columns whose null count is
   * positive, in column order, each with its count and percentage.
   */
  lemma {:induction false} MissingReportExact(infos: seq<ColumnInfo>, rowCount: nat)
    requires forall k :: 0 <= k < |infos| ==> infos[k].nullCount <= rowCount
    ensures var r, idx := MissingReport(infos, rowCount), MissingPositions(infos);
      && |r| == |idx|
      && (forall k :: 0 <= k < |idx| ==> r[k] == MissingEntry(infos[idx[k]], rowCount))
  {
    if |infos| > 0 {
      var n := |infos|;
      var init := infos[..n - 1];
      MissingReportExact(init, rowCount);
      var idx0 := MissingPositions(init);
      var r0 := MissingReport(init, rowCount);
      var idx := MissingPositions(infos);
      var r := MissingReport(infos, rowCount);
      forall k | 0 <= k < |idx|
        ensures r[k] == MissingEntry(infos[idx[k]], rowCount)
      {
        if k < |idx0| {
          assert idx[k] == idx0[k] && r[k] == r0[k];
          assert init[idx0[k]] == infos[idx0[k]];
        }
      }
    }
  }

  /** A report over columns none of which has a missing cell is empty. */
  lemma {:induction false} MissingReportEmpty(infos: seq<ColumnInfo>, rowCount: nat)
    requires forall k :: 0 <= k < |infos| ==> infos[k].nullCount == 0
    ensures MissingReport(infos, rowCount) == []
  {
    if |infos| > 0 {
      MissingReportEmpty(infos[..|infos| - 1], rowCount);
    }
  }

  /** A table with no missing cell in the listed columns gets an empty missing-value report. */
  lemma CompleteTableReportsNothing(h: Host, rows: seq<Row>, columns: seq<string>)
    requires forall r, c :: 0 <= r < |rows| && c in columns ==> !IsMissing(Get(rows[r], c))
    ensures Profile(h, rows, columns).missingValues == []
  {
    var p := Profile(h, rows, columns);
    forall k | 0 <= k < |columns|
      ensures p.columns[k].nullCount == 0
    {
      assert columns[k] in columns;
      PresentCountExtremes(rows, columns[k], |rows|);
    }
    MissingReportEmpty(p.columns, |rows|);
  }

  /** The same statement for a profile: an entry for column k exactly when some cell of it is missing. */
  lemma ProfileMissingExact(h: Host, rows: seq<Row>, columns: seq<string>)
    ensures var p := Profile(h, rows, columns); var idx := MissingPositions(p.columns);
      && |p.missingValues| == |idx|
      && StrictlyIncreasing(idx)
      && (forall i :: 0 <= i < |columns| ==>
            (i in idx <==> exists r :: 0 <= r < |rows| && IsMissing(Get(rows[r], columns[i]))))
      && (forall k :: 0 <= k < |idx| ==>
            && idx[k] < |columns|
            && p.missingValues[k].column == columns[idx[k]]
            && p.missingValues[k].count == p.columns[idx[k]].nullCount)
  {
    var p := Profile(h, rows, columns);
    MissingPositionsExact(p.columns);
    MissingReportExact(p.columns, |rows|);
    forall i | 0 <= i < |columns|
      ensures p.columns[i].nullCount > 0 <==> exists r :: 0 <= r < |rows| && IsMissing(Get(rows[r], columns[i]))
    {
      PresentCountExtremes(rows, columns[i], |rows|);
    }
  }

  /**
   * The dtype rule in terms of the column's cells: numeric when there is a
   * number and every present cell is a number; otherwise datetime exactly
   * when some present string date-parses; categorical when there are strings
   * and none date-parses; unknown exactly when every cell is missing.
   */
  lemma DtypeByContent(h: Host, rows: seq<Row>, col: string)
    ensures ColumnDtype(h, rows, col) == Numeric <==>
      HasNumbers(rows, col) && forall i :: 0 <= i < |rows| && !IsMissing(Get(rows[i], col)) ==> IsNumber(Get(rows[i], col))
    ensures ColumnDtype(h, rows, col) == Datetime <==> HasDates(h, rows, col)
    ensures ColumnDtype(h, rows, col) == Categorical <==> HasStrings(rows, col) && !HasDates(h, rows, col)
    ensures ColumnDtype(h, rows, col) == Unknown <==> forall i :: 0 <= i < |rows| ==> IsMissing(Get(rows[i], col))
  {
    if HasDates(h, rows, col) {
      var i :| 0 <= i < |rows| && IsDateText(h, Get(rows[i], col));
      assert IsText(Get(rows[i], col));
    }
    if forall i :: 0 <= i < |rows| ==> IsMissing(Get(rows[i], col)) {
      assert !HasNumbers(rows, col) && !HasStrings(rows, col);
    } else {
      var i :| 0 <= i < |rows| && !IsMissing(Get(rows[i], col));
      assert IsNumber(Get(rows[i], col)) || IsText(Get(rows[i], col));
    }
  }
}
