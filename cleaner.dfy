/**
 * The cleaner: `cleanDataset` and the four operations it dispatches to
 * (lib/datasetTools.ts), with the sampling heuristic that splits numeric
 * from non-numeric columns.
 */
module Cleaner {
  import opened Wrappers
  import opened Table
  import opened Types
  import opened Seqs
  import Profiler

  // ---------------------------------------------------------------------
  // isNumericColumnOptimized
  // ---------------------------------------------------------------------

  /** How many rows the heuristic samples at most. */
  const SampleSize: nat := 1000

  /** `Math.min(1000, data.length)`. */
  function SampleLength(rows: seq<Row>): nat
  {
    if SampleSize < |rows| then SampleSize else |rows|
  }

  /** A present cell that the heuristic counts: a number, or a string that parses to a finite number. */
  predicate IsNumericLike(h: Host, v: Option<Cell>)
  {
    && !IsMissing(v)
    && match v.value
       case Num(_) => true
       case Str(s) => h.parseFloat(s).Some?
       case Null => false
  }

  /** How many of the first `n` cells of `col` are numeric-like. */
  function NumericLikeCount(h: Host, rows: seq<Row>, col: string, n: nat): (k: nat)
    requires n <= |rows|
    ensures k <= PresentCount(rows, col, n)
  {
    if n == 0 then 0
    else NumericLikeCount(h, rows, col, n - 1) + (if IsNumericLike(h, Get(rows[n - 1], col)) then 1 else 0)
  }

  /**
   * The sampled heuristic classification: among the present cells of the
   * first `min(1000, n)` rows there is at least one, and more than 80% of
   * them are numeric-like.
   */
  predicate IsNumericSampled(h: Host, rows: seq<Row>, col: string)
  {
    var m := SampleLength(rows);
    var total := PresentCount(rows, col, m);
    total > 0 && (NumericLikeCount(h, rows, col, m) as real) / (total as real) > 0.8
  }

  /** `isNumericColumnOptimized`: one pass over the sample updating the two counters. */
  method IsNumericColumn(h: Host, data: seq<Row>, column: string) returns (r: bool)
    ensures r == IsNumericSampled(h, data, column)
    ensures |data| == 0 ==> !r
  {
    if |data| == 0 {
      return false;
    }
    var sampleSize := if 1000 < |data| then 1000 else |data|;
    var numericCount, totalChecked := 0, 0;
    for i := 0 to sampleSize
      invariant totalChecked == PresentCount(data, column, i)
      invariant numericCount == NumericLikeCount(h, data, column, i)
    {
      var val := Get(data[i], column);
      if val != None && val != Some(Null) && val != Some(Str("")) {
        totalChecked := totalChecked + 1;
        match val.value {
          case Num(_) =>
            numericCount := numericCount + 1;
          case Str(s) =>
            var num := h.parseFloat(s);
            if num.Some? {
              numericCount := numericCount + 1;
            }
          case Null =>
        }
      }
    }
    r := totalChecked > 0 && (numericCount as real) / (totalChecked as real) > 0.8;
  }

  lemma {:induction false} NumericLikeCountPrefix(h: Host, a: seq<Row>, b: seq<Row>, col: string, n: nat)
    requires n <= |a| && n <= |b| && a[..n] == b[..n]
    ensures NumericLikeCount(h, a, col, n) == NumericLikeCount(h, b, col, n)
  {
    if n > 0 {
      assert a[n - 1] == a[..n][n - 1] == b[..n][n - 1] == b[n - 1];
      assert a[..n - 1] == a[..n][..n - 1];
      assert b[..n - 1] == b[..n][..n - 1];
      NumericLikeCountPrefix(h, a, b, col, n - 1);
    }
  }

  /** The heuristic looks at the first `min(1000, n)` rows only. */
  lemma SampledDependsOnSampleOnly(h: Host, a: seq<Row>, b: seq<Row>, col: string)
    requires SampleLength(a) == SampleLength(b)
    requires a[..SampleLength(a)] == b[..SampleLength(b)]
    ensures IsNumericSampled(h, a, col) == IsNumericSampled(h, b, col)
  {
    var m := SampleLength(a);
    PresentCountPrefix(a, b, col, m);
    NumericLikeCountPrefix(h, a, b, col, m);
  }

  /** When every counted cell is numeric-like, the numeric-like count equals the present count. */
  lemma {:induction false} AllNumericLikeCount(h: Host, rows: seq<Row>, col: string, n: nat)
    requires n <= |rows|
    requires forall i :: 0 <= i < n && !IsMissing(Get(rows[i], col)) ==> IsNumericLike(h, Get(rows[i], col))
    ensures NumericLikeCount(h, rows, col, n) == PresentCount(rows, col, n)
  {
    if n > 0 {
      AllNumericLikeCount(h, rows, col, n - 1);
    }
  }

  /**
   * The two classifications compared: a column the profiler calls numeric is
   * sampled-numeric as soon as the sample holds one of its present cells.
   */
  lemma ProfilerNumericIsSampledNumeric(h: Host, rows: seq<Row>, col: string)
    requires Profiler.ColumnDtype(h, rows, col) == Numeric
    requires PresentCount(rows, col, SampleLength(rows)) > 0
    ensures IsNumericSampled(h, rows, col)
  {
    var m := SampleLength(rows);
    assert !Profiler.HasStrings(rows, col);
    forall i | 0 <= i < m && !IsMissing(Get(rows[i], col))
      ensures IsNumericLike(h, Get(rows[i], col))
    {
      assert !Profiler.IsText(Get(rows[i], col));
    }
    AllNumericLikeCount(h, rows, col, m);
    SelfQuotient(PresentCount(rows, col, m) as real);
  }

  lemma SelfQuotient(t: real)
    requires t > 0.0
    ensures t / t == 1.0
  {
  }

  /**
   * The two classifiers can disagree: nine numbers and one word that is
   * neither a number nor a date make a categorical column for the profiler
   * and a numeric one for the cleaner, since 9 of 10 exceeds 80%.
   */
  lemma ClassifiersDisagree(h: Host)
    requires h.parseFloat("x").None? && !h.dateParses("x")
    ensures var n := Row(["v"], map["v" := Num(1.0)]);
      var rows := [n, n, n, n, n, n, n, n, n, Row(["v"], map["v" := Str("x")])];
      && Profiler.ColumnDtype(h, rows, "v") == Categorical
      && IsNumericSampled(h, rows, "v")
  {
    var n := Row(["v"], map["v" := Num(1.0)]);
    var rows := [n, n, n, n, n, n, n, n, n, Row(["v"], map["v" := Str("x")])];
    assert Profiler.IsNumber(Get(rows[0], "v"));
    assert Profiler.IsText(Get(rows[9], "v"));
    assert SampleLength(rows) == 10;
    assert forall i :: 0 <= i < 10 ==> !IsMissing(Get(rows[i], "v"));
    PresentCountExtremes(rows, "v", 10);
    assert forall i :: 0 <= i < 9 ==> IsNumericLike(h, Get(rows[i], "v"));
    AllNumericLikeCount(h, rows, "v", 9);
    assert NumericLikeCount(h, rows, "v", 10) == 9;
  }

  // ---------------------------------------------------------------------
  // removeDuplicatesOptimized
  // ---------------------------------------------------------------------

  /** The duplicate key of a row: `String(row[k]) + '|'` concatenated over `keys`. */
  function RowKey(h: Host, row: Row, keys: seq<string>): string
  {
    if |keys| == 0 then ""
    else RowKey(h, row, keys[..|keys| - 1]) + CellString(h, Get(row, keys[|keys| - 1])) + "|"
  }

  /** The keys of the first `n` rows: the `seen` set after `n` iterations. */
  function SeenKeys(h: Host, rows: seq<Row>, keys: seq<string>, n: nat): set<string>
    requires n <= |rows|
  {
    if n == 0 then {} else SeenKeys(h, rows, keys, n - 1) + {RowKey(h, rows[n - 1], keys)}
  }

  /** The rows kept among the first `n`: each one whose key was not seen before. */
  function UniqueUpTo(h: Host, rows: seq<Row>, keys: seq<string>, n: nat): seq<Row>
    requires n <= |rows|
  {
    if n == 0 then []
    else if RowKey(h, rows[n - 1], keys) in SeenKeys(h, rows, keys, n - 1) then UniqueUpTo(h, rows, keys, n - 1)
    else UniqueUpTo(h, rows, keys, n - 1) + [rows[n - 1]]
  }

  /** The result of `remove_duplicates`: keyed on the first row's own keys. */
  function Deduplicated(h: Host, rows: seq<Row>): seq<Row>
  {
    if |rows| == 0 then rows else UniqueUpTo(h, rows, rows[0].keys, |rows|)
  }

  /** The duplicate key of every row. */
  function RowKeys(h: Host, rows: seq<Row>, keys: seq<string>): seq<string>
  {
    seq(|rows|, i requires 0 <= i < |rows| => RowKey(h, rows[i], keys))
  }

  /** Position `i` of `ks` holds the first occurrence of its key. */
  predicate FirstIn(ks: seq<string>, i: nat)
    requires i < |ks|
  {
    forall j :: 0 <= j < i ==> ks[j] != ks[i]
  }

  /** Row `i` is the first with its key. */
  predicate IsFirstOccurrence(h: Host, rows: seq<Row>, keys: seq<string>, i: nat)
    requires i < |rows|
  {
    FirstIn(RowKeys(h, rows, keys), i)
  }

  /** The positions among the first `n` of `ks` that hold the first occurrence of their key. */
  ghost function FirstPositionsIn(ks: seq<string>, n: nat): (idx: seq<nat>)
    requires n <= |ks|
    ensures |idx| <= n
    ensures forall k :: 0 <= k < |idx| ==> idx[k] < n
  {
    if n == 0 then []
    else FirstPositionsIn(ks, n - 1) + if FirstIn(ks, n - 1) then [n - 1] else []
  }

  /** The positions among the first `n` rows that hold the first row with their key. */
  ghost function FirstPositions(h: Host, rows: seq<Row>, keys: seq<string>, n: nat): (idx: seq<nat>)
    requires n <= |rows|
    ensures |idx| <= n
    ensures forall k :: 0 <= k < |idx| ==> idx[k] < n
  {
    FirstPositionsIn(RowKeys(h, rows, keys), n)
  }

  /** `removeDuplicatesOptimized`: grows the `seen` set and the `unique` list in one pass. */
  method RemoveDuplicates(h: Host, data: seq<Row>) returns (unique: seq<Row>)
    ensures unique == Deduplicated(h, data)
    ensures |unique| <= |data|
    ensures |data| > 0 ==> |unique| > 0 && unique[0] == data[0]
  {
    if |data| == 0 {
      return data;
    }
    var seen: set<string> := {};
    unique := [];
    var keys := data[0].keys;
    for i := 0 to |data|
      invariant seen == SeenKeys(h, data, keys, i)
      invariant unique == UniqueUpTo(h, data, keys, i)
      invariant |unique| <= i
      invariant i > 0 ==> |unique| > 0 && unique[0] == data[0]
    {
      var key := "";
      for j := 0 to |keys|
        invariant key == RowKey(h, data[i], keys[..j])
      {
        assert keys[..j + 1][..j] == keys[..j];
        key := key + CellString(h, Get(data[i], keys[j])) + "|";
      }
      assert keys[..|keys|] == keys;
      if key !in seen {
        seen := seen + {key};
        unique := unique + [data[i]];
      }
    }
  }

  /** A key was seen among the first `n` rows exactly when one of them has it. */
  lemma {:induction false} SeenKeysExact(h: Host, rows: seq<Row>, keys: seq<string>, n: nat, key: string)
    requires n <= |rows|
    ensures key in SeenKeys(h, rows, keys, n) <==> exists j :: 0 <= j < n && RowKey(h, rows[j], keys) == key
  {
    if n > 0 {
      SeenKeysExact(h, rows, keys, n - 1, key);
      var last := RowKey(h, rows[n - 1], keys);
      assert SeenKeys(h, rows, keys, n) == SeenKeys(h, rows, keys, n - 1) + {last};
      if key == last {
        assert 0 <= n - 1 < n && RowKey(h, rows[n - 1], keys) == key;
      } else if exists j :: 0 <= j < n && RowKey(h, rows[j], keys) == key {
        var j :| 0 <= j < n && RowKey(h, rows[j], keys) == key;
        assert j < n - 1;
      }
    }
  }

  /** The first-occurrence positions increase and are exactly the first occurrences. */
  lemma FirstPositionsExact(h: Host, rows: seq<Row>, keys: seq<string>, n: nat)
    requires n <= |rows|
    ensures StrictlyIncreasing(FirstPositions(h, rows, keys, n))
    ensures forall i :: 0 <= i < n ==> (i in FirstPositions(h, rows, keys, n) <==> IsFirstOccurrence(h, rows, keys, i))
  {
    FirstPositionsInExact(RowKeys(h, rows, keys), n);
  }

  lemma {:induction false} FirstPositionsInExact(ks: seq<string>, n: nat)
    requires n <= |ks|
    ensures StrictlyIncreasing(FirstPositionsIn(ks, n))
    ensures forall i :: 0 <= i < n ==> (i in FirstPositionsIn(ks, n) <==> FirstIn(ks, i))
  {
    if n > 0 {
      FirstPositionsInExact(ks, n - 1);
      var idx0 := FirstPositionsIn(ks, n - 1);
      var tail: seq<nat> := if FirstIn(ks, n - 1) then [n - 1] else [];
      var idx := FirstPositionsIn(ks, n);
      assert idx == idx0 + tail;
      forall a, b | 0 <= a < b < |idx|
        ensures idx[a] < idx[b]
      {
        assert idx[a] == idx0[a];
        if b < |idx0| {
          assert idx[b] == idx0[b];
        } else {
          assert idx[b] == n - 1;
        }
      }
      forall i | 0 <= i < n
        ensures i in idx <==> FirstIn(ks, i)
      {
        if i < n - 1 {
          assert i !in tail;
        } else {
          assert i !in idx0;
        }
      }
    }
  }

  /**
   * The kept rows are, in order, exactly the rows that are the first with
   * their key.
   */
  lemma {:induction false} UniqueIsFirstOccurrences(h: Host, rows: seq<Row>, keys: seq<string>, n: nat)
    requires n <= |rows|
    ensures SubsequenceAt(UniqueUpTo(h, rows, keys, n), rows, FirstPositions(h, rows, keys, n))
    ensures forall i :: 0 <= i < n ==> (i in FirstPositions(h, rows, keys, n) <==> IsFirstOccurrence(h, rows, keys, i))
  {
    FirstPositionsExact(h, rows, keys, n);
    if n > 0 {
      UniqueIsFirstOccurrences(h, rows, keys, n - 1);
      UniqueStep(h, rows, keys, n);
      var u0 := UniqueUpTo(h, rows, keys, n - 1);
      var idx0 := FirstPositions(h, rows, keys, n - 1);
      if IsFirstOccurrence(h, rows, keys, n - 1) {
        assert FirstPositions(h, rows, keys, n) == idx0 + [n - 1];
        SubsequenceAppend(u0, rows, idx0, n - 1);
      } else {
        assert FirstPositions(h, rows, keys, n) == idx0;
      }
    }
  }

  /** One more row through duplicate removal: it is kept exactly when it is the first with its key. */
  lemma UniqueStep(h: Host, rows: seq<Row>, keys: seq<string>, n: nat)
    requires 0 < n <= |rows|
    ensures UniqueUpTo(h, rows, keys, n)
      == UniqueUpTo(h, rows, keys, n - 1) + if IsFirstOccurrence(h, rows, keys, n - 1) then [rows[n - 1]] else []
  {
    UniqueUnfold(h, rows, keys, n);
    FirstIffUnseen(h, rows, keys, n - 1);
  }

  lemma UniqueUnfold(h: Host, rows: seq<Row>, keys: seq<string>, n: nat)
    requires 0 < n <= |rows|
    ensures UniqueUpTo(h, rows, keys, n)
      == UniqueUpTo(h, rows, keys, n - 1) + if RowKey(h, rows[n - 1], keys) !in SeenKeys(h, rows, keys, n - 1) then [rows[n - 1]] else []
  {
  }

  /** A row is the first with its key exactly when its key is not yet in `seen`. */
  lemma FirstIffUnseen(h: Host, rows: seq<Row>, keys: seq<string>, i: nat)
    requires i < |rows|
    ensures IsFirstOccurrence(h, rows, keys, i) <==> RowKey(h, rows[i], keys) !in SeenKeys(h, rows, keys, i)
  {
    var ks := RowKeys(h, rows, keys);
    SeenKeysExact(h, rows, keys, i, ks[i]);
    assert forall j :: 0 <= j <= i ==> ks[j] == RowKey(h, rows[j], keys);
  }

  /** No two kept rows share a key. */
  lemma KeptKeysDistinct(h: Host, rows: seq<Row>, keys: seq<string>, n: nat)
    requires n <= |rows|
    ensures var u := UniqueUpTo(h, rows, keys, n);
      forall a, b :: 0 <= a < b < |u| ==> RowKey(h, u[a], keys) != RowKey(h, u[b], keys)
  {
    UniqueIsFirstOccurrences(h, rows, keys, n);
    var u := UniqueUpTo(h, rows, keys, n);
    var idx := FirstPositions(h, rows, keys, n);
    forall a, b | 0 <= a < b < |u|
      ensures RowKey(h, u[a], keys) != RowKey(h, u[b], keys)
    {
      var ks := RowKeys(h, rows, keys);
      assert idx[b] in idx;
      assert FirstIn(ks, idx[b]);
      assert idx[a] < idx[b];
      assert ks[idx[a]] == RowKey(h, u[a], keys) && ks[idx[b]] == RowKey(h, u[b], keys);
    }
  }

  /** Every row has a first occurrence of its key at or before it. */
  lemma {:induction false} EarliestTwin(h: Host, rows: seq<Row>, keys: seq<string>, i: nat)
    requires i < |rows|
    ensures exists j :: 0 <= j <= i && IsFirstOccurrence(h, rows, keys, j) && RowKey(h, rows[j], keys) == RowKey(h, rows[i], keys)
    decreases i
  {
    if !IsFirstOccurrence(h, rows, keys, i) {
      var j :| 0 <= j < i && RowKey(h, rows[j], keys) == RowKey(h, rows[i], keys);
      EarliestTwin(h, rows, keys, j);
    }
  }

  /** A dropped row has the key of a row kept from earlier in the input. */
  lemma DroppedRowHasKeptTwin(h: Host, rows: seq<Row>, keys: seq<string>, n: nat, i: nat)
    requires i < n <= |rows|
    requires i !in FirstPositions(h, rows, keys, n)
    ensures exists j :: 0 <= j < i && j in FirstPositions(h, rows, keys, n) && RowKey(h, rows[j], keys) == RowKey(h, rows[i], keys)
  {
    UniqueIsFirstOccurrences(h, rows, keys, n);
    EarliestTwin(h, rows, keys, i);
    var j :| 0 <= j <= i && IsFirstOccurrence(h, rows, keys, j) && RowKey(h, rows[j], keys) == RowKey(h, rows[i], keys);
    assert j in FirstPositions(h, rows, keys, n);
  }

  /** Rows whose keys are already distinct are all kept. */
  lemma {:induction false} DistinctKeysAllKept(h: Host, rows: seq<Row>, keys: seq<string>, n: nat)
    requires n <= |rows|
    requires forall a, b :: 0 <= a < b < n ==> RowKey(h, rows[a], keys) != RowKey(h, rows[b], keys)
    ensures UniqueUpTo(h, rows, keys, n) == rows[..n]
  {
    if n > 0 {
      DistinctKeysAllKept(h, rows, keys, n - 1);
      SeenKeysExact(h, rows, keys, n - 1, RowKey(h, rows[n - 1], keys));
      assert rows[..n] == rows[..n - 1] + [rows[n - 1]];
    }
  }

  /** The first row is always kept, and first. */
  lemma FirstRowKept(h: Host, rows: seq<Row>, keys: seq<string>, n: nat)
    requires 0 < n <= |rows|
    ensures var u := UniqueUpTo(h, rows, keys, n); |u| > 0 && u[0] == rows[0]
  {
    UniqueIsFirstOccurrences(h, rows, keys, n);
    var idx := FirstPositions(h, rows, keys, n);
    assert 0 in idx;
    var k :| 0 <= k < |idx| && idx[k] == 0;
    assert forall a :: 0 < a < |idx| ==> idx[0] < idx[a];
  }

  /** `remove_duplicates` applied twice equals applied once. */
  lemma DeduplicatedIdempotent(h: Host, rows: seq<Row>)
    ensures Deduplicated(h, Deduplicated(h, rows)) == Deduplicated(h, rows)
  {
    if |rows| > 0 {
      var keys := rows[0].keys;
      var u := Deduplicated(h, rows);
      FirstRowKept(h, rows, keys, |rows|);
      KeptKeysDistinct(h, rows, keys, |rows|);
      DistinctKeysAllKept(h, u, keys, |u|);
      assert u[..|u|] == u;
    }
  }

  // ---------------------------------------------------------------------
  // Filling missing cells: the shared per-row step
  // ---------------------------------------------------------------------

  /**
   * `columns.forEach(col => { if (col has a fill value && newRow[col] is missing) newRow[col] = value })`
   * on a copy of `row`.
   */
  function WithMissingFilled(row: Row, cols: seq<string>, fill: map<string, Cell>): Row
  {
    if |cols| == 0 then row
    else
      var r := WithMissingFilled(row, cols[..|cols| - 1], fill);
      var c := cols[|cols| - 1];
      if c in fill && IsMissing(Get(r, c)) then Set(r, c, fill[c]) else r
  }

  /** Exactly the missing cells of listed columns that have a fill value change, and they take that value. */
  lemma {:induction false} FilledCell(row: Row, cols: seq<string>, fill: map<string, Cell>, c: string)
    ensures Get(WithMissingFilled(row, cols, fill), c)
      == if c in cols && c in fill && IsMissing(Get(row, c)) then Some(fill[c]) else Get(row, c)
  {
    if |cols| > 0 {
      var init := cols[..|cols| - 1];
      FilledCell(row, init, fill, c);
      assert c in cols <==> c in init || c == cols[|cols| - 1];
    }
  }

  /** When every listed column is already a key of the row, the key order does not change. */
  lemma {:induction false} FilledKeys(row: Row, cols: seq<string>, fill: map<string, Cell>)
    requires forall k :: 0 <= k < |cols| ==> cols[k] in row.keys
    ensures WithMissingFilled(row, cols, fill).keys == row.keys
  {
    if |cols| > 0 {
      FilledKeys(row, cols[..|cols| - 1], fill);
    }
  }

  // ---------------------------------------------------------------------
  // fillNumericMissingOptimized
  // ---------------------------------------------------------------------

  /** What a present cell adds to the sum: a number itself, a string `parseFloat(val)`. */
  function NumericValue(h: Host, v: Option<Cell>): real
  {
    match v
    case Some(Num(x)) => x
    case Some(Str(s)) => (match h.parseFloat(s) case Some(x) => x case None => 0.0)
    case _ => 0.0
  }

  /** The sum over the present cells among the first `n` rows. */
  function NumericSum(h: Host, rows: seq<Row>, col: string, n: nat): real
    requires n <= |rows|
  {
    if n == 0 then 0.0
    else NumericSum(h, rows, col, n - 1) + (if IsMissing(Get(rows[n - 1], col)) then 0.0 else NumericValue(h, Get(rows[n - 1], col)))
  }

  /** `sum / count` over all present cells of the column. */
  function Mean(h: Host, rows: seq<Row>, col: string): real
    requires PresentCount(rows, col, |rows|) > 0
  {
    NumericSum(h, rows, col, |rows|) / PresentCount(rows, col, |rows|) as real
  }

  /** `columnMeans`: a mean for each listed sampled-numeric column with at least one present cell. */
  function ColumnMeans(h: Host, rows: seq<Row>, cols: seq<string>): map<string, real>
  {
    map c | c in cols && IsNumericSampled(h, rows, c) && PresentCount(rows, c, |rows|) > 0 :: Mean(h, rows, c)
  }

  function MeanFill(means: map<string, real>): map<string, Cell>
  {
    map c | c in means :: Num(means[c])
  }

  /** The result of `fill_numeric_missing`. */
  function NumericFilled(h: Host, rows: seq<Row>, cols: seq<string>): seq<Row>
  {
    var fill := MeanFill(ColumnMeans(h, rows, cols));
    seq(|rows|, i requires 0 <= i < |rows| => WithMissingFilled(rows[i], cols, fill))
  }

  /** When the first `n` present values lie within [lo, hi], their sum lies within count·lo and count·hi. */
  lemma NumericSumBounds(h: Host, rows: seq<Row>, col: string, n: nat, lo: real, hi: real)
    requires n <= |rows|
    requires forall i :: 0 <= i < n && !IsMissing(Get(rows[i], col)) ==> lo <= NumericValue(h, Get(rows[i], col)) <= hi
    ensures lo * PresentCount(rows, col, n) as real <= NumericSum(h, rows, col, n) <= hi * PresentCount(rows, col, n) as real
  {
    var c := PresentCount(rows, col, n);
    SumWithinTimes(h, rows, col, n, lo, hi);
    TimesIsProduct(c, lo);
    TimesIsProduct(c, hi);
  }

  /** `c` copies of `x` added up. */
  function Times(c: nat, x: real): real
  {
    if c == 0 then 0.0 else Times(c - 1, x) + x
  }

  lemma {:induction false} TimesIsProduct(c: nat, x: real)
    ensures Times(c, x) == x * c as real
  {
    if c > 0 {
      TimesIsProduct(c - 1, x);
      assert x * c as real == x * (c - 1) as real + x;
    }
  }

  /** The sum bounds of the present values, with the counts added up rather than multiplied. */
  lemma {:induction false} SumWithinTimes(h: Host, rows: seq<Row>, col: string, n: nat, lo: real, hi: real)
    requires n <= |rows|
    requires forall i :: 0 <= i < n && !IsMissing(Get(rows[i], col)) ==> lo <= NumericValue(h, Get(rows[i], col)) <= hi
    ensures Times(PresentCount(rows, col, n), lo) <= NumericSum(h, rows, col, n) <= Times(PresentCount(rows, col, n), hi)
  {
    if n > 0 {
      SumWithinTimes(h, rows, col, n - 1, lo, hi);
    }
  }

  /** The mean written into empty cells lies between any bounds of the column's present values. */
  lemma MeanWithinBounds(h: Host, rows: seq<Row>, col: string, lo: real, hi: real)
    requires PresentCount(rows, col, |rows|) > 0
    requires forall i :: 0 <= i < |rows| && !IsMissing(Get(rows[i], col)) ==> lo <= NumericValue(h, Get(rows[i], col)) <= hi
    ensures lo <= Mean(h, rows, col) <= hi
  {
    NumericSumBounds(h, rows, col, |rows|, lo, hi);
    QuotientWithin(NumericSum(h, rows, col, |rows|), PresentCount(rows, col, |rows|) as real, lo, hi);
  }

  /** A quotient by a positive number of a value between t·lo and t·hi lies between lo and hi. */
  lemma QuotientWithin(s: real, t: real, lo: real, hi: real)
    requires t > 0.0
    requires lo * t <= s <= hi * t
    ensures lo <= s / t <= hi
  {
    var m := s / t;
    assert m * t == s;
    MultiplyPositiveMonotone(lo, m, t);
    MultiplyPositiveMonotone(m, hi, t);
  }

  /** Multiplying by a positive number keeps the order. */
  lemma MultiplyPositiveMonotone(a: real, b: real, t: real)
    requires t > 0.0
    ensures a * t <= b * t <==> a <= b
  {
    assert b * t - a * t == (b - a) * t;
  }

  /** The first half of `fillNumericMissingOptimized`: one sum and count per sampled-numeric column. */
  method ComputeColumnMeans(h: Host, data: seq<Row>, columns: seq<string>) returns (columnMeans: map<string, real>)
    ensures columnMeans == ColumnMeans(h, data, columns)
  {
    columnMeans := map[];
    for k := 0 to |columns|
      invariant forall c :: c in columnMeans <==>
        c in columns[..k] && IsNumericSampled(h, data, c) && PresentCount(data, c, |data|) > 0
      invariant forall c :: c in columnMeans ==> PresentCount(data, c, |data|) > 0 && columnMeans[c] == Mean(h, data, c)
    {
      var col := columns[k];
      assert columns[..k + 1] == columns[..k] + [col];
      var isNumeric := IsNumericColumn(h, data, col);
      if isNumeric {
        var sum, count := 0.0, 0;
        for i := 0 to |data|
          invariant sum == NumericSum(h, data, col, i)
          invariant count == PresentCount(data, col, i)
        {
          var val := Get(data[i], col);
          if val != None && val != Some(Null) && val != Some(Str("")) {
            sum := sum + NumericValue(h, val);
            count := count + 1;
          }
        }
        if count > 0 {
          columnMeans := columnMeans[col := sum / count as real];
        }
      }
    }
    assert columns[..|columns|] == columns;
  }

  /** The per-row step of `fillNumericMissingOptimized` on a copy of the row. */
  method FillRowWithMeans(row: Row, columns: seq<string>, columnMeans: map<string, real>) returns (newRow: Row)
    ensures newRow == WithMissingFilled(row, columns, MeanFill(columnMeans))
  {
    newRow := row;
    for k := 0 to |columns|
      invariant newRow == WithMissingFilled(row, columns[..k], MeanFill(columnMeans))
    {
      var col := columns[k];
      assert columns[..k + 1][..k] == columns[..k];
      if col in columnMeans && (Get(newRow, col) == None || Get(newRow, col) == Some(Null) || Get(newRow, col) == Some(Str(""))) {
        newRow := Set(newRow, col, Num(columnMeans[col]));
      }
    }
    assert columns[..|columns|] == columns;
  }

  /** `fillNumericMissingOptimized`: the means first, then each row copied and filled into a new array. */
  method FillNumericMissing(h: Host, data: seq<Row>, columns: seq<string>) returns (filledData: seq<Row>)
    ensures filledData == NumericFilled(h, data, columns)
    ensures |filledData| == |data|
  {
    if |data| == 0 {
      return data;
    }
    var columnMeans := ComputeColumnMeans(h, data, columns);
    var filled := new Row[|data|];
    for i := 0 to |data|
      invariant forall j :: 0 <= j < i ==> filled[j] == WithMissingFilled(data[j], columns, MeanFill(columnMeans))
    {
      filled[i] := FillRowWithMeans(data[i], columns, columnMeans);
    }
    filledData := filled[..];
  }

  // ---------------------------------------------------------------------
  // fillCategoricalMissingOptimized
  // ---------------------------------------------------------------------

  /** The text written into missing non-numeric cells. */
  const UnknownText: string := "Unknown"

  /** The listed columns the heuristic, run on the operation's input rows, does not class as numeric. */
  function UnknownFill(h: Host, rows: seq<Row>, cols: seq<string>): map<string, Cell>
  {
    map c | c in cols && !IsNumericSampled(h, rows, c) :: Str(UnknownText)
  }

  /** The result of `fill_categorical_missing`. */
  function CategoricalFilled(h: Host, rows: seq<Row>, cols: seq<string>): seq<Row>
  {
    var fill := UnknownFill(h, rows, cols);
    seq(|rows|, i requires 0 <= i < |rows| => WithMissingFilled(rows[i], cols, fill))
  }

  /** The per-row step of `fillCategoricalMissingOptimized` on a copy of the row, classifying on `data`. */
  method FillRowWithUnknown(h: Host, data: seq<Row>, row: Row, columns: seq<string>) returns (newRow: Row)
    ensures newRow == WithMissingFilled(row, columns, UnknownFill(h, data, columns))
  {
    ghost var fill := UnknownFill(h, data, columns);
    newRow := row;
    for k := 0 to |columns|
      invariant newRow == WithMissingFilled(row, columns[..k], fill)
    {
      var col := columns[k];
      assert columns[..k + 1][..k] == columns[..k];
      var isNumeric := IsNumericColumn(h, data, col);
      if !isNumeric && (Get(newRow, col) == None || Get(newRow, col) == Some(Null) || Get(newRow, col) == Some(Str(""))) {
        newRow := Set(newRow, col, Str(UnknownText));
      }
    }
    assert columns[..|columns|] == columns;
  }

  /** `fillCategoricalMissingOptimized`: each row copied and filled into a new array. */
  method FillCategoricalMissing(h: Host, data: seq<Row>, columns: seq<string>) returns (filledData: seq<Row>)
    ensures filledData == CategoricalFilled(h, data, columns)
    ensures |filledData| == |data|
  {
    var filled := new Row[|data|];
    for i := 0 to |data|
      invariant forall j :: 0 <= j < i ==> filled[j] == WithMissingFilled(data[j], columns, UnknownFill(h, data, columns))
    {
      filled[i] := FillRowWithUnknown(h, data, data[i], columns);
    }
    filledData := filled[..];
  }

  // ---------------------------------------------------------------------
  // removeRowsWithMissingOptimized
  // ---------------------------------------------------------------------

  /** None of the row's own keys holds `null`, `undefined` or `''`; keys the row lacks are not looked at. */
  predicate HasNoMissingField(row: Row)
  {
    forall k :: 0 <= k < |row.keys| ==> !IsMissing(Get(row, row.keys[k]))
  }

  /** `data.filter(row => no own field is missing)`. */
  function RemoveRowsWithMissing(rows: seq<Row>): (r: seq<Row>)
    ensures |r| <= |rows|
    ensures forall k :: 0 <= k < |r| ==> HasNoMissingField(r[k])
  {
    if |rows| == 0 then []
    else
      var last := rows[|rows| - 1];
      RemoveRowsWithMissing(rows[..|rows| - 1]) + if HasNoMissingField(last) then [last] else []
  }

  /** The positions of the rows the filter keeps. */
  ghost function CompletePositions(rows: seq<Row>): (idx: seq<nat>)
    ensures forall k :: 0 <= k < |idx| ==> idx[k] < |rows|
  {
    if |rows| == 0 then []
    else CompletePositions(rows[..|rows| - 1]) + if HasNoMissingField(rows[|rows| - 1]) then [|rows| - 1] else []
  }

  /** The kept rows are, in order, exactly the rows with no missing own field. */
  lemma {:induction false} RemoveRowsWithMissingExact(rows: seq<Row>)
    ensures SubsequenceAt(RemoveRowsWithMissing(rows), rows, CompletePositions(rows))
    ensures forall i :: 0 <= i < |rows| ==> (i in CompletePositions(rows) <==> HasNoMissingField(rows[i]))
  {
    if |rows| > 0 {
      var n := |rows|;
      var init := rows[..n - 1];
      RemoveRowsWithMissingExact(init);
      var idx0 := CompletePositions(init);
      var idx := CompletePositions(rows);
      var r0 := RemoveRowsWithMissing(init);
      var r := RemoveRowsWithMissing(rows);
      SubsequenceOfPrefix(r0, rows, idx0, n - 1);
      if HasNoMissingField(rows[n - 1]) {
        assert r == r0 + [rows[n - 1]] && idx == idx0 + [n - 1];
        SubsequenceAppend(r0, rows, idx0, n - 1);
      } else {
        assert r == r0 && idx == idx0;
      }
      forall i | 0 <= i < n
        ensures i in idx <==> HasNoMissingField(rows[i])
      {
        if i < n - 1 {
          assert init[i] == rows[i];
          assert i in idx <==> i in idx0;
        }
      }
    }
  }

  // ---------------------------------------------------------------------
  // cleanDataset
  // ---------------------------------------------------------------------

  const RemoveDuplicatesOp: string := "remove_duplicates"
  const FillNumericOp: string := "fill_numeric_missing"
  const FillCategoricalOp: string := "fill_categorical_missing"
  const RemoveRowsOp: string := "remove_rows_with_missing"

  /** The fixed sequence the upload screen cleans with. */
  const UiOperations: seq<string> := [RemoveDuplicatesOp, FillNumericOp, FillCategoricalOp]

  predicate IsRecognised(op: string)
  {
    op == RemoveDuplicatesOp || op == FillNumericOp || op == FillCategoricalOp || op == RemoveRowsOp
  }

  /** One `switch` case; the fill operations use the dataset's original column list. */
  function ApplyOperation(h: Host, rows: seq<Row>, columns: seq<string>, op: string): seq<Row>
  {
    if op == RemoveDuplicatesOp then Deduplicated(h, rows)
    else if op == FillNumericOp then NumericFilled(h, rows, columns)
    else if op == FillCategoricalOp then CategoricalFilled(h, rows, columns)
    else if op == RemoveRowsOp then RemoveRowsWithMissing(rows)
    else rows
  }

  /** The operations applied in order, each to the previous one's output. */
  function Applied(h: Host, rows: seq<Row>, columns: seq<string>, ops: seq<string>): seq<Row>
  {
    if |ops| == 0 then rows
    else ApplyOperation(h, Applied(h, rows, columns, ops[..|ops| - 1]), columns, ops[|ops| - 1])
  }

  /** The dataset `cleanDataset(ds, ops)` returns. */
  function Cleaned(h: Host, ds: Dataset, ops: seq<string>): Dataset
  {
    Profiler.NewDataset(h, ds.name + "_cleaned", Applied(h, ds.data, ds.columns, ops)).(cleaned := true)
  }

  /** `cleanDataset`: reassigns the working rows once per operation, then builds a fresh dataset. */
  method CleanDataset(h: Host, ds: Dataset, operations: seq<string>) returns (r: Dataset)
    ensures r == Cleaned(h, ds, operations)
    ensures r.name == ds.name + "_cleaned" && r.cleaned
    ensures r.data == Applied(h, ds.data, ds.columns, operations)
    ensures r.columns == Profiler.FirstRowKeys(r.data)
    ensures r.info == Profiler.Profile(h, r.data, r.columns)
  {
    var cleanedData := ds.data;
    for i := 0 to |operations|
      invariant cleanedData == Applied(h, ds.data, ds.columns, operations[..i])
    {
      var op := operations[i];
      assert operations[..i + 1][..i] == operations[..i];
      if op == RemoveDuplicatesOp {
        cleanedData := RemoveDuplicates(h, cleanedData);
      } else if op == FillNumericOp {
        cleanedData := FillNumericMissing(h, cleanedData, ds.columns);
      } else if op == FillCategoricalOp {
        cleanedData := FillCategoricalMissing(h, cleanedData, ds.columns);
      } else if op == RemoveRowsOp {
        cleanedData := RemoveRowsWithMissing(cleanedData);
      }
    }
    assert operations[..|operations|] == operations;
    var cleanedDataset := Profiler.CreateDataset(h, ds.name + "_cleaned", cleanedData);
    r := cleanedDataset.(cleaned := true);
  }

  // ---------------------------------------------------------------------
  // Properties of the operations and of the pipeline
  // ---------------------------------------------------------------------

  /**
   * `fill_numeric_missing` keeps the row count and changes only missing
   * cells of listed sampled-numeric columns with a present cell, writing
   * the column's mean there.
   */
  lemma NumericFilledCell(h: Host, rows: seq<Row>, cols: seq<string>, i: nat, c: string)
    requires i < |rows|
    ensures |NumericFilled(h, rows, cols)| == |rows|
    ensures var means := ColumnMeans(h, rows, cols);
      && (c in means <==> c in cols && IsNumericSampled(h, rows, c) && PresentCount(rows, c, |rows|) > 0)
      && Get(NumericFilled(h, rows, cols)[i], c)
         == if c in means && IsMissing(Get(rows[i], c)) then Some(Num(means[c])) else Get(rows[i], c)
  {
    FilledCell(rows[i], cols, MeanFill(ColumnMeans(h, rows, cols)), c);
  }

  /**
   * `fill_categorical_missing` keeps the row count and writes "Unknown"
   * into exactly the missing cells of listed columns that the heuristic,
   * run on the operation's input, does not class as numeric.
   */
  lemma CategoricalFilledCell(h: Host, rows: seq<Row>, cols: seq<string>, i: nat, c: string)
    requires i < |rows|
    ensures |CategoricalFilled(h, rows, cols)| == |rows|
    ensures Get(CategoricalFilled(h, rows, cols)[i], c)
      == if c in cols && !IsNumericSampled(h, rows, c) && IsMissing(Get(rows[i], c)) then Some(Str(UnknownText)) else Get(rows[i], c)
  {
    FilledCell(rows[i], cols, UnknownFill(h, rows, cols), c);
  }

  /** Two tables that agree on a column count that column alike. */
  lemma {:induction false} ColumnCountsAgree(h: Host, a: seq<Row>, b: seq<Row>, col: string, n: nat)
    requires n <= |a| && n <= |b|
    requires forall j :: 0 <= j < n ==> Get(a[j], col) == Get(b[j], col)
    ensures PresentCount(a, col, n) == PresentCount(b, col, n)
    ensures NumericLikeCount(h, a, col, n) == NumericLikeCount(h, b, col, n)
  {
    if n > 0 {
      ColumnCountsAgree(h, a, b, col, n - 1);
    }
  }

  /** The heuristic only sees the column it classifies. */
  lemma SampledDependsOnColumnOnly(h: Host, a: seq<Row>, b: seq<Row>, col: string)
    requires |a| == |b|
    requires forall j :: 0 <= j < |a| ==> Get(a[j], col) == Get(b[j], col)
    ensures IsNumericSampled(h, a, col) == IsNumericSampled(h, b, col)
  {
    ColumnCountsAgree(h, a, b, col, SampleLength(a));
  }

  /**
   * Numeric fill followed by categorical fill leaves no missing cell in any
   * listed column: the two operations share the heuristic, so no column is
   * skipped by both.
   */
  lemma FillsLeaveNoMissing(h: Host, rows: seq<Row>, cols: seq<string>, i: nat, c: string)
    requires i < |rows| && c in cols
    ensures var filled := CategoricalFilled(h, NumericFilled(h, rows, cols), cols);
      |filled| == |rows| && !IsMissing(Get(filled[i], c))
  {
    var d1 := NumericFilled(h, rows, cols);
    NumericFilledCell(h, rows, cols, i, c);
    CategoricalFilledCell(h, d1, cols, i, c);
    if IsNumericSampled(h, d1, c) {
      if !IsNumericSampled(h, rows, c) {
        forall j | 0 <= j < |rows|
          ensures Get(d1[j], c) == Get(rows[j], c)
        {
          NumericFilledCell(h, rows, cols, j, c);
        }
        SampledDependsOnColumnOnly(h, d1, rows, c);
      }
      PresentCountMonotone(rows, c, SampleLength(rows), |rows|);
    }
  }

  /** Running the operations of `a + b` is running those of `a`, then those of `b` on the result. */
  lemma {:induction false} AppliedConcat(h: Host, rows: seq<Row>, columns: seq<string>, a: seq<string>, b: seq<string>)
    ensures Applied(h, rows, columns, a + b) == Applied(h, Applied(h, rows, columns, a), columns, b)
  {
    if |b| == 0 {
      assert a + b == a;
    } else {
      var b' := b[..|b| - 1];
      AppliedConcat(h, rows, columns, a, b');
      assert (a + b)[..|a + b| - 1] == a + b';
    }
  }

  /** An unrecognised operation name anywhere in the list changes nothing. */
  lemma UnrecognisedIgnored(h: Host, rows: seq<Row>, columns: seq<string>, a: seq<string>, op: string, b: seq<string>)
    requires !IsRecognised(op)
    ensures Applied(h, rows, columns, a + [op] + b) == Applied(h, rows, columns, a + b)
  {
    AppliedConcat(h, rows, columns, a + [op], b);
    AppliedConcat(h, rows, columns, a, b);
    assert (a + [op])[..|a + [op]| - 1] == a;
  }

  /** The user interface's pipeline: duplicate removal, then numeric fill, then categorical fill. */
  lemma UiPipeline(h: Host, rows: seq<Row>, columns: seq<string>)
    ensures Applied(h, rows, columns, UiOperations)
      == CategoricalFilled(h, NumericFilled(h, Deduplicated(h, rows), columns), columns)
  {
    var ops := UiOperations;
    assert ops[..1][..0] == [] && ops[..1][0] == RemoveDuplicatesOp;
    var d0 := Applied(h, rows, columns, ops[..1]);
    assert |ops[..1]| == 1;
    assert Applied(h, rows, columns, ops[..1][..0]) == rows;
    assert d0 == ApplyOperation(h, rows, columns, RemoveDuplicatesOp);
    assert d0 == Deduplicated(h, rows);
    assert ops[..2][..1] == ops[..1] && ops[..2][1] == FillNumericOp;
    var d1 := Applied(h, rows, columns, ops[..2]);
    assert d1 == NumericFilled(h, d0, columns);
    assert ops[..2] == ops[..|ops| - 1] && ops[2] == FillCategoricalOp;
  }

  /** After the user interface's pipeline no listed column has a missing cell. */
  lemma UiPipelineLeavesNoMissing(h: Host, rows: seq<Row>, columns: seq<string>)
    ensures var r := Applied(h, rows, columns, UiOperations);
      && |r| <= |rows|
      && forall i, c :: 0 <= i < |r| && c in columns ==> !IsMissing(Get(r[i], c))
  {
    UiPipeline(h, rows, columns);
    var d0 := Deduplicated(h, rows);
    if |rows| > 0 {
      KeptKeysDistinct(h, rows, rows[0].keys, |rows|);
      UniqueIsFirstOccurrences(h, rows, rows[0].keys, |rows|);
    }
    forall i, c | 0 <= i < |d0| && c in columns
      ensures !IsMissing(Get(CategoricalFilled(h, NumericFilled(h, d0, columns), columns)[i], c))
    {
      FillsLeaveNoMissing(h, d0, columns, i, c);
    }
  }

  /** When the columns are the first row's keys, the user interface's pipeline keeps the first row's keys. */
  lemma UiPipelineKeepsColumns(h: Host, rows: seq<Row>)
    ensures Profiler.FirstRowKeys(Applied(h, rows, Profiler.FirstRowKeys(rows), UiOperations)) == Profiler.FirstRowKeys(rows)
  {
    var cols := Profiler.FirstRowKeys(rows);
    UiPipeline(h, rows, cols);
    if |rows| > 0 {
      var d0 := Deduplicated(h, rows);
      var d1 := NumericFilled(h, d0, cols);
      FirstRowKept(h, rows, rows[0].keys, |rows|);
      assert d0[0] == rows[0];
      FilledKeys(d0[0], cols, MeanFill(ColumnMeans(h, d0, cols)));
      FilledKeys(d1[0], cols, UnknownFill(h, d1, cols));
    }
  }

  /**
   * Cleaning a dataset built from its rows with the user interface's
   * operations keeps its columns and yields a profile that reports no
   * missing values, with no more rows than before.
   */
  lemma UiCleanReportsNoMissing(h: Host, ds: Dataset)
    requires ds.columns == Profiler.FirstRowKeys(ds.data)
    ensures var r := Cleaned(h, ds, UiOperations);
      && r.columns == ds.columns
      && |r.data| <= |ds.data|
      && r.info.missingValues == []
      && (forall i, c :: 0 <= i < |r.data| && c in r.columns ==> !IsMissing(Get(r.data[i], c)))
  {
    var r := Cleaned(h, ds, UiOperations);
    UiPipelineKeepsColumns(h, ds.data);
    UiPipelineLeavesNoMissing(h, ds.data, ds.columns);
    Profiler.CompleteTableReportsNothing(h, r.data, r.columns);
  }
}
