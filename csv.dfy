/**
 * The upload screen's CSV reader and the download button's CSV writer.
 *
 * Reading splits the text on line feeds, drops blank lines, takes the first
 * line's trimmed comma-separated fields as headers and turns every further
 * line into a row object, keyed by header, whose fields are numbers when
 * `parseFloat` reads them as finite numbers and strings otherwise; rows whose
 * values are all `''` are dropped. Writing prints the column line and then one
 * line per row, quoting strings and printing nothing for `null` or `undefined`.
 */
module Csv {
  import opened Wrappers
  import opened Table
  import opened Types
  import opened Seqs
  import opened Strings
  import Profiler

  /** The alert shown when the file cannot be read. */
  const ParseErrorMessage: string := "Error parsing file. Please ensure it's a valid CSV."

  // ---------------------------------------------------------------------
  // Reading
  // ---------------------------------------------------------------------

  /** `!line.trim()`: the line has white space only. */
  predicate IsBlank(line: string)
  {
    Trim(line) == ""
  }

  /** `lines.filter(line => line.trim())`. */
  function NonBlank(lines: seq<string>): (r: seq<string>)
    ensures |r| <= |lines|
    ensures forall k :: 0 <= k < |r| ==> !IsBlank(r[k])
  {
    if |lines| == 0 then []
    else
      var last := lines[|lines| - 1];
      NonBlank(lines[..|lines| - 1]) + if IsBlank(last) then [] else [last]
  }

  /** A sequence of lines none of which is blank passes the filter unchanged. */
  lemma {:induction false} NonBlankKeepsAll(lines: seq<string>)
    requires forall k :: 0 <= k < |lines| ==> !IsBlank(lines[k])
    ensures NonBlank(lines) == lines
  {
    if |lines| > 0 {
      NonBlankKeepsAll(lines[..|lines| - 1]);
      assert lines[..|lines| - 1] + [lines[|lines| - 1]] == lines;
    }
  }

  /** The positions of the lines the filter keeps. */
  ghost function NonBlankPositions(lines: seq<string>): (idx: seq<nat>)
    ensures |idx| == |NonBlank(lines)|
    ensures forall k :: 0 <= k < |idx| ==> idx[k] < |lines|
  {
    if |lines| == 0 then []
    else NonBlankPositions(lines[..|lines| - 1]) + if IsBlank(lines[|lines| - 1]) then [] else [|lines| - 1]
  }

  /** The kept lines are, in order, exactly the lines that are not blank. */
  lemma {:induction false} NonBlankExact(lines: seq<string>)
    ensures SubsequenceAt(NonBlank(lines), lines, NonBlankPositions(lines))
    ensures forall i :: 0 <= i < |lines| ==> (i in NonBlankPositions(lines) <==> !IsBlank(lines[i]))
  {
    if |lines| > 0 {
      var n := |lines|;
      var init := lines[..n - 1];
      NonBlankExact(init);
      var idx0 := NonBlankPositions(init);
      var idx := NonBlankPositions(lines);
      var r0 := NonBlank(init);
      var r := NonBlank(lines);
      SubsequenceOfPrefix(r0, lines, idx0, n - 1);
      if !IsBlank(lines[n - 1]) {
        assert r == r0 + [lines[n - 1]] && idx == idx0 + [n - 1];
        SubsequenceAppend(r0, lines, idx0, n - 1);
      } else {
        assert r == r0 && idx == idx0;
      }
      forall i | 0 <= i < n
        ensures i in idx <==> !IsBlank(lines[i])
      {
        if i < n - 1 {
          assert init[i] == lines[i];
          assert i in idx <==> i in idx0;
        }
      }
    }
  }

  /** The first kept line, the one the headers come from, is the first line that is not blank. */
  lemma FirstKeptIsFirstNonBlank(lines: seq<string>)
    requires |NonBlank(lines)| > 0
    ensures var j := NonBlankPositions(lines)[0];
      && j < |lines|
      && NonBlank(lines)[0] == lines[j]
      && !IsBlank(lines[j])
      && forall i :: 0 <= i < j ==> IsBlank(lines[i])
  {
    NonBlankExact(lines);
    var idx := NonBlankPositions(lines);
    forall i | 0 <= i < idx[0]
      ensures IsBlank(lines[i])
    {
      assert !IsBlank(lines[i]) ==> i in idx;
    }
  }

  /** `line.split(',').map(v => v.trim())`. */
  function Fields(line: string): seq<string>
  {
    var parts := Split(line, ',');
    seq(|parts|, k requires 0 <= k < |parts| => Trim(parts[k]))
  }

  /** `values[index] || ''`: the field under a header, or `''` past the end of a short line. */
  function ValueAt(values: seq<string>, k: nat): string
  {
    if k < |values| then values[k] else ""
  }

  /** A field becomes a number when it is not `''` and `parseFloat` reads a finite number from it, else it stays a string. */
  function ParseField(h: Host, s: string): Cell
  {
    if s != "" && h.parseFloat(s).Some? then Num(h.parseFloat(s).value) else Str(s)
  }

  /** A field is stored as `''` exactly when it is `''`, and a number only when `parseFloat` reads one. */
  lemma ParseFieldMeaning(h: Host, s: string)
    ensures ParseField(h, s) == Str("") <==> s == ""
    ensures ParseField(h, s).Num? <==> s != "" && h.parseFloat(s).Some?
    ensures ParseField(h, s).Num? ==> h.parseFloat(s) == Some(ParseField(h, s).num)
    ensures ParseField(h, s).Str? ==> ParseField(h, s).text == s
    ensures !ParseField(h, s).Null?
  {
  }

  /** The row after the `forEach` callback has run for the first `n` headers. */
  function RowOfUpTo(h: Host, headers: seq<string>, values: seq<string>, n: nat): Row
    requires n <= |headers|
  {
    if n == 0 then EmptyRow
    else Set(RowOfUpTo(h, headers, values, n - 1), headers[n - 1], ParseField(h, ValueAt(values, n - 1)))
  }

  /** The row object built from one line's fields. */
  function RowOf(h: Host, headers: seq<string>, values: seq<string>): Row
  {
    RowOfUpTo(h, headers, values, |headers|)
  }

  /** The last of the first `n` headers that equals `c`: a repeated header is assigned last by its final occurrence. */
  function LastIndexBelow(headers: seq<string>, c: string, n: nat): (j: nat)
    requires n <= |headers| && c in headers[..n]
    ensures j < n && headers[j] == c
    ensures forall i :: j < i < n ==> headers[i] != c
  {
    if headers[n - 1] == c then n - 1
    else
      assert headers[..n] == headers[..n - 1] + [headers[n - 1]];
      LastIndexBelow(headers, c, n - 1)
  }

  /** After the first `n` headers the row is a proper object whose keys are exactly those headers. */
  lemma {:induction false} RowOfUpToKeys(h: Host, headers: seq<string>, values: seq<string>, n: nat)
    requires n <= |headers|
    ensures WellFormed(RowOfUpTo(h, headers, values, n))
    ensures forall c :: c in RowOfUpTo(h, headers, values, n).keys <==> c in headers[..n]
  {
    if n > 0 {
      var prev := RowOfUpTo(h, headers, values, n - 1);
      var v := ParseField(h, ValueAt(values, n - 1));
      RowOfUpToKeys(h, headers, values, n - 1);
      assert RowOfUpTo(h, headers, values, n) == Set(prev, headers[n - 1], v);
      SetKeepsWellFormed(prev, headers[n - 1], v);
    }
    RowOfUpToKeySet(h, headers, values, n);
  }

  /** The keys after `n` assignments are the first `n` headers. */
  lemma {:induction false} RowOfUpToKeySet(h: Host, headers: seq<string>, values: seq<string>, n: nat)
    requires n <= |headers|
    ensures forall c :: c in RowOfUpTo(h, headers, values, n).keys <==> c in headers[..n]
  {
    if n > 0 {
      var prev := RowOfUpTo(h, headers, values, n - 1);
      RowOfUpToKeySet(h, headers, values, n - 1);
      assert RowOfUpTo(h, headers, values, n).keys == if headers[n - 1] in prev.keys then prev.keys else prev.keys + [headers[n - 1]];
      assert headers[..n] == headers[..n - 1] + [headers[n - 1]];
    }
  }

  /** Key `c` holds the field under its last occurrence among the first `n` headers, or is `undefined` if it is none of them. */
  lemma {:induction false} RowOfUpToGet(h: Host, headers: seq<string>, values: seq<string>, n: nat, c: string)
    requires n <= |headers|
    ensures Get(RowOfUpTo(h, headers, values, n), c)
      == if c in headers[..n] then Some(ParseField(h, ValueAt(values, LastIndexBelow(headers, c, n)))) else None
  {
    if n > 0 {
      var prev := RowOfUpTo(h, headers, values, n - 1);
      assert RowOfUpTo(h, headers, values, n) == Set(prev, headers[n - 1], ParseField(h, ValueAt(values, n - 1)));
      assert headers[..n] == headers[..n - 1] + [headers[n - 1]];
      if c == headers[n - 1] {
        assert LastIndexBelow(headers, c, n) == n - 1;
      } else {
        RowOfUpToGet(h, headers, values, n - 1, c);
        assert c in headers[..n] <==> c in headers[..n - 1];
        if c in headers[..n - 1] {
          assert LastIndexBelow(headers, c, n) == LastIndexBelow(headers, c, n - 1);
        }
      }
    }
  }

  /** With distinct headers the row's keys are the first `n` headers in order. */
  lemma {:induction false} RowOfDistinctKeys(h: Host, headers: seq<string>, values: seq<string>, n: nat)
    requires n <= |headers|
    requires forall i, j :: 0 <= i < j < |headers| ==> headers[i] != headers[j]
    ensures RowOfUpTo(h, headers, values, n).keys == headers[..n]
  {
    if n > 0 {
      RowOfDistinctKeys(h, headers, values, n - 1);
      assert headers[..n] == headers[..n - 1] + [headers[n - 1]];
      assert headers[n - 1] !in headers[..n - 1];
    }
  }

  /** With distinct headers header `k` holds field `k`. */
  lemma RowOfDistinctGet(h: Host, headers: seq<string>, values: seq<string>, k: nat)
    requires k < |headers|
    requires forall i, j :: 0 <= i < j < |headers| ==> headers[i] != headers[j]
    ensures Get(RowOf(h, headers, values), headers[k]) == Some(ParseField(h, ValueAt(values, k)))
  {
    var n := |headers|;
    assert headers[..n] == headers;
    RowOfUpToGet(h, headers, values, n, headers[k]);
  }

  /** Fields past the last header are never read. */
  lemma ExtraFieldsIgnored(h: Host, headers: seq<string>, values: seq<string>, extra: seq<string>, n: nat)
    requires n <= |headers| <= |values|
    ensures RowOfUpTo(h, headers, values + extra, n) == RowOfUpTo(h, headers, values, n)
  {
    forall k: nat | k < n
      ensures ValueAt(values + extra, k) == ValueAt(values, k)
    {
      assert (values + extra)[k] == values[k];
    }
    RowOfUpToAgree(h, headers, values + extra, values, n);
  }

  /** Two lines whose first `n` fields agree give the same row after the first `n` headers. */
  lemma {:induction false} RowOfUpToAgree(h: Host, headers: seq<string>, a: seq<string>, b: seq<string>, n: nat)
    requires n <= |headers|
    requires forall k: nat :: k < n ==> ValueAt(a, k) == ValueAt(b, k)
    ensures RowOfUpTo(h, headers, a, n) == RowOfUpTo(h, headers, b, n)
  {
    if n > 0 {
      RowOfUpToAgree(h, headers, a, b, n - 1);
      var cell := ParseField(h, ValueAt(a, n - 1));
      assert cell == ParseField(h, ValueAt(b, n - 1));
      assert RowOfUpTo(h, headers, a, n) == Set(RowOfUpTo(h, headers, a, n - 1), headers[n - 1], cell);
      assert RowOfUpTo(h, headers, b, n) == Set(RowOfUpTo(h, headers, b, n - 1), headers[n - 1], cell);
    }
  }

  /** The `headers.forEach` loop that fills one row object. */
  method BuildRow(h: Host, headers: seq<string>, values: seq<string>) returns (row: Row)
    ensures row == RowOf(h, headers, values)
    ensures WellFormed(row)
    ensures forall c :: c in row.keys <==> c in headers
  {
    row := EmptyRow;
    for index := 0 to |headers|
      invariant row == RowOfUpTo(h, headers, values, index)
    {
      var stringValue := ValueAt(values, index);
      var cell: Cell;
      if stringValue != "" && h.parseFloat(stringValue).Some? {
        cell := Num(h.parseFloat(stringValue).value);
      } else {
        cell := Str(stringValue);
      }
      row := Set(row, headers[index], cell);
    }
    RowOfUpToKeys(h, headers, values, |headers|);
    assert headers[..|headers|] == headers;
  }

  /** `values.length > 0 && !values.every(v => v === '')` over the row's own values. */
  predicate Kept(row: Row)
  {
    |row.keys| > 0 && exists k :: 0 <= k < |row.keys| && Get(row, row.keys[k]) != Some(Str(""))
  }

  /** With distinct headers a line's row is kept exactly when some header reaches a non-empty field. */
  lemma KeptIffSomeField(h: Host, headers: seq<string>, values: seq<string>)
    requires forall i, j :: 0 <= i < j < |headers| ==> headers[i] != headers[j]
    ensures Kept(RowOf(h, headers, values)) <==> exists k :: 0 <= k < |headers| && ValueAt(values, k) != ""
  {
    var row := RowOf(h, headers, values);
    RowOfDistinctKeys(h, headers, values, |headers|);
    assert headers[..|headers|] == headers;
    forall k | 0 <= k < |headers|
      ensures Get(row, row.keys[k]) != Some(Str("")) <==> ValueAt(values, k) != ""
    {
      RowOfDistinctGet(h, headers, values, k);
      ParseFieldMeaning(h, ValueAt(values, k));
    }
  }

  /** `lines.map(toRow)`: the row of every line, before the filter. */
  function LineRows(h: Host, headers: seq<string>, lines: seq<string>): (rows: seq<Row>)
    ensures |rows| == |lines|
  {
    seq(|lines|, i requires 0 <= i < |lines| => RowOf(h, headers, Fields(lines[i])))
  }

  /** `rows.filter(Kept)`. */
  function KeepRows(rows: seq<Row>): (r: seq<Row>)
    ensures |r| <= |rows|
    ensures forall k :: 0 <= k < |r| ==> Kept(r[k])
  {
    if |rows| == 0 then []
    else
      var last := rows[|rows| - 1];
      KeepRows(rows[..|rows| - 1]) + if Kept(last) then [last] else []
  }

  /** The rows of a sequence of data lines that survive the filter. */
  function ParsedRows(h: Host, headers: seq<string>, lines: seq<string>): seq<Row>
  {
    KeepRows(LineRows(h, headers, lines))
  }

  /** The positions of the rows the filter keeps. */
  ghost function KeptPositions(rows: seq<Row>): (idx: seq<nat>)
    ensures forall k :: 0 <= k < |idx| ==> idx[k] < |rows|
  {
    if |rows| == 0 then []
    else KeptPositions(rows[..|rows| - 1]) + if Kept(rows[|rows| - 1]) then [|rows| - 1] else []
  }

  /** The kept rows are, in order, exactly the rows that pass the filter. */
  lemma {:induction false} KeepRowsExact(rows: seq<Row>)
    ensures SubsequenceAt(KeepRows(rows), rows, KeptPositions(rows))
    ensures forall i :: 0 <= i < |rows| ==> (i in KeptPositions(rows) <==> Kept(rows[i]))
  {
    if |rows| > 0 {
      var n := |rows|;
      var init := rows[..n - 1];
      KeepRowsExact(init);
      var idx0 := KeptPositions(init);
      var idx := KeptPositions(rows);
      var r0 := KeepRows(init);
      var r := KeepRows(rows);
      SubsequenceOfPrefix(r0, rows, idx0, n - 1);
      if Kept(rows[n - 1]) {
        assert r == r0 + [rows[n - 1]] && idx == idx0 + [n - 1];
        SubsequenceAppend(r0, rows, idx0, n - 1);
      } else {
        assert r == r0 && idx == idx0;
      }
      forall i | 0 <= i < n
        ensures i in idx <==> Kept(rows[i])
      {
        if i < n - 1 {
          assert init[i] == rows[i];
          assert i in idx <==> i in idx0;
        }
      }
    }
  }

  /** The file's non-blank lines. */
  function Lines(text: string): seq<string>
  {
    NonBlank(Split(text, '\n'))
  }

  /**
   * The rows the upload handler hands to `createDataset`, or the alert when
   * the file has no non-blank line (reading `lines[0]` then throws).
   */
  function Parsed(h: Host, text: string): Result<seq<Row>, string>
  {
    var lines := Lines(text);
    if |lines| == 0 then Failure(ParseErrorMessage)
    else Success(ParsedRows(h, Fields(lines[0]), lines[1..]))
  }

  /** One more row through the filter. */
  lemma KeepRowsStep(rows: seq<Row>, i: nat)
    requires i < |rows|
    ensures KeepRows(rows[..i + 1]) == KeepRows(rows[..i]) + if Kept(rows[i]) then [rows[i]] else []
  {
    assert rows[..i + 1][..i] == rows[..i];
  }

  /** `lines.slice(1).map(toRow).filter(Kept)`: one row object per data line, then the filter. */
  method ParseLines(h: Host, headers: seq<string>, data: seq<string>) returns (rows: seq<Row>)
    ensures rows == ParsedRows(h, headers, data)
  {
    ghost var all := LineRows(h, headers, data);
    rows := [];
    for i := 0 to |data|
      invariant rows == KeepRows(all[..i])
    {
      var row := BuildRow(h, headers, Fields(data[i]));
      KeepRowsStep(all, i);
      if Kept(row) {
        rows := rows + [row];
      }
    }
    assert all[..|data|] == all;
  }

  /** The body of the `reader.onload` handler up to `createDataset`. */
  method ParseCsv(h: Host, text: string) returns (r: Result<seq<Row>, string>)
    ensures r == Parsed(h, text)
  {
    var lines := Lines(text);
    if |lines| == 0 {
      return Failure(ParseErrorMessage);
    }
    var rows := ParseLines(h, Fields(lines[0]), lines[1..]);
    return Success(rows);
  }

  /** Reading fails exactly when the whole file is blank. */
  lemma ParsedFailsIffBlank(h: Host, text: string)
    ensures Parsed(h, text).Failure? <==> IsBlank(text)
  {
    BlankText(text);
  }

  /** A file has no non-blank line exactly when the whole file is blank. */
  lemma BlankText(text: string)
    ensures |Lines(text)| == 0 <==> IsBlank(text)
  {
    var parts := Split(text, '\n');
    AllBlankIffNonBlankEmpty(parts);
    JoinSplit(text, '\n');
    assert '\n' as int == 0x0A;
    JoinSpaceOnly(parts, '\n');
    TrimBlank(text);
    forall k | 0 <= k < |parts|
      ensures IsBlank(parts[k]) <==> SpaceOnly(parts[k])
    {
      TrimBlank(parts[k]);
    }
  }

  /** The filter keeps nothing exactly when every line is blank. */
  lemma {:induction false} AllBlankIffNonBlankEmpty(lines: seq<string>)
    ensures |NonBlank(lines)| == 0 <==> forall k :: 0 <= k < |lines| ==> IsBlank(lines[k])
  {
    if |lines| > 0 {
      AllBlankIffNonBlankEmpty(lines[..|lines| - 1]);
      assert forall k :: 0 <= k < |lines| - 1 ==> lines[..|lines| - 1][k] == lines[k];
    }
  }

  /** `file.name.replace('.csv', '')`: the first occurrence of `.csv` is removed, wherever it is. */
  function DatasetName(fileName: string): string
  {
    if |fileName| < 4 then fileName
    else if fileName[..4] == ".csv" then fileName[4..]
    else [fileName[0]] + DatasetName(fileName[1..])
  }

  /** `.csv` occurs in `s` starting at `i`. */
  predicate OccursAt(s: string, i: nat)
  {
    i + 4 <= |s| && s[i..i + 4] == ".csv"
  }

  lemma OccursAtShift(s: string, j: nat)
    requires |s| > 0
    ensures OccursAt(s[1..], j) <==> OccursAt(s, j + 1)
  {
    if j + 5 <= |s| {
      assert s[1..][j..j + 4] == s[j + 1..j + 5];
    }
  }

  /** A name without `.csv` is kept as it is. */
  lemma {:induction false} DatasetNameUnchanged(s: string)
    requires forall j :: 0 <= j <= |s| ==> !OccursAt(s, j)
    ensures DatasetName(s) == s
  {
    if |s| >= 4 {
      assert !OccursAt(s, 0);
      forall j | 0 <= j <= |s| - 1
        ensures !OccursAt(s[1..], j)
      {
        OccursAtShift(s, j);
      }
      DatasetNameUnchanged(s[1..]);
      assert [s[0]] + s[1..] == s;
    }
  }

  /** Only the first `.csv` is cut out, wherever it is. */
  lemma {:induction false} DatasetNameCutsFirst(s: string, i: nat)
    requires OccursAt(s, i)
    requires forall j :: 0 <= j < i ==> !OccursAt(s, j)
    ensures DatasetName(s) == s[..i] + s[i + 4..]
  {
    if i == 0 {
      assert s[..0] == [];
    } else {
      assert !OccursAt(s, 0);
      OccursAtShift(s, i - 1);
      forall j | 0 <= j < i - 1
        ensures !OccursAt(s[1..], j)
      {
        OccursAtShift(s, j);
      }
      DatasetNameCutsFirst(s[1..], i - 1);
      assert s[1..][..i - 1] == s[1..i] && s[1..][i - 1 + 4..] == s[i + 4..];
      assert [s[0]] + s[1..i] == s[..i];
    }
  }

  /**
   * The dataset the upload handler shows, or the alert: `createDataset` of
   * the parsed rows under the file name with `.csv` removed.
   */
  function Uploaded(h: Host, fileName: string, text: string): Result<Dataset, string>
  {
    match Parsed(h, text)
    case Failure(e) => Failure(e)
    case Success(rows) => Success(Profiler.NewDataset(h, DatasetName(fileName), rows))
  }

  /**
   * An upload with distinct headers that keeps at least one row has the
   * headers, in file order, as its columns, and every row has exactly those keys.
   */
  lemma UploadedColumns(h: Host, fileName: string, text: string)
    requires |Lines(text)| > 0
    requires var headers := Fields(Lines(text)[0]);
      forall i, j :: 0 <= i < j < |headers| ==> headers[i] != headers[j]
    ensures Uploaded(h, fileName, text).Success?
    ensures var ds := Uploaded(h, fileName, text).value;
      && !ds.cleaned
      && (|ds.data| > 0 ==> ds.columns == Fields(Lines(text)[0]))
      && (forall i :: 0 <= i < |ds.data| ==> ds.data[i].keys == Fields(Lines(text)[0]))
  {
    var lines := Lines(text);
    var headers := Fields(lines[0]);
    var data := lines[1..];
    var all := LineRows(h, headers, data);
    KeepRowsExact(all);
    var rows := KeepRows(all);
    var idx := KeptPositions(all);
    forall i | 0 <= i < |rows|
      ensures rows[i].keys == headers
    {
      RowOfDistinctKeys(h, headers, Fields(data[idx[i]]), |headers|);
      assert headers[..|headers|] == headers;
    }
  }

  // ---------------------------------------------------------------------
  // Writing
  // ---------------------------------------------------------------------

  /** One printed cell: a string in double quotes, a number by `String`, `null` and `undefined` as nothing. */
  function CellText(h: Host, v: Option<Cell>): string
  {
    match v
    case Some(Str(s)) => "\"" + s + "\""
    case Some(Num(x)) => h.numberToString(x)
    case Some(Null) => ""
    case None => ""
  }

  /** The printed cells of one row, in column order. */
  function LineCells(h: Host, columns: seq<string>, row: Row): (cells: seq<string>)
  {
    seq(|columns|, k requires 0 <= k < |columns| => CellText(h, Get(row, columns[k])))
  }

  /** `headers.map(...).join(',')` for one row. */
  function ExportLine(h: Host, columns: seq<string>, row: Row): string
  {
    Join(LineCells(h, columns, row), ',')
  }

  /** The column line followed by one line per row. */
  function ExportLines(h: Host, ds: Dataset): seq<string>
  {
    [Join(ds.columns, ',')] + seq(|ds.data|, i requires 0 <= i < |ds.data| => ExportLine(h, ds.columns, ds.data[i]))
  }

  /** The text `downloadCleanedData` puts in the file. */
  function ExportCsv(h: Host, ds: Dataset): string
  {
    Join(ExportLines(h, ds), '\n')
  }

  /** No column name and no printed cell contains `c`. */
  predicate PrintsWithout(h: Host, ds: Dataset, c: char)
  {
    && (forall k :: 0 <= k < |ds.columns| ==> c !in ds.columns[k])
    && (forall i, k :: 0 <= i < |ds.data| && 0 <= k < |ds.columns| ==> c !in CellText(h, Get(ds.data[i], ds.columns[k])))
  }

  /**
   * When no name or printed cell holds a line feed, the file splits back
   * into the column line and one line per row, in row order.
   */
  lemma ExportSplitsIntoLines(h: Host, ds: Dataset)
    requires PrintsWithout(h, ds, '\n')
    ensures Split(ExportCsv(h, ds), '\n') == ExportLines(h, ds)
    ensures |Split(ExportCsv(h, ds), '\n')| == 1 + |ds.data|
  {
    ExportLinesAvoid(h, ds, '\n');
    SplitJoin(ExportLines(h, ds), '\n');
  }

  /** A character other than the comma that no name or printed cell holds is in no printed line. */
  lemma ExportLinesAvoid(h: Host, ds: Dataset, c: char)
    requires c != ','
    requires PrintsWithout(h, ds, c)
    ensures forall k :: 0 <= k < |ExportLines(h, ds)| ==> c !in ExportLines(h, ds)[k]
  {
    var lines := ExportLines(h, ds);
    JoinAvoids(ds.columns, ',', c);
    forall k | 1 <= k < |lines|
      ensures c !in lines[k]
    {
      var row := ds.data[k - 1];
      assert lines[k] == ExportLine(h, ds.columns, row);
      JoinAvoids(LineCells(h, ds.columns, row), ',', c);
    }
  }

  /**
   * When no printed cell holds a comma, a row's line splits back into its
   * printed cells, one per column in column order.
   */
  lemma ExportLineFields(h: Host, columns: seq<string>, row: Row)
    requires |columns| > 0
    requires forall k :: 0 <= k < |columns| ==> ',' !in CellText(h, Get(row, columns[k]))
    ensures var fields := Split(ExportLine(h, columns, row), ',');
      && |fields| == |columns|
      && forall k :: 0 <= k < |columns| ==> fields[k] == CellText(h, Get(row, columns[k]))
  {
    SplitJoin(LineCells(h, columns, row), ',');
  }

  /** Splitting a comma join of comma-free, already trimmed parts and trimming gives back the parts. */
  lemma FieldsOfJoin(parts: seq<string>)
    requires |parts| >= 1
    requires forall k :: 0 <= k < |parts| ==> ',' !in parts[k] && Trim(parts[k]) == parts[k]
    ensures Fields(Join(parts, ',')) == parts
  {
    SplitJoin(parts, ',');
  }

  /** What the file must look like for reading it back to see the same lines and fields. */
  predicate ReadableExport(h: Host, ds: Dataset)
  {
    && |ds.columns| > 0
    && (forall i, j :: 0 <= i < j < |ds.columns| ==> ds.columns[i] != ds.columns[j])
    && (forall k :: 0 <= k < |ds.columns| ==> ',' !in ds.columns[k] && Trim(ds.columns[k]) == ds.columns[k])
    && PrintsWithout(h, ds, '\n')
    && PrintsWithout(h, ds, ',')
    && (forall i, k :: 0 <= i < |ds.data| && 0 <= k < |ds.columns| ==>
          var t := CellText(h, Get(ds.data[i], ds.columns[k])); Trim(t) == t)
    && !IsBlank(Join(ds.columns, ','))
    && (forall i :: 0 <= i < |ds.data| ==> !IsBlank(ExportLine(h, ds.columns, ds.data[i])))
  }

  /** The row object reading gives for the downloaded line of `row`. */
  function ReadBack(h: Host, columns: seq<string>, row: Row): Row
  {
    RowOf(h, columns, LineCells(h, columns, row))
  }

  /** Reading a downloaded file sees exactly the lines the writer printed. */
  lemma ExportedLinesRead(h: Host, ds: Dataset)
    requires PrintsWithout(h, ds, '\n')
    requires !IsBlank(Join(ds.columns, ','))
    requires forall i :: 0 <= i < |ds.data| ==> !IsBlank(ExportLine(h, ds.columns, ds.data[i]))
    ensures Lines(ExportCsv(h, ds)) == ExportLines(h, ds)
  {
    var lines := ExportLines(h, ds);
    forall k | 0 <= k < |lines|
      ensures !IsBlank(lines[k])
    {
      if k > 0 {
        assert lines[k] == ExportLine(h, ds.columns, ds.data[k - 1]);
      }
    }
    ExportSplitsIntoLines(h, ds);
    NonBlankKeepsAll(lines);
  }

  /** The rows read from the printed data lines are the read-back rows. */
  lemma ExportedRowsRead(h: Host, ds: Dataset)
    requires ReadableExport(h, ds)
    ensures LineRows(h, ds.columns, ExportLines(h, ds)[1..])
      == seq(|ds.data|, i requires 0 <= i < |ds.data| => ReadBack(h, ds.columns, ds.data[i]))
  {
    var data := ExportLines(h, ds)[1..];
    forall i | 0 <= i < |data|
      ensures Fields(data[i]) == LineCells(h, ds.columns, ds.data[i])
    {
      ExportedFields(h, ds, i);
    }
  }

  /** The printed line of row `i` reads back as its printed cells. */
  lemma ExportedFields(h: Host, ds: Dataset, i: nat)
    requires ReadableExport(h, ds)
    requires i < |ds.data|
    ensures Fields(ExportLines(h, ds)[1..][i]) == LineCells(h, ds.columns, ds.data[i])
  {
    var cells := LineCells(h, ds.columns, ds.data[i]);
    assert ExportLines(h, ds)[1..][i] == Join(cells, ',');
    forall k | 0 <= k < |cells|
      ensures ',' !in cells[k] && Trim(cells[k]) == cells[k]
    {
      assert cells[k] == CellText(h, Get(ds.data[i], ds.columns[k]));
    }
    FieldsOfJoin(cells);
  }

  /**
   * Uploading a downloaded file gives, in order, the read-back rows of the
   * dataset's rows that pass the upload filter.
   */
  lemma ReimportRows(h: Host, ds: Dataset)
    requires ReadableExport(h, ds)
    ensures Parsed(h, ExportCsv(h, ds))
      == Success(KeepRows(seq(|ds.data|, i requires 0 <= i < |ds.data| => ReadBack(h, ds.columns, ds.data[i]))))
  {
    ExportedLinesRead(h, ds);
    FieldsOfJoin(ds.columns);
    ExportedRowsRead(h, ds);
  }

  /**
   * A read-back cell: a number comes back as the same number when
   * `parseFloat(String(x))` is x, a string comes back wrapped in the double
   * quotes the writer added, and `null` or `undefined` come back as `''`.
   */
  lemma ReadBackCell(h: Host, columns: seq<string>, row: Row, k: nat)
    requires k < |columns|
    requires forall i, j :: 0 <= i < j < |columns| ==> columns[i] != columns[j]
    ensures var back := Get(ReadBack(h, columns, row), columns[k]);
      match Get(row, columns[k])
      case Some(Num(x)) =>
        h.numberToString(x) != "" && h.parseFloat(h.numberToString(x)) == Some(x) ==> back == Some(Num(x))
      case Some(Str(s)) =>
        h.parseFloat("\"" + s + "\"").None? ==> back == Some(Str("\"" + s + "\""))
      case _ => back == Some(Str(""))
  {
    RowOfDistinctGet(h, columns, LineCells(h, columns, row), k);
  }
}
