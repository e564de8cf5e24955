# Dataset profiler and cleaner, modelled in Dafny

This project models the in-memory table engine of a data-science assistant web app.

- `DatasetTools` (`lib/datasetTools.ts`) does three things:
  - it profiles a table of row objects: a dtype, non-null and null counts per column, a missing-value report and the shape;
  - it builds datasets from rows;
  - it cleans them with a named pipeline:
    - duplicate removal;
    - mean imputation of numeric columns;
    - `"Unknown"` for categorical gaps;
    - dropping incomplete rows.
- The upload screen (`components/DataScientistAgent.tsx`) adds two pieces:
  - a small CSV reader that turns text into those row objects;
  - a CSV writer that turns a dataset back into text.

A row is a JavaScript object. It is modelled as its own keys, in insertion order, plus a map from key to cell. A cell is a number, a string or `null`, and a lookup of an absent key gives `undefined` (`None`). The model treats these JavaScript built-ins as oracles: a `Host` value passed to every operation that needs them. The model does not fix what they do:

- `parseFloat` (finite result or not);
- `Date.parse` (NaN or not);
- `String(number)`.

Files and modules:

| file | module | contents |
|---|---|---|
| `wrappers.dfy` | `Wrappers` | `Option`, `Result` |
| `seqs.dfy` | `Seqs` | order-preserving subsequence predicates |
| `table.dfy` | `Table` | cells, rows, `Get`/`Set`, missingness, present counts, the `Host` oracles |
| `types.dfy` | `Types` | `ColumnInfo`, `MissingValue`, `DataType`, `DatasetInfo`, `Dataset` |
| `profiler.dfy` | `Profiler` | `analyzeDataset` and `createDataset`: spec functions and loop methods proved equal to them |
| `cleaner.dfy` | `Cleaner` | the sampled numeric heuristic, the four cleaning operations and `cleanDataset` |
| `strings.dfy` | `Strings` | `split`, `join` and `trim` on one-character delimiters |
| `csv.dfy` | `Csv` | the upload reader, the file-name rule and the download writer |
| `scenario.dfy` | `Scenario` | a worked four-row example, profiled and cleaned |

Each loop in the source becomes a `method` with a loop, whose `ensures` ties its result to a specification function. The properties are then proved about that function as lemmas.

- The nested loops of `analyzeDataset` become `Profiler.ProfileColumn` and `Profiler.AnalyzeDataset`.
- The `seen`-set loop of duplicate removal becomes `Cleaner.RemoveDuplicates`.
- The counters of the heuristic become `Cleaner.IsNumericColumn`.
- Each fill's loop over rows becomes a method: `Cleaner.FillNumericMissing` and `Cleaner.FillCategoricalMissing`.
- The inner `forEach` over columns becomes a per-row method: `Cleaner.FillRowWithMeans` and `Cleaner.FillRowWithUnknown`.
- The reassignment per operation becomes `Cleaner.CleanDataset`.
- The `headers.forEach` that fills a row object becomes `Csv.BuildRow`.

The plain `filter`, `map` and `join` expressions become functions. These are row removal, the reader's filters and the writer.

Neither `cleanDataset` nor the operations it runs modify the input dataset: they build new arrays and copy each row before writing to it.

Both fills classify columns with `isNumericColumnOptimized` on their own input rows. The profiler's dtype is a different rule, a full scan of the column. `Cleaner.ClassifiersDisagree` gives a concrete column on which the two disagree.

## Model

One row per member that models the source. The members without a row are proof helpers. These are the arithmetic steps of the mean bounds (`Times`, `TimesIsProduct`, `SumWithinTimes`, `QuotientWithin`, `MultiplyPositiveMonotone`, `SelfQuotient`), the key-sequence forms of duplicate removal (`FirstIn`, `FirstPositionsIn`, `FirstPositionsInExact`), the generic subsequence lemmas in `Seqs`, and the steps and sample data of `Scenario`.

| member | source | states |
|---|---|---|
| Table.WellFormed | lib/datasetTools.ts:190-195 | a proper object: its keys are distinct and are exactly the keys that hold a value |
| Table.Get | lib/datasetTools.ts:32 | `row[col]` reads the value stored under an own key, and `undefined` for any other key |
| Table.IsMissing | lib/datasetTools.ts:33 | a value is missing when it is `null`, `undefined` or `''`, so the number 0 and every other string are present |
| Table.Set | lib/datasetTools.ts:190-195 | after `row[col] = v`, `col` holds `v` and every other key is unchanged |
| Table.SetKeepsWellFormed | lib/datasetTools.ts:190-195 | writing a cell keeps a proper object proper: its keys stay distinct and are exactly the keys of its cells |
| Table.CellString | lib/datasetTools.ts:150 | `String(v)` of a looked-up value: `"undefined"`, `"null"`, `String(x)` for a number, the string itself |
| Table.PresentCount | lib/datasetTools.ts:29-31 | the number of present cells among the first `n` rows is at most `n` |
| Table.PresentCountExtremes | lib/datasetTools.ts:29-45 | the present count equals `n` exactly when no cell is missing, and 0 exactly when all are |
| Table.PresentCountPrefix | lib/datasetTools.ts:29-31 | the count over the first `n` rows depends only on those rows |
| Table.PresentCountMonotone | lib/datasetTools.ts:29-31 | the count never decreases as more rows are scanned |
| Profiler.IsNumber | lib/datasetTools.ts:35 | `typeof value === 'number'` |
| Profiler.IsText | lib/datasetTools.ts:33-37 | a present string, one that is not `''` |
| Profiler.IsDateText | lib/datasetTools.ts:37-41 | a present string on which `Date.parse` is not NaN |
| Profiler.HasNumbers | lib/datasetTools.ts:27-36 | the `hasNumbers` flag after the scan: some row holds a number in the column |
| Profiler.HasStrings | lib/datasetTools.ts:28-38 | the `hasStrings` flag after the scan: some row holds a non-empty string in the column |
| Profiler.HasDates | lib/datasetTools.ts:29-41 | the `hasDates` flag after the scan: some row holds a non-empty string that date-parses |
| Profiler.InferDtype | lib/datasetTools.ts:49-56 | numeric when the column has numbers and no strings; otherwise datetime when a string date-parses; otherwise categorical when it has strings; otherwise unknown |
| Profiler.ColumnDtype | lib/datasetTools.ts:26-56 | a column's dtype is that decision on the three flags of a scan over all its rows |
| Profiler.ColumnInfoOf | lib/datasetTools.ts:26-63 | a column's info: its name, its full-scan dtype, its present count and the rest of the rows as its null count |
| Profiler.Percentage | lib/datasetTools.ts:47 | `(nullCount / rowCount) * 100`, before rounding |
| Profiler.MissingEntry | lib/datasetTools.ts:65-70 | a report entry: the column, its null count and its percentage |
| Profiler.MissingReport | lib/datasetTools.ts:65-71 | the report lists, in column order, each column with `nullCount > 0`, with its count and percentage |
| Profiler.Profile | lib/datasetTools.ts:18-85 | the profile of the rows over the given columns: the shape, one ColumnInfo and one DataType per column, and the missing-value report |
| Profiler.ProfileColumn | lib/datasetTools.ts:26-63 | the single pass over the rows yields the column's info, and non-null plus null equals the row count |
| Profiler.AnalyzeDataset | lib/datasetTools.ts:18-85 | the profile has shape `(rows, columns)`, and one ColumnInfo and one DataType per column, in column order, with the same dtype and counts that add up to the row count |
| Profiler.ProfileShape | lib/datasetTools.ts:18-85 | the profile has one entry per column, in column order, whose non-null and null counts add up to the row count |
| Profiler.MissingReportStep | lib/datasetTools.ts:65-71 | one more profiled column joins the report exactly when it has a missing cell |
| Profiler.FirstRowKeys | lib/datasetTools.ts:5 | the columns: `Object.keys(data[0])`, or none for an empty table |
| Profiler.NewDataset | lib/datasetTools.ts:4-16 | the dataset `createDataset` builds: the name, the rows, the first row's keys as columns (none for an empty table), their profile, not cleaned |
| Profiler.CreateDataset | lib/datasetTools.ts:4-16 | the columns are the first row's keys, or none for an empty table; the info is the profile of the data over them; `cleaned` is false |
| Profiler.DtypeByContent | lib/datasetTools.ts:49-56 | numeric iff some number and every present cell a number; datetime iff some string date-parses; categorical iff a non-empty string but no date; unknown iff every cell is missing |
| Profiler.MissingPositions | lib/datasetTools.ts:65-71 | each listed column position has a missing cell |
| Profiler.MissingPositionsExact | lib/datasetTools.ts:65-71 | the listed positions increase and are exactly those with `nullCount > 0` |
| Profiler.MissingReportExact | lib/datasetTools.ts:65-71 | the report has one entry, in column order, for each column with `nullCount > 0`, carrying its name, its count and its percentage |
| Profiler.ProfileMissingExact | lib/datasetTools.ts:26-71 | column `i` gets a report entry iff one of its cells is missing, and that entry's count is the column's `nullCount` |
| Profiler.MissingReportEmpty | lib/datasetTools.ts:65-71 | no column with a missing cell means an empty report |
| Profiler.CompleteTableReportsNothing | lib/datasetTools.ts:26-71 | a table with no missing cell in the listed columns gets an empty missing-value report |
| Cleaner.SampleLength | lib/datasetTools.ts:235 | `Math.min(1000, data.length)` |
| Cleaner.IsNumericLike | lib/datasetTools.ts:240-250 | a sampled value counts as numeric when it is present and is a number, or is a string whose `parseFloat` is finite |
| Cleaner.IsNumericSampled | lib/datasetTools.ts:231-256 | a column is numeric when the first `min(1000, n)` rows hold a present cell and more than 80% of those are numeric-like |
| Cleaner.NumericLikeCount | lib/datasetTools.ts:239-252 | the numeric-like count never exceeds the present count |
| Cleaner.IsNumericColumn | lib/datasetTools.ts:231-256 | true iff the first `min(1000, n)` rows hold a present cell and more than 80% of those are numbers or finite-parsing strings; false on empty data |
| Cleaner.NumericLikeCountPrefix | lib/datasetTools.ts:239-252 | the numeric-like count depends only on the scanned rows |
| Cleaner.SampledDependsOnSampleOnly | lib/datasetTools.ts:234-239 | the heuristic depends only on the first `min(1000, n)` rows |
| Cleaner.AllNumericLikeCount | lib/datasetTools.ts:239-252 | when every present cell is numeric-like, the two counters agree |
| Cleaner.ProfilerNumericIsSampledNumeric | lib/datasetTools.ts:231-256 | a column the profiler calls numeric is sampled-numeric whenever the sample holds one of its present cells |
| Cleaner.ClassifiersDisagree | lib/datasetTools.ts:254-255 | nine numbers and one unparseable word make a column categorical for the profiler, yet numeric for the cleaner |
| Cleaner.ColumnCountsAgree | lib/datasetTools.ts:239-252 | the two counters depend only on the column's own cells |
| Cleaner.SampledDependsOnColumnOnly | lib/datasetTools.ts:231-256 | the heuristic depends only on the column's own cells, so a fill of other columns cannot change it |
| Cleaner.RowKey | lib/datasetTools.ts:148-151 | a row's duplicate key concatenates `String(row[k]) + '|'` over the first row's keys `k`, in order |
| Cleaner.SeenKeys | lib/datasetTools.ts:142-157 | the `seen` set after `n` iterations: the keys of the first `n` rows |
| Cleaner.UniqueUpTo | lib/datasetTools.ts:143-157 | the `unique` array after `n` iterations: each of the first `n` rows whose key was not seen before it |
| Cleaner.RowKeys | lib/datasetTools.ts:147-151 | the duplicate key of every row, in row order |
| Cleaner.IsFirstOccurrence | lib/datasetTools.ts:147-157 | row `i` is the first row with its key: no earlier row has the same key |
| Cleaner.Deduplicated | lib/datasetTools.ts:139-160 | the rows that are the first with their key, in order; an empty table is returned as it is |
| Cleaner.RemoveDuplicates | lib/datasetTools.ts:139-160 | the `seen`-set loop computes the deduplicated rows: no more rows than before, and the first row is kept |
| Cleaner.FirstPositions | lib/datasetTools.ts:147-157 | every kept position lies among the scanned rows |
| Cleaner.SeenKeysExact | lib/datasetTools.ts:142-154 | a key is in `seen` iff an already scanned row has it |
| Cleaner.FirstPositionsExact | lib/datasetTools.ts:147-157 | the kept positions increase and are exactly the first occurrences of their keys |
| Cleaner.FirstIffUnseen | lib/datasetTools.ts:147-154 | a row is the first with its key exactly when its key is not yet in `seen` |
| Cleaner.UniqueUnfold | lib/datasetTools.ts:153-156 | one more iteration pushes the row exactly when its key is not in `seen` |
| Cleaner.UniqueStep | lib/datasetTools.ts:147-157 | scanning one more row appends it to the output exactly when it is the first with its key |
| Cleaner.UniqueIsFirstOccurrences | lib/datasetTools.ts:147-157 | the output is the order-preserving subsequence of the rows that are the first with their key |
| Cleaner.KeptKeysDistinct | lib/datasetTools.ts:153-156 | no two kept rows share a key |
| Cleaner.EarliestTwin | lib/datasetTools.ts:147-157 | every row's key is first held by a row at or before it |
| Cleaner.DroppedRowHasKeptTwin | lib/datasetTools.ts:153-156 | every dropped row has an earlier kept row with the same key |
| Cleaner.DistinctKeysAllKept | lib/datasetTools.ts:147-157 | rows with distinct keys are all kept, unchanged and in order |
| Cleaner.FirstRowKept | lib/datasetTools.ts:147-157 | the first row always survives, in first place |
| Cleaner.DeduplicatedIdempotent | lib/datasetTools.ts:139-160 | removing duplicates twice is removing them once |
| Cleaner.FilledCell | lib/datasetTools.ts:190-196 | a copied row's cell changes only when its column is listed, has a fill value and was missing, and then becomes that value |
| Cleaner.FilledKeys | lib/datasetTools.ts:190-196 | filling a row whose keys include every listed column leaves the key order unchanged |
| Cleaner.NumericValue | lib/datasetTools.ts:176 | a present number adds itself to the sum, and a present string adds its `parseFloat` |
| Cleaner.NumericSum | lib/datasetTools.ts:170-179 | the sum over the present cells of the column among the first `n` rows |
| Cleaner.Mean | lib/datasetTools.ts:181-183 | the column's mean is that sum over all rows divided by the present count |
| Cleaner.NumericSumBounds | lib/datasetTools.ts:170-179 | present values within `[lo, hi]` give a sum within `count*lo` and `count*hi` |
| Cleaner.MeanWithinBounds | lib/datasetTools.ts:181-183 | the imputed mean lies between any bounds of the column's present values |
| Cleaner.ColumnMeans | lib/datasetTools.ts:166-185 | a mean exists exactly for each listed column that is sampled-numeric and has a present cell |
| Cleaner.ComputeColumnMeans | lib/datasetTools.ts:166-185 | the per-column sum and count loop yields exactly the means of the sampled-numeric columns with a present cell |
| Cleaner.WithMissingFilled | lib/datasetTools.ts:190-196 | a copy of the row in which each listed column that has a fill value and is missing takes that value |
| Cleaner.MeanFill | lib/datasetTools.ts:192-194 | the fill value of each column with a mean is that mean as a number |
| Cleaner.NumericFilled | lib/datasetTools.ts:162-201 | the result of the numeric fill: each row with its missing cells in columns with a mean set to that mean |
| Cleaner.FillRowWithMeans | lib/datasetTools.ts:189-197 | the per-row `forEach` writes the mean into each missing cell of a column with a mean |
| Cleaner.FillNumericMissing | lib/datasetTools.ts:162-201 | the fill yields one output row per input row, and the rows are the numeric-filled table |
| Cleaner.NumericFilledCell | lib/datasetTools.ts:162-201 | a column has a mean iff it is listed, sampled-numeric and has a present cell; a cell changes iff its column has a mean and it was missing, and then it becomes the sum/count mean |
| Cleaner.UnknownFill | lib/datasetTools.ts:208-212 | `"Unknown"` is the fill value for each listed column that the input rows do not make sampled-numeric |
| Cleaner.CategoricalFilled | lib/datasetTools.ts:203-218 | the result of the categorical fill: each row with its missing cells in those columns set to `"Unknown"` |
| Cleaner.FillRowWithUnknown | lib/datasetTools.ts:207-213 | the per-row `forEach` writes `"Unknown"` into each missing cell of a column that is not sampled-numeric |
| Cleaner.FillCategoricalMissing | lib/datasetTools.ts:203-218 | one output row per input row; the output is the categorical-filled table |
| Cleaner.CategoricalFilledCell | lib/datasetTools.ts:203-218 | a cell changes iff it was missing in a listed column that the input rows do not make sampled-numeric, and then it becomes `"Unknown"` |
| Cleaner.FillsLeaveNoMissing | lib/datasetTools.ts:162-218 | numeric fill followed by categorical fill leaves no listed cell missing and keeps the row count |
| Cleaner.HasNoMissingField | lib/datasetTools.ts:221-227 | a row passes when none of its own fields is `null`, `undefined` or `''` |
| Cleaner.RemoveRowsWithMissing | lib/datasetTools.ts:220-229 | no more rows than before, and no kept row has a missing own field |
| Cleaner.CompletePositions | lib/datasetTools.ts:220-229 | the positions of kept rows lie within the input |
| Cleaner.RemoveRowsWithMissingExact | lib/datasetTools.ts:220-229 | the output is the order-preserving subsequence of exactly the rows with no `null`, `undefined` or `''` own field |
| Cleaner.IsRecognised | lib/datasetTools.ts:113-126 | an operation name is one of the four `case` labels |
| Cleaner.ApplyOperation | lib/datasetTools.ts:113-126 | each of the four names runs its operation, and the fills use the dataset's own column list; any other name leaves the rows as they are |
| Cleaner.Applied | lib/datasetTools.ts:109-128 | the operations run in order, each on the previous one's output, starting from the dataset's rows |
| Cleaner.Cleaned | lib/datasetTools.ts:107-135 | the cleaned dataset is a new dataset named `name + "_cleaned"` over the rows after the operations, marked cleaned |
| Cleaner.CleanDataset | lib/datasetTools.ts:107-135 | the result is named `name + "_cleaned"`, is marked cleaned, holds the operations' rows applied in order, and is re-profiled over its first row's keys |
| Cleaner.AppliedConcat | lib/datasetTools.ts:111-128 | running `a + b` is running `a`, then `b` on its output |
| Cleaner.UnrecognisedIgnored | lib/datasetTools.ts:113-126 | an unrecognised operation name changes nothing |
| Cleaner.UiPipeline | components/DataScientistAgent.tsx:1947-1951 | the upload screen's operations are duplicate removal, then numeric fill, then categorical fill |
| Cleaner.UiPipelineLeavesNoMissing | components/DataScientistAgent.tsx:1947-1961 | after the upload screen's cleaning no listed cell is missing and no rows were added |
| Cleaner.UiPipelineKeepsColumns | components/DataScientistAgent.tsx:1947-1961 | the upload screen's cleaning keeps the first row's keys as the columns |
| Cleaner.UiCleanReportsNoMissing | components/DataScientistAgent.tsx:1947-1961 | the cleaned dataset keeps the columns, has no more rows, reports no missing values and has no missing cell |
| Strings.Split | components/DataScientistAgent.tsx:1871-1875 | `split` gives at least one piece and no piece contains the delimiter |
| Strings.Join | components/DataScientistAgent.tsx:1982-1990 | `join` puts the delimiter between neighbouring parts; no parts give `''` |
| Strings.JoinSplit | components/DataScientistAgent.tsx:1871-1875 | joining the pieces of a split gives back the string |
| Strings.SplitWithoutDelimiter | components/DataScientistAgent.tsx:1871-1875 | a string without the delimiter splits into itself alone |
| Strings.SplitAtDelimiter | components/DataScientistAgent.tsx:1871-1875 | the first piece ends at the first delimiter |
| Strings.JoinAvoids | components/DataScientistAgent.tsx:1982-1990 | a character that is not the delimiter occurs in a join only if it occurs in a part |
| Strings.SplitJoin | components/DataScientistAgent.tsx:1982-1990 | splitting a join of delimiter-free parts gives back the parts |
| Strings.IsJsSpace | components/DataScientistAgent.tsx:1872-1875 | the characters `trim` removes: the ECMAScript white space and line terminators |
| Strings.SkipSpace | components/DataScientistAgent.tsx:1872-1875 | the index reached is past white space only, and stops at the first character that is not white space |
| Strings.SkipSpaceBack | components/DataScientistAgent.tsx:1872-1875 | the index reached backwards is before white space only, and stops just past the last character that is not white space |
| Strings.TrimFrom | components/DataScientistAgent.tsx:1872-1875 | where the trimmed string starts: just past the leading white space |
| Strings.TrimTo | components/DataScientistAgent.tsx:1872-1875 | where the trimmed string ends: just past the last character that is not white space |
| Strings.Trim | components/DataScientistAgent.tsx:1872-1875 | the trimmed string is no longer than the input and neither starts nor ends with ECMAScript white space |
| Strings.TrimIsInnerSlice | components/DataScientistAgent.tsx:1872-1875 | `trim` keeps a slice of the input, and everything cut away before or after it is white space |
| Strings.SpaceOnly | components/DataScientistAgent.tsx:1871 | every character of the string is white space |
| Strings.SpaceOnlyConcat | components/DataScientistAgent.tsx:1871 | a concatenation is all white space iff both halves are |
| Strings.JoinSpaceOnly | components/DataScientistAgent.tsx:1871 | a join on a white-space delimiter is all white space iff every part is |
| Strings.TrimBlank | components/DataScientistAgent.tsx:1871 | a string trims to `''` iff all its characters are white space |
| Strings.TrimIdempotent | components/DataScientistAgent.tsx:1872-1875 | trimming twice is trimming once |
| Csv.IsBlank | components/DataScientistAgent.tsx:1871 | a line is dropped when it trims to `''` |
| Csv.Lines | components/DataScientistAgent.tsx:1871 | the file's lines, split on line feeds, with the blank ones dropped |
| Csv.NonBlank | components/DataScientistAgent.tsx:1871 | the line filter keeps no more lines than it is given, and none of them is blank |
| Csv.NonBlankPositions | components/DataScientistAgent.tsx:1871 | the positions of the kept lines, one per kept line, each within the input |
| Csv.NonBlankExact | components/DataScientistAgent.tsx:1871 | the kept lines are the order-preserving subsequence of the input at exactly the positions of its non-blank lines |
| Csv.FirstKeptIsFirstNonBlank | components/DataScientistAgent.tsx:1871-1872 | the first kept line, which `lines[0]` takes as the header line, is the input's first non-blank line: every line before it is blank |
| Csv.NonBlankKeepsAll | components/DataScientistAgent.tsx:1871 | lines with no blank one pass the filter unchanged |
| Csv.AllBlankIffNonBlankEmpty | components/DataScientistAgent.tsx:1871 | the filter keeps nothing iff every line is blank |
| Csv.BlankText | components/DataScientistAgent.tsx:1871 | a file has no non-blank line iff the whole file is blank |
| Csv.Fields | components/DataScientistAgent.tsx:1872-1875 | a line's fields are its comma-separated pieces, each trimmed |
| Csv.ValueAt | components/DataScientistAgent.tsx:1879 | `values[index] || ''`: the field under a header, or `''` past the end of a short line |
| Csv.ParseField | components/DataScientistAgent.tsx:1879-1885 | a non-empty field whose `parseFloat` is finite is stored as that number; any other field is stored as the string |
| Csv.ParseFieldMeaning | components/DataScientistAgent.tsx:1879-1885 | a field is stored as the number `parseFloat` gives iff it is non-empty and `parseFloat` is finite; otherwise the trimmed string is kept; it is never `null` |
| Csv.LastIndexBelow | components/DataScientistAgent.tsx:1878-1886 | names the last occurrence of a header among the first `n` |
| Csv.RowOfUpToKeys | components/DataScientistAgent.tsx:1876-1886 | the row is a proper object whose keys are exactly the headers seen so far |
| Csv.RowOfUpToKeySet | components/DataScientistAgent.tsx:1876-1886 | after the first `n` assignments the row's keys are exactly the first `n` headers |
| Csv.RowOfUpToGet | components/DataScientistAgent.tsx:1876-1886 | each header key holds the field under its last occurrence (`''` past the end of a short line); any other key is `undefined` |
| Csv.RowOfDistinctKeys | components/DataScientistAgent.tsx:1876-1886 | with distinct headers the row's keys are the headers in order |
| Csv.RowOfDistinctGet | components/DataScientistAgent.tsx:1876-1886 | with distinct headers header `k` holds the parsed field `k` |
| Csv.RowOfUpToAgree | components/DataScientistAgent.tsx:1876-1886 | two lines whose first `n` fields agree build the same row from the first `n` headers |
| Csv.ExtraFieldsIgnored | components/DataScientistAgent.tsx:1878-1879 | fields beyond the header count are never read |
| Csv.RowOfUpTo | components/DataScientistAgent.tsx:1876-1886 | the row object after the `forEach` has assigned the first `n` headers, each its parsed field |
| Csv.RowOf | components/DataScientistAgent.tsx:1876-1887 | a line's row object: each header in turn assigned its parsed field |
| Csv.BuildRow | components/DataScientistAgent.tsx:1876-1886 | the `forEach` loop builds a proper object whose keys are exactly the headers |
| Csv.Kept | components/DataScientistAgent.tsx:1889-1892 | a row survives when it has an own key and not every own value is `''` |
| Csv.KeptIffSomeField | components/DataScientistAgent.tsx:1889-1892 | with distinct headers a line's row is kept iff some header reaches a non-empty field |
| Csv.LineRows | components/DataScientistAgent.tsx:1874-1888 | one row object per data line |
| Csv.KeepRows | components/DataScientistAgent.tsx:1889-1892 | the row filter keeps only rows that have a key and a value other than `''` |
| Csv.KeptPositions | components/DataScientistAgent.tsx:1889-1892 | the positions of kept rows lie within the input |
| Csv.KeepRowsExact | components/DataScientistAgent.tsx:1889-1892 | the surviving rows are the order-preserving subsequence of exactly the rows that pass the filter |
| Csv.KeepRowsStep | components/DataScientistAgent.tsx:1889-1892 | one more row through the filter appends it iff it passes |
| Csv.ParsedRows | components/DataScientistAgent.tsx:1874-1892 | the rows of the data lines, under the headers, that survive the row filter |
| Csv.ParseLines | components/DataScientistAgent.tsx:1874-1892 | the map/filter over the data lines yields the parsed rows |
| Csv.Parsed | components/DataScientistAgent.tsx:1870-1899 | the alert text when the file has no non-blank line; otherwise the parsed rows of the lines after the first, under the first line's fields as headers |
| Csv.ParseCsv | components/DataScientistAgent.tsx:1870-1892 | the handler yields the parsed rows of the non-blank lines after the header, or the alert when no line is non-blank |
| Csv.ParsedFailsIffBlank | components/DataScientistAgent.tsx:1871-1872 | reading fails, because `lines[0]` is missing, exactly when the whole file is blank |
| Csv.DatasetName | components/DataScientistAgent.tsx:1894 | `fileName.replace('.csv', '')`: the first occurrence of `.csv` is removed, and a name without one is kept |
| Csv.OccursAt | components/DataScientistAgent.tsx:1894 | `.csv` occurs in the name at a given position |
| Csv.OccursAtShift | components/DataScientistAgent.tsx:1894 | an occurrence of `.csv` shifts by one when the first character is dropped |
| Csv.DatasetNameUnchanged | components/DataScientistAgent.tsx:1894 | a file name without `.csv` is used as it is |
| Csv.DatasetNameCutsFirst | components/DataScientistAgent.tsx:1894 | only the first `.csv` in the file name is removed |
| Csv.Uploaded | components/DataScientistAgent.tsx:1870-1899 | an upload gives the alert text, or a new dataset named by the file-name rule over the parsed rows |
| Csv.UploadedColumns | components/DataScientistAgent.tsx:1870-1894 | with distinct headers an upload succeeds; the new dataset is uncleaned; every row has exactly the header keys; the columns are the headers once a row survives |
| Csv.CellText | components/DataScientistAgent.tsx:1986-1987 | a string is printed in double quotes and a number as `String(x)`; `null` and `undefined` print as nothing, as `join` prints them |
| Csv.LineCells | components/DataScientistAgent.tsx:1984-1988 | a row's printed cells under the columns, in column order |
| Csv.ExportLine | components/DataScientistAgent.tsx:1984-1988 | a row's line is its printed cells joined with commas |
| Csv.ExportLines | components/DataScientistAgent.tsx:1981-1990 | the column names joined with commas, then one line per row, in row order |
| Csv.ExportCsv | components/DataScientistAgent.tsx:1981-1990 | the file text is those lines joined with line feeds |
| Csv.PrintsWithout | components/DataScientistAgent.tsx:1981-1990 | no column name and no printed cell contains a given character |
| Csv.ExportSplitsIntoLines | components/DataScientistAgent.tsx:1981-1990 | without line feeds in names or printed cells, the file is `1 + rows` lines: the column line, then one line per row, in row order |
| Csv.ExportLinesAvoid | components/DataScientistAgent.tsx:1981-1990 | a character other than the comma that no name and no printed cell contains occurs in no written line |
| Csv.ExportLineFields | components/DataScientistAgent.tsx:1984-1988 | without commas in printed cells, a row's line holds its printed cells in column order |
| Csv.FieldsOfJoin | components/DataScientistAgent.tsx:1872-1875 | splitting and trimming a comma join of trimmed, comma-free parts gives the parts |
| Csv.ExportedLinesRead | components/DataScientistAgent.tsx:1981-1990 | reading a downloaded file sees exactly the printed lines |
| Csv.ExportedFields | components/DataScientistAgent.tsx:1984-1988 | reading a printed row line's fields gives the row's printed cells |
| Csv.ExportedRowsRead | components/DataScientistAgent.tsx:1981-1990 | the rows read from the printed data lines are the read-back rows |
| Csv.ReadableExport | components/DataScientistAgent.tsx:1870-1892 | whether the upload can read a downloaded file back line by line and field by field: distinct, trimmed column names without commas; no line feeds or commas in names or printed cells; trimmed printed cells; no blank line |
| Csv.ReadBack | components/DataScientistAgent.tsx:1876-1887 | the row object the upload builds from a row's downloaded line: each column assigned its parsed printed cell |
| Csv.ReimportRows | components/DataScientistAgent.tsx:1981-1990 | uploading a downloaded file gives, in order, the read-back rows of the rows that pass the upload filter |
| Csv.ReadBackCell | components/DataScientistAgent.tsx:1987 | a number reads back as itself when `parseFloat(String(x))` is `x`; a string reads back wrapped in the quotes the writer added; `null` and `undefined` read back as `''` |
| Scenario.ExampleProfile | lib/datasetTools.ts:18-85 | the example profiles `age` as numeric and `city` as categorical, with three present cells and one missing cell each |
| Scenario.TwoColumnKey | lib/datasetTools.ts:148-151 | a two-column key is `String(age) + '|' + String(city) + '|'` |
| Scenario.ExampleKeys | lib/datasetTools.ts:148-151 | the example rows' duplicate keys |
| Scenario.ExampleDeduplicated | lib/datasetTools.ts:139-160 | duplicate removal drops exactly the repeated third row |
| Scenario.ExampleMeans | lib/datasetTools.ts:166-185 | only `age` gets a mean, and it is 27.5 |
| Scenario.ExampleNumericFill | lib/datasetTools.ts:162-201 | numeric fill writes 27.5 into the missing age only |
| Scenario.ExampleCategoricalFill | lib/datasetTools.ts:203-218 | categorical fill writes `"Unknown"` into the missing city only |
| Scenario.ExampleCleaning | lib/datasetTools.ts:107-135 | cleaning the example leaves three rows, with age 27.5 and city `"Unknown"` filled in |

## Left out

- `showInfo` (lib/datasetTools.ts:87-105) is left out. It is a display formatter only, and none of the modelled operations uses it.
- The dataset `id` is left out. It comes from `Math.random` (lib/datasetTools.ts:9), so `Dataset` has no `id` field. The `console.time`/`timeEnd` calls are left out too.
- `Percentage` and `Cleaner.Mean` are exact reals. The model does not apply `toFixed(2)` (lib/datasetTools.ts:69) or `toFixed(6)` (lib/datasetTools.ts:194) and the `parseFloat` around them.
- Cleaner.NumericValue: a present string whose `parseFloat` is not a finite number (NaN, `Infinity` or `-Infinity`, such as the string `"Infinity"`, which the reader keeps as a string) adds 0 to the column sum. In the source it makes the sum NaN or an infinity (lib/datasetTools.ts:176), and the column's missing cells are then filled with that value. A column of nine numbers, one `"Infinity"` and one empty cell is classed numeric; the source fills the empty cell with Infinity, while the model fills it with the mean that counts `"Infinity"` as 0.
- `parseFloat`, `Date.parse` and `String(number)` are oracles in `Host`. The model does not fix their exact results.
- JavaScript numbers are modelled as reals and counts as unbounded naturals. IEEE-754 rounding and magnitude limits are not modelled.
- Table.Set and Table.Get: both treat a row as its own keys only, with no `Object.prototype` behind it:
  - A write to `__proto__` (`row['__proto__'] = v` with a string or a number) creates no key in JavaScript. The model stores it as an ordinary key. So for a file whose header line is `__proto__`, the source drops the empty row object and gets no rows and no columns, while the model keeps a row with the key `__proto__`. For such headers `Csv.RowOfUpToKeys`, `Csv.BuildRow` and `Csv.UploadedColumns` do not describe the source.
  - A read of a key that the row does not own but `Object.prototype` has (`constructor`, `toString`, `hasOwnProperty`, …) gives a function in JavaScript. The model gives `undefined`. For such a column name the source's profiler counts the cell present, the fills leave it alone, and the duplicate key holds the function's source text.
- Row keys are kept in pure insertion order. JavaScript lists integer-like keys first in ascending order; that is not modelled.
- Rows are values, so the model does not capture aliasing. In the source, duplicate removal and row removal return arrays that share the input's row objects, and the fills copy each row with `{...row}` before writing.
- Cells are limited to numbers, strings and `null`. Booleans, nested objects and arrays cannot come from the reader and are not modelled.
- The browser side is left out: React state, tabs, drag and drop, `FileReader`, the alert dialog, the simulated progress bar (`setInterval` and `Math.random`), and the `Blob` / object URL / anchor download. A failed read is the `Failure` value carrying the alert text.
- Csv.ReimportRows does not claim that a download followed by an upload gives back the table. The writer puts quotes around strings without escaping them, and the reader does not strip them, so strings come back quoted. A comma or line feed inside a value breaks the line structure. The lemma states what does come back, given readable names and cells.
- Not part of this model:
  - the commented-out drafts in `components/DataScientistAgent.tsx` and `lib/dataset.ts`;
  - the calls to the hosted language model in `lib/gemini.ts` and `app/api/analyze/route.ts`;
  - the chart component `components/HistogramChart.tsx`, which only draws bins it is handed.
