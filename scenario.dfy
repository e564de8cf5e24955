/**
 * A worked example: the table with columns `age` and `city`
 *
 *   {age: 25, city: "NYC"}, {age: null, city: "LA"}, {age: 25, city: "NYC"}, {age: 30, city: null}
 *
 * is profiled with `age` numeric and `city` categorical, one missing cell
 * each, and the upload screen's cleaning drops the repeated row, fills the
 * missing age with the mean 27.5 and the missing city with "Unknown".
 */
module Scenario {
  import opened Wrappers
  import opened Table
  import opened Types
  import Profiler
  import opened Cleaner

  const Columns: seq<string> := ["age", "city"]

  function Person(age: Cell, city: Cell): Row
  {
    Row(Columns, map["age" := age, "city" := city])
  }

  const Input: seq<Row> := [
    Person(Num(25.0), Str("NYC")),
    Person(Null, Str("LA")),
    Person(Num(25.0), Str("NYC")),
    Person(Num(30.0), Null)]

  /** What the example needs of the JavaScript built-ins. */
  predicate ExampleHost(h: Host)
  {
    && h.numberToString(25.0) == "25" && h.numberToString(30.0) == "30"
    && h.parseFloat("NYC").None? && h.parseFloat("LA").None?
    && !h.dateParses("NYC") && !h.dateParses("LA")
  }

  /** The profile of the input: `age` numeric and `city` categorical, one missing cell each. */
  lemma ExampleProfile(h: Host)
    requires ExampleHost(h)
    ensures var p := Profiler.Profile(h, Input, Columns);
      && p.shape == (4, 2)
      && p.columns[0] == ColumnInfo("age", Numeric, 3, 1)
      && p.columns[1] == ColumnInfo("city", Categorical, 3, 1)
  {
    ExampleAgeInfo(h);
    ExampleCityInfo(h);
  }

  lemma ExampleAgeInfo(h: Host)
    ensures Profiler.ColumnInfoOf(h, Input, "age") == ColumnInfo("age", Numeric, 3, 1)
  {
    assert Get(Input[0], "age") == Some(Num(25.0)) && Get(Input[1], "age") == Some(Null);
    assert Get(Input[2], "age") == Some(Num(25.0)) && Get(Input[3], "age") == Some(Num(30.0));
    assert Profiler.IsNumber(Get(Input[0], "age"));
    assert !Profiler.HasStrings(Input, "age");
    assert PresentCount(Input, "age", 4) == 3;
  }

  lemma ExampleCityInfo(h: Host)
    requires ExampleHost(h)
    ensures Profiler.ColumnInfoOf(h, Input, "city") == ColumnInfo("city", Categorical, 3, 1)
  {
    assert Get(Input[0], "city") == Some(Str("NYC")) && Get(Input[1], "city") == Some(Str("LA"));
    assert Get(Input[2], "city") == Some(Str("NYC")) && Get(Input[3], "city") == Some(Null);
    assert Profiler.IsText(Get(Input[0], "city"));
    assert !Profiler.HasNumbers(Input, "city");
    assert !Profiler.HasDates(h, Input, "city");
    assert PresentCount(Input, "city", 4) == 3;
  }

  /** The row keys `String(age) + '|' + String(city) + '|'` of the four rows. */
  lemma ExampleKeys(h: Host)
    requires ExampleHost(h)
    ensures RowKey(h, Input[0], Columns) == "25|NYC|"
    ensures RowKey(h, Input[1], Columns) == "null|LA|"
    ensures RowKey(h, Input[2], Columns) == "25|NYC|"
    ensures RowKey(h, Input[3], Columns) == "30|null|"
  {
    forall i | 0 <= i < 4
      ensures RowKey(h, Input[i], Columns)
        == CellString(h, Get(Input[i], "age")) + "|" + CellString(h, Get(Input[i], "city")) + "|"
    {
      TwoColumnKey(h, Input[i]);
    }
  }

  lemma TwoColumnKey(h: Host, row: Row)
    ensures RowKey(h, row, Columns) == CellString(h, Get(row, "age")) + "|" + CellString(h, Get(row, "city")) + "|"
  {
    assert Columns[..1] == ["age"] && Columns[..1][..0] == [];
    assert RowKey(h, row, []) == "";
    assert RowKey(h, row, ["age"]) == CellString(h, Get(row, "age")) + "|";
  }

  /** Duplicate removal drops the third row, the repeat of the first. */
  lemma ExampleDeduplicated(h: Host)
    requires ExampleHost(h)
    ensures Deduplicated(h, Input) == [Input[0], Input[1], Input[3]]
  {
    ExampleKeys(h);
    assert "null|LA|" != "25|NYC|";
    assert "30|null|"[0] != "25|NYC|"[0] && "30|null|"[0] != "null|LA|"[0];
    assert SeenKeys(h, Input, Columns, 0) == {};
    assert SeenKeys(h, Input, Columns, 1) == {"25|NYC|"};
    assert SeenKeys(h, Input, Columns, 2) == {"25|NYC|", "null|LA|"};
    assert SeenKeys(h, Input, Columns, 3) == {"25|NYC|", "null|LA|"};
    assert UniqueUpTo(h, Input, Columns, 0) == [];
    assert UniqueUpTo(h, Input, Columns, 1) == [Input[0]];
    assert UniqueUpTo(h, Input, Columns, 2) == [Input[0], Input[1]];
    assert UniqueUpTo(h, Input, Columns, 3) == [Input[0], Input[1]];
  }

  const Deduped: seq<Row> := [
    Person(Num(25.0), Str("NYC")),
    Person(Null, Str("LA")),
    Person(Num(30.0), Null)]

  /** On the deduplicated rows `age` has mean 27.5 and is the only numeric column. */
  lemma ExampleMeans(h: Host)
    requires ExampleHost(h)
    ensures ColumnMeans(h, Deduped, Columns) == map["age" := 27.5]
  {
    AgeNumeric(h);
    CityNotNumeric(h);
    assert NumericSum(h, Deduped, "age", 1) == 25.0;
    assert IsMissing(Get(Deduped[1], "age"));
    assert NumericSum(h, Deduped, "age", 2) == 25.0;
    assert NumericSum(h, Deduped, "age", 3) == 55.0;
    assert Mean(h, Deduped, "age") == 27.5;
    var means := ColumnMeans(h, Deduped, Columns);
    assert forall c :: c in means <==> c == "age";
  }

  /** `age` of the deduplicated rows: two of its three cells are present, both numbers. */
  lemma AgeNumeric(h: Host)
    requires ExampleHost(h)
    ensures PresentCount(Deduped, "age", 3) == 2
    ensures IsNumericSampled(h, Deduped, "age")
  {
    assert Get(Deduped[0], "age") == Some(Num(25.0)) && Get(Deduped[1], "age") == Some(Null);
    assert Get(Deduped[2], "age") == Some(Num(30.0));
    assert SampleLength(Deduped) == 3;
    assert IsNumericLike(h, Get(Deduped[0], "age")) && IsNumericLike(h, Get(Deduped[2], "age"));
    assert PresentCount(Deduped, "age", 1) == 1 && PresentCount(Deduped, "age", 2) == 1;
    assert NumericLikeCount(h, Deduped, "age", 1) == 1 && NumericLikeCount(h, Deduped, "age", 2) == 1;
    assert NumericLikeCount(h, Deduped, "age", 3) == 2;
  }

  /** `city` of the deduplicated rows holds no numeric-like cell. */
  lemma CityNotNumeric(h: Host)
    requires ExampleHost(h)
    ensures !IsNumericSampled(h, Deduped, "city")
  {
    assert Get(Deduped[0], "city") == Some(Str("NYC")) && Get(Deduped[1], "city") == Some(Str("LA"));
    assert Get(Deduped[2], "city") == Some(Null);
    assert SampleLength(Deduped) == 3;
    assert !IsNumericLike(h, Get(Deduped[0], "city")) && !IsNumericLike(h, Get(Deduped[1], "city"));
    assert NumericLikeCount(h, Deduped, "city", 1) == 0 && NumericLikeCount(h, Deduped, "city", 2) == 0;
    assert NumericLikeCount(h, Deduped, "city", 3) == 0;
  }

  /** Numeric fill of the deduplicated rows writes 27.5 into the missing age only. */
  lemma ExampleNumericFill(h: Host)
    requires ExampleHost(h)
    ensures var n := NumericFilled(h, Deduped, Columns);
      && |n| == 3
      && Get(n[0], "age") == Some(Num(25.0)) && Get(n[0], "city") == Some(Str("NYC"))
      && Get(n[1], "age") == Some(Num(27.5)) && Get(n[1], "city") == Some(Str("LA"))
      && Get(n[2], "age") == Some(Num(30.0)) && Get(n[2], "city") == Some(Null)
  {
    ExampleMeans(h);
    forall i, c | 0 <= i < 3 && c in Columns
      ensures Get(NumericFilled(h, Deduped, Columns)[i], c)
        == if c == "age" && IsMissing(Get(Deduped[i], c)) then Some(Num(27.5)) else Get(Deduped[i], c)
    {
      NumericFilledCell(h, Deduped, Columns, i, c);
    }
    assert "age" in Columns && "city" in Columns;
    assert Get(Deduped[0], "age") == Some(Num(25.0)) && Get(Deduped[0], "city") == Some(Str("NYC"));
    assert Get(Deduped[1], "age") == Some(Null) && Get(Deduped[1], "city") == Some(Str("LA"));
    assert Get(Deduped[2], "age") == Some(Num(30.0)) && Get(Deduped[2], "city") == Some(Null);
  }

  /** Categorical fill then writes "Unknown" into the missing city only. */
  lemma ExampleCategoricalFill(h: Host)
    requires ExampleHost(h)
    ensures var r := CategoricalFilled(h, NumericFilled(h, Deduped, Columns), Columns);
      && |r| == 3
      && Get(r[0], "age") == Some(Num(25.0)) && Get(r[0], "city") == Some(Str("NYC"))
      && Get(r[1], "age") == Some(Num(27.5)) && Get(r[1], "city") == Some(Str("LA"))
      && Get(r[2], "age") == Some(Num(30.0)) && Get(r[2], "city") == Some(Str(UnknownText))
  {
    ExampleNumericFill(h);
    FilledCityNotNumeric(h);
    CategoricalFillOfFilled(h, NumericFilled(h, Deduped, Columns));
  }

  /** Categorical fill of three rows whose only missing cell is a city in a non-numeric column. */
  lemma CategoricalFillOfFilled(h: Host, n: seq<Row>)
    requires |n| == 3
    requires Get(n[0], "age") == Some(Num(25.0)) && Get(n[0], "city") == Some(Str("NYC"))
    requires Get(n[1], "age") == Some(Num(27.5)) && Get(n[1], "city") == Some(Str("LA"))
    requires Get(n[2], "age") == Some(Num(30.0)) && Get(n[2], "city") == Some(Null)
    requires !IsNumericSampled(h, n, "city")
    ensures var r := CategoricalFilled(h, n, Columns);
      && |r| == 3
      && Get(r[0], "age") == Some(Num(25.0)) && Get(r[0], "city") == Some(Str("NYC"))
      && Get(r[1], "age") == Some(Num(27.5)) && Get(r[1], "city") == Some(Str("LA"))
      && Get(r[2], "age") == Some(Num(30.0)) && Get(r[2], "city") == Some(Str(UnknownText))
  {
    CategoricalFilledCell(h, n, Columns, 0, "age");
    CategoricalFilledCell(h, n, Columns, 0, "city");
    CategoricalFilledCell(h, n, Columns, 1, "age");
    CategoricalFilledCell(h, n, Columns, 1, "city");
    CategoricalFilledCell(h, n, Columns, 2, "age");
    CategoricalFilledCell(h, n, Columns, 2, "city");
    assert "city" in Columns;
  }

  /** Numeric fill leaves `city` alone, so it stays non-numeric. */
  lemma FilledCityNotNumeric(h: Host)
    requires ExampleHost(h)
    ensures !IsNumericSampled(h, NumericFilled(h, Deduped, Columns), "city")
  {
    var n := NumericFilled(h, Deduped, Columns);
    ExampleMeans(h);
    CityNotNumeric(h);
    forall j | 0 <= j < 3
      ensures Get(n[j], "city") == Get(Deduped[j], "city")
    {
      NumericFilledCell(h, Deduped, Columns, j, "city");
    }
    SampledDependsOnColumnOnly(h, n, Deduped, "city");
  }

  /**
   * The upload screen's cleaning of the example: three rows remain, the
   * missing age becomes 27.5, the missing city becomes "Unknown", and every
   * other cell is unchanged.
   */
  lemma ExampleCleaning(h: Host)
    requires ExampleHost(h)
    ensures var r := Applied(h, Input, Columns, UiOperations);
      && |r| == 3
      && Get(r[0], "age") == Some(Num(25.0)) && Get(r[0], "city") == Some(Str("NYC"))
      && Get(r[1], "age") == Some(Num(27.5)) && Get(r[1], "city") == Some(Str("LA"))
      && Get(r[2], "age") == Some(Num(30.0)) && Get(r[2], "city") == Some(Str(UnknownText))
  {
    UiPipeline(h, Input, Columns);
    ExampleDeduplicated(h);
    assert [Input[0], Input[1], Input[3]] == Deduped;
    ExampleCategoricalFill(h);
  }
}
