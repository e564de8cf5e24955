/** The value shapes of a dataset and of its profile. */
module Types {
  import opened Table

  /** The inferred kind of a column. */
  datatype Dtype = Numeric | Datetime | Categorical | Unknown

  /** One column of a profile; the two counts add up to the number of rows. */
  datatype ColumnInfo = ColumnInfo(name: string, dtype: Dtype, nonNullCount: nat, nullCount: nat)

  /** A column with at least one missing cell, with the share of missing cells in percent. */
  datatype MissingValue = MissingValue(column: string, count: nat, percentage: real)

  /** The flattened (column, dtype) view of a profile. */
  datatype DataType = DataType(column: string, dtype: Dtype)

  /** A profile: shape (rows, columns), one ColumnInfo and one DataType per column, and the missing report. */
  datatype DatasetInfo = DatasetInfo(
    shape: (nat, nat),
    columns: seq<ColumnInfo>,
    missingValues: seq<MissingValue>,
    dataTypes: seq<DataType>)

  /** A dataset: rows, column order, the profile computed from them and the cleaned flag. */
  datatype Dataset = Dataset(
    name: string,
    data: seq<Row>,
    columns: seq<string>,
    info: DatasetInfo,
    cleaned: bool)
}
