/** The unified pricebook table: every cell is a string, rows are keyed by
    column name, and the column list is ordered as the data frame orders it. */
module Tables {

  /** One row: column name to cell text. */
  type Row = map<string, string>

  /** A data frame whose cells have all been turned into text. */
  datatype Table = Table(columns: seq<string>, rows: seq<Row>)

  /** `pd.DataFrame()`: no columns and no rows. */
  const EmptyTable := Table([], [])

  function ColumnSet(columns: seq<string>): set<string>
  {
    set c | c in columns
  }

  predicate NoDuplicates(columns: seq<string>)
  {
    forall i, j :: 0 <= i < j < |columns| ==> columns[i] != columns[j]
  }

  /** The table invariant: column names are distinct and every row has a
      cell for exactly the table's columns. */
  ghost predicate WellFormed(t: Table)
  {
    && NoDuplicates(t.columns)
    && forall r :: r in t.rows ==> r.Keys == ColumnSet(t.columns)
  }

  /** pandas' `DataFrame.empty`: true when either axis has length zero. */
  predicate IsEmpty(t: Table)
  {
    |t.rows| == 0 || |t.columns| == 0
  }
}
