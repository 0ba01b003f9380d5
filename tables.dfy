/** The tabular-data collaborator as the core sees it: a header of column
    names and the finite sequence of rows its lazy reader yields. */
module Tables {

  /** Every row has one cell per header column. */
  predicate RowsFit(header: seq<string>, rows: seq<seq<string>>) {
    forall k :: 0 <= k < |rows| ==> |rows[k]| == |header|
  }

  /** One delimited file after parsing: `ColumnNames` and `Rows` of a DataTable. */
  datatype Table = Table(columnNames: seq<string>, rows: seq<seq<string>>) {

    /** The reader yields rows with one cell per header column; the core trusts this. */
    predicate WellFormed() {
      RowsFit(columnNames, rows)
    }
  }
}
