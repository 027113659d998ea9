/**
 * The table the browser shows, with pandas abstracted away: an ordered list of column
 * names, the set of columns whose dtype is numeric, and for every column the string
 * each row renders to.
 */
module Tables {

  datatype Table = Table(columns: seq<string>, numeric: set<string>, cells: map<string, seq<string>>, rowCount: nat)

  /** Every listed column has a rendering, and every rendered column has one string per row. */
  predicate WellFormed(t: Table) {
    && (forall i :: 0 <= i < |t.columns| ==> t.columns[i] in t.cells)
    && (forall c :: c in t.cells ==> |t.cells[c]| == t.rowCount)
  }

  /** `col in list(df)`: the column is one of the table's columns. */
  predicate HasColumn(t: Table, col: string) {
    col in t.columns
  }
}
