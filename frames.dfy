/** A data frame: an ordered list of column names and a sequence of rows,
    each row a map from column name to cell.  The cell type is a parameter:
    the dashboard and the downloader are separate programs and see their
    spreadsheets differently. */
module Frames {

  datatype Frame<C> = Frame(columns: seq<string>, rows: seq<map<string, C>>)

  /** Column names are distinct and every row has exactly the frame's columns. */
  ghost predicate WellFormed<C>(t: Frame<C>)
  {
    && (forall i, j :: 0 <= i < j < |t.columns| ==> t.columns[i] != t.columns[j])
    && (forall k :: 0 <= k < |t.rows| ==> t.rows[k].Keys == set c | c in t.columns)
  }
}
