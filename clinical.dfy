/** The clinical table of the dashboard (tcia-cohort-builder.py): the cell
    values pandas holds and the column names the dashboard relies on. */
module Clinical {
  import opened Frames

  /** A cell: a string (every column but the raw ages is converted with
      `astype(str)`, so a missing value there is the text "nan"), a number,
      or pandas' missing value. */
  datatype Cell = Text(s: string) | Num(x: real) | NA

  type Row = map<string, Cell>

  type Table = Frame<Cell>

  const CaseId: string := "Case ID"
  const AvailableImages: string := "Available Images"
  const AgeAtBaseline: string := "Age at Baseline"

  /** The columns of `columns` with `c` added at the end unless it is
      already there, as pandas does when a column is assigned. */
  function WithColumn(columns: seq<string>, c: string): (r: seq<string>)
    ensures c in r && forall d :: d in r <==> d in columns || d == c
    ensures |columns| <= |r| && r[..|columns|] == columns
  {
    if c in columns then columns else columns + [c]
  }

  lemma WithColumnWellFormed(t: Table, c: string, rows: seq<Row>)
    requires WellFormed(t)
    requires forall k :: 0 <= k < |rows| ==> rows[k].Keys == (set d | d in t.columns) + {c}
    ensures WellFormed(Frame(WithColumn(t.columns, c), rows))
  {
    var cols := WithColumn(t.columns, c);
    assert (set d | d in cols) == (set d | d in t.columns) + {c};
    if c !in t.columns {
      forall i, j | 0 <= i < j < |cols| ensures cols[i] != cols[j] {
        if j == |t.columns| {
          assert cols[i] == t.columns[i];
        }
      }
    }
  }
}
