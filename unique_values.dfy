/** `get_unique_sorted_values` (tcia-cohort-builder.py): the options of a
    sidebar filter, the distinct values of a column in Python's string
    order, or nothing when the column is missing. */
module UniqueValues {
  import opened Wrappers
  import opened Frames
  import opened Text
  import opened Clinical

  predicate StrictlySorted(xs: seq<string>)
  {
    forall i, j :: 0 <= i < j < |xs| ==> LexLess(xs[i], xs[j])
  }

  lemma SortedIsDistinct(xs: seq<string>)
    requires StrictlySorted(xs)
    ensures forall i, j :: 0 <= i < j < |xs| ==> xs[i] != xs[j]
  {
    forall i, j | 0 <= i < j < |xs| ensures xs[i] != xs[j] {
      LexLessIrreflexive(xs[i]);
    }
  }

  /** Puts `x` into its place in a strictly sorted list, unless it is there. */
  function Insert(x: string, xs: seq<string>): (r: seq<string>)
    requires StrictlySorted(xs)
    ensures StrictlySorted(r)
    ensures forall y :: y in r <==> y in xs || y == x
  {
    if xs == [] then [x]
    else if x == xs[0] then xs
    else if LexLess(x, xs[0]) then
      assert forall j :: 0 < j < |xs| ==> LexLess(x, xs[j]) by {
        forall j | 0 < j < |xs| ensures LexLess(x, xs[j]) {
          LexLessTransitive(x, xs[0], xs[j]);
        }
      }
      [x] + xs
    else
      LexLessTotal(x, xs[0]);
      var rest := Insert(x, xs[1..]);
      assert forall y :: y in xs <==> y == xs[0] || y in xs[1..];
      assert forall j :: 0 <= j < |rest| ==> LexLess(xs[0], rest[j]) by {
        forall j | 0 <= j < |rest| ensures LexLess(xs[0], rest[j]) {
          assert rest[j] in rest;
          if rest[j] != x {
            var k :| 1 <= k < |xs| && xs[k] == rest[j];
          }
        }
      }
      [xs[0]] + rest
  }

  /** `sorted(set(xs))`: the distinct elements of `xs` in ascending order. */
  function SortedDistinct(xs: seq<string>): (r: seq<string>)
    ensures StrictlySorted(r)
    ensures forall y :: y in r <==> y in xs
  {
    if xs == [] then []
    else
      var init := xs[..|xs| - 1];
      assert forall y :: y in xs <==> y in init || y == xs[|xs| - 1];
      Insert(xs[|xs| - 1], SortedDistinct(init))
  }

  /** Every cell of the column is a string (true of every column the
      dashboard converts with `astype(str)`). */
  predicate AllText(rows: seq<Row>, column: string)
  {
    forall k :: 0 <= k < |rows| ==> column in rows[k] && rows[k][column].Text?
  }

  /** The strings of a text column, row by row. */
  function ColumnTexts(rows: seq<Row>, column: string): (r: seq<string>)
    requires AllText(rows, column)
    ensures |r| == |rows| && forall k :: 0 <= k < |rows| ==> rows[k][column] == Text(r[k])
  {
    if rows == [] then [] else [rows[0][column].s] + ColumnTexts(rows[1..], column)
  }

  /** `get_unique_sorted_values(df, column)`: `[]` for a missing column (line
      182-184), otherwise the distinct values in ascending order (line 185).
      A column with a value that is not a string gives `[]`, the result of the
      exception handler when Python cannot order the values (lines 186-188). */
  function UniqueSortedValues(t: Table, column: string): (r: seq<string>)
    requires WellFormed(t)
    ensures column !in t.columns ==> r == []
    ensures StrictlySorted(r)
    ensures column in t.columns && AllText(t.rows, column) ==>
              forall v :: v in r <==> exists k :: 0 <= k < |t.rows| && t.rows[k][column] == Text(v)
    ensures column in t.columns && !AllText(t.rows, column) ==> r == []
  {
    if column !in t.columns then []
    else if !AllText(t.rows, column) then []
    else
      var texts := ColumnTexts(t.rows, column);
      assert forall v :: v in texts <==> exists k :: 0 <= k < |t.rows| && t.rows[k][column] == Text(v) by {
        forall v ensures v in texts <==> exists k :: 0 <= k < |t.rows| && t.rows[k][column] == Text(v) {
          if v in texts {
            var k :| 0 <= k < |texts| && texts[k] == v;
          }
        }
      }
      SortedDistinct(texts)
  }

  /** Sidebar options for a table whose column holds "b", "a", "b". */
  lemma OptionsExample()
    ensures var t := Frame(["Race"], [map["Race" := Text("b")], map["Race" := Text("a")], map["Race" := Text("b")]]);
            UniqueSortedValues(t, "Race") == ["a", "b"]
  {
    var t := Frame(["Race"], [map["Race" := Text("b")], map["Race" := Text("a")], map["Race" := Text("b")]]);
    assert WellFormed(t);
    assert ColumnTexts(t.rows, "Race") == ["b", "a", "b"];
    assert LexLess("a", "b");
    assert Insert("b", []) == ["b"];
    assert Insert("a", ["b"]) == ["a", "b"];
    assert Insert("b", ["a", "b"]) == ["a", "b"];
    assert ["b", "a", "b"][..2] == ["b", "a"] && ["b", "a"][..1] == ["b"];
  }
}
