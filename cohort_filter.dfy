/** The filter engine of the dashboard: `filter_dataframe` in
    tcia-cohort-builder.py.  Categorical filters keep the rows whose value is
    among the accepted ones (an empty list imposes nothing); the age range on
    "Age at Baseline" is applied only when it is not at its default, and
    keeps rows with no age exactly when its minimum is 0.  Rows keep their
    order; the table's columns do not change. */
module CohortFilter {
  import opened Wrappers
  import opened Frames
  import opened Sequences
  import opened Clinical

  /** One condition a row must meet. */
  datatype Criterion =
    | InColumn(column: string, accepted: seq<string>)  // `df[column].isin(accepted)`
    | AgeWithin(minAge: real, maxAge: real)            // the age branch, lines 223-235

  /** The sidebar's filters: column names with their accepted values, in
      the order of the `filters` dictionary. */
  type Filters = seq<(string, seq<string>)>

  datatype FilterError =
    | KeyError(column: string)   // a filter names a column the table lacks
    | AgeNotComparable           // "Age at Baseline" holds a string

  /** The row's "Age at Baseline" as a number, or nothing when it is missing. */
  function AgeOf(row: Row): Option<real>
  {
    if AgeAtBaseline in row && row[AgeAtBaseline].Num? then Some(row[AgeAtBaseline].x) else None
  }

  predicate Holds(row: Row, c: Criterion)
  {
    match c
    case InColumn(column, accepted) =>
      column in row && row[column].Text? && row[column].s in accepted
    case AgeWithin(lo, hi) =>
      var age := AgeOf(row);
      if lo == 0.0 then age.None? || age.value <= hi      // lines 226-230
      else age.Some? && lo <= age.value && age.value <= hi  // lines 231-235
  }

  predicate HoldsAll(row: Row, cs: seq<Criterion>)
  {
    forall k :: 0 <= k < |cs| ==> Holds(row, cs[k])
  }

  /** The rows meeting every criterion, in their original order. */
  function Satisfying(rows: seq<Row>, cs: seq<Criterion>): seq<Row>
  {
    if rows == [] then []
    else (if HoldsAll(rows[0], cs) then [rows[0]] else []) + Satisfying(rows[1..], cs)
  }

  /** Selection keeps exactly the rows meeting the criteria. */
  lemma {:induction false} SatisfyingMembers(rows: seq<Row>, cs: seq<Criterion>)
    ensures forall x :: x in Satisfying(rows, cs) <==> x in rows && HoldsAll(x, cs)
  {
    if rows != [] {
      SatisfyingMembers(rows[1..], cs);
      assert forall x :: x in rows <==> x == rows[0] || x in rows[1..];
    }
  }

  /** Each kept row is kept as often as it occurs. */
  lemma {:induction false} SatisfyingCounts(rows: seq<Row>, cs: seq<Criterion>)
    ensures forall x :: multiset(Satisfying(rows, cs))[x] ==
                        if HoldsAll(x, cs) then multiset(rows)[x] else 0
  {
    if rows != [] {
      SatisfyingCounts(rows[1..], cs);
      assert rows == [rows[0]] + rows[1..];
      assert multiset(rows) == multiset{rows[0]} + multiset(rows[1..]);
    }
  }

  /** The kept rows are in their original relative order. */
  lemma {:induction false} SatisfyingOrder(rows: seq<Row>, cs: seq<Criterion>)
    ensures Subsequence(Satisfying(rows, cs), rows)
  {
    if rows != [] {
      SatisfyingOrder(rows[1..], cs);
      var rest := Satisfying(rows[1..], cs);
      if HoldsAll(rows[0], cs) {
        assert Satisfying(rows, cs) == [rows[0]] + rest;
        assert ([rows[0]] + rest)[1..] == rest;
      } else {
        assert Satisfying(rows, cs) == rest;
        if rest != [] {
          assert Subsequence(rest, rows[1..]);
        }
      }
    }
  }

  lemma HoldsAllConcat(x: Row, a: seq<Criterion>, b: seq<Criterion>)
    ensures HoldsAll(x, a + b) <==> HoldsAll(x, a) && HoldsAll(x, b)
  {
    if HoldsAll(x, a + b) {
      forall k | 0 <= k < |a| ensures Holds(x, a[k]) {
        assert (a + b)[k] == a[k];
      }
      forall k | 0 <= k < |b| ensures Holds(x, b[k]) {
        assert (a + b)[|a| + k] == b[k];
      }
    }
    if HoldsAll(x, a) && HoldsAll(x, b) {
      forall k | 0 <= k < |a + b| ensures Holds(x, (a + b)[k]) {
        if k >= |a| {
          assert (a + b)[k] == b[k - |a|];
        } else {
          assert (a + b)[k] == a[k];
        }
      }
    }
  }

  /** Applying criteria one after another is applying all of them at once:
      the step `filtered_df = filtered_df[...]` of the loop at lines 217-219. */
  lemma {:induction false} SatisfyingCompose(rows: seq<Row>, a: seq<Criterion>, b: seq<Criterion>)
    ensures Satisfying(Satisfying(rows, a), b) == Satisfying(rows, a + b)
  {
    if rows != [] {
      SatisfyingCompose(rows[1..], a, b);
      HoldsAllConcat(rows[0], a, b);
      var tail := Satisfying(rows[1..], a);
      if HoldsAll(rows[0], a) {
        assert Satisfying(rows, a) == [rows[0]] + tail;
        assert ([rows[0]] + tail)[1..] == tail;
      } else {
        assert Satisfying(rows, a) == tail;
      }
    }
  }

  /** No criteria keep every row. */
  lemma {:induction false} SatisfyingNothing(rows: seq<Row>)
    ensures Satisfying(rows, []) == rows
  {
    if rows != [] {
      SatisfyingNothing(rows[1..]);
    }
  }

  /** The criteria of the categorical filters with a non-empty list (line
      218: `if values:`), in dictionary order. */
  function Categories(filters: Filters): (cs: seq<Criterion>)
    ensures forall k :: 0 <= k < |cs| ==> cs[k].InColumn? && cs[k].accepted != []
    ensures forall column, accepted :: InColumn(column, accepted) in cs <==>
              accepted != [] && (column, accepted) in filters
  {
    if filters == [] then []
    else
      var init := filters[..|filters| - 1];
      var last := filters[|filters| - 1];
      assert forall f :: f in filters <==> f in init || f == last;
      Categories(init) + (if last.1 != [] then [InColumn(last.0, last.1)] else [])
  }

  /** A filter that `filtered_df[column]` would fail on. */
  predicate Unknown(f: (string, seq<string>), columns: seq<string>)
  {
    f.1 != [] && f.0 !in columns
  }

  /** `filters[k]` is the first filter that raises a KeyError. */
  predicate FirstUnknownAt(filters: Filters, columns: seq<string>, k: int)
  {
    0 <= k < |filters| && Unknown(filters[k], columns) &&
    forall j :: 0 <= j < k ==> !Unknown(filters[j], columns)
  }

  /** The column of the first filter that raises a KeyError, if any. */
  function FirstUnknown(filters: Filters, columns: seq<string>): (r: Option<string>)
    ensures r.None? <==> forall k :: 0 <= k < |filters| ==> !Unknown(filters[k], columns)
    ensures r.Some? ==> exists k :: FirstUnknownAt(filters, columns, k) && r.value == filters[k].0
  {
    if filters == [] then None
    else if Unknown(filters[0], columns) then
      assert FirstUnknownAt(filters, columns, 0);
      Some(filters[0].0)
    else
      var r := FirstUnknown(filters[1..], columns);
      assert forall k :: 1 <= k < |filters| ==> filters[k] == filters[1..][k - 1];
      assert r.Some? ==> exists k :: FirstUnknownAt(filters, columns, k) && r.value == filters[k].0 by {
        if r.Some? {
          var k :| FirstUnknownAt(filters[1..], columns, k) && r.value == filters[1..][k].0;
          assert FirstUnknownAt(filters, columns, k + 1);
        }
      }
      r
  }

  /** Line 222: the range is applied only when one is given, the table has
      "Age at Baseline", and the range is not the default one. */
  predicate RangeApplies(t: Table, ageRange: Option<(real, real)>, isDefaultAgeRange: bool)
  {
    ageRange.Some? && AgeAtBaseline in t.columns && !isDefaultAgeRange
  }

  /** pandas cannot compare a string with the bounds of the range. */
  predicate HasTextAge(rows: seq<Row>)
  {
    exists k :: 0 <= k < |rows| && AgeAtBaseline in rows[k] && rows[k][AgeAtBaseline].Text?
  }

  /** What `filter_dataframe(df, filters, age_range, is_default_age_range)`
      returns. */
  function Filtered(t: Table, filters: Filters, ageRange: Option<(real, real)>,
                    isDefaultAgeRange: bool): (r: Result<Table, FilterError>)
    ensures (r.Err? && r.error.KeyError?) <==> exists k :: 0 <= k < |filters| && Unknown(filters[k], t.columns)
    ensures r.Err? && r.error.KeyError? ==>
              exists k :: FirstUnknownAt(filters, t.columns, k) && r.error.column == filters[k].0
    ensures r == Err(AgeNotComparable) <==>
              FirstUnknown(filters, t.columns).None? && RangeApplies(t, ageRange, isDefaultAgeRange) &&
              HasTextAge(Satisfying(t.rows, Categories(filters)))
    ensures r.Ok? ==> r.value.columns == t.columns
  {
    match FirstUnknown(filters, t.columns)
    case Some(column) => Err(KeyError(column))
    case None =>
      var kept := Satisfying(t.rows, Categories(filters));
      if !RangeApplies(t, ageRange, isDefaultAgeRange) then Ok(Frame(t.columns, kept))
      else if HasTextAge(kept) then Err(AgeNotComparable)
      else Ok(Frame(t.columns, Satisfying(kept, [AgeWithin(ageRange.value.0, ageRange.value.1)])))
  }

  /** `filter_dataframe`: the filters in turn, then the age range. */
  method FilterDataFrame(t: Table, filters: Filters, ageRange: Option<(real, real)>,
                         isDefaultAgeRange: bool)
    returns (r: Result<Table, FilterError>)
    ensures r == Filtered(t, filters, ageRange, isDefaultAgeRange)
  {
    var rows := t.rows;
    SatisfyingNothing(t.rows);
    assert filters[..0] == [];
    for k := 0 to |filters|
      invariant forall j :: 0 <= j < k ==> !Unknown(filters[j], t.columns)
      invariant rows == Satisfying(t.rows, Categories(filters[..k]))
    {
      var (column, values) := filters[k];
      CategoriesStep(filters, k);
      if values != [] {
        if column !in t.columns {
          FirstUnknownIs(filters, t.columns, k);
          return Err(KeyError(column));
        }
        SatisfyingCompose(t.rows, Categories(filters[..k]), [InColumn(column, values)]);
        rows := Satisfying(rows, [InColumn(column, values)]);
      }
    }
    assert filters[..|filters|] == filters;
    NoUnknownFilter(filters, t.columns);
    if ageRange.Some? && AgeAtBaseline in t.columns && !isDefaultAgeRange {
      var (minAge, maxAge) := ageRange.value;
      if HasTextAge(rows) {
        return Err(AgeNotComparable);
      }
      rows := Satisfying(rows, [AgeWithin(minAge, maxAge)]);
    }
    return Ok(Frame(t.columns, rows));
  }

  /** A table whose "Age at Baseline" holds no text, as `load_data` leaves
      it, filters successfully whenever every non-empty filter names a
      column of the table. */
  lemma NumericAgesFilter(t: Table, filters: Filters, ageRange: Option<(real, real)>, isDefaultAgeRange: bool)
    requires !HasTextAge(t.rows)
    requires forall k :: 0 <= k < |filters| ==> !Unknown(filters[k], t.columns)
    ensures Filtered(t, filters, ageRange, isDefaultAgeRange).Ok?
  {
    NoUnknownFilter(filters, t.columns);
    var kept: seq<Row> := Satisfying(t.rows, Categories(filters));
    SatisfyingMembers(t.rows, Categories(filters));
    forall k | 0 <= k < |kept| && AgeAtBaseline in kept[k]
      ensures !kept[k][AgeAtBaseline].Text?
    {
      assert kept[k] in t.rows;
      var j :| 0 <= j < |t.rows| && t.rows[j] == kept[k];
    }
  }

  /** One more filter adds its criterion when its list is not empty. */
  lemma CategoriesStep(filters: Filters, k: nat)
    requires k < |filters|
    ensures Categories(filters[..k + 1]) ==
            if filters[k].1 != [] then Categories(filters[..k]) + [InColumn(filters[k].0, filters[k].1)]
            else Categories(filters[..k])
  {
    assert filters[..k + 1][..k] == filters[..k];
    assert Categories(filters[..k]) + [] == Categories(filters[..k]);
  }

  lemma NoUnknownFilter(filters: Filters, columns: seq<string>)
    requires forall j :: 0 <= j < |filters| ==> !Unknown(filters[j], columns)
    ensures FirstUnknown(filters, columns) == None
  {
  }

  /** The first filter on a missing column is the one `FirstUnknown` names. */
  lemma FirstUnknownIs(filters: Filters, columns: seq<string>, k: nat)
    requires FirstUnknownAt(filters, columns, k)
    ensures FirstUnknown(filters, columns) == Some(filters[k].0)
  {
    var r := FirstUnknown(filters, columns);
    var j :| FirstUnknownAt(filters, columns, j) && r.value == filters[j].0;
    assert !(j < k) && !(k < j);
  }

  /** Line 219 for every filter with a non-empty list: the row's value in that
      column is one of the accepted strings. */
  predicate MeetsFilters(x: Row, filters: Filters)
  {
    forall k :: 0 <= k < |filters| && filters[k].1 != [] ==>
      filters[k].0 in x && x[filters[k].0].Text? && x[filters[k].0].s in filters[k].1
  }

  lemma CategoriesMeet(x: Row, filters: Filters)
    ensures HoldsAll(x, Categories(filters)) <==> MeetsFilters(x, filters)
  {
    var cs := Categories(filters);
    if HoldsAll(x, cs) {
      forall k | 0 <= k < |filters| && filters[k].1 != []
        ensures filters[k].0 in x && x[filters[k].0].Text? && x[filters[k].0].s in filters[k].1
      {
        assert filters[k] in filters;
        assert InColumn(filters[k].0, filters[k].1) in cs;
        var i :| 0 <= i < |cs| && cs[i] == InColumn(filters[k].0, filters[k].1);
        assert Holds(x, cs[i]);
      }
    }
    if MeetsFilters(x, filters) {
      forall i | 0 <= i < |cs| ensures Holds(x, cs[i]) {
        assert cs[i] in cs;
        assert (cs[i].column, cs[i].accepted) in filters;
        var k :| 0 <= k < |filters| && filters[k] == (cs[i].column, cs[i].accepted);
      }
    }
  }

  /** A successful filtering keeps exactly the rows of the table that meet
      every non-empty filter and, when the range applies, the age range; each
      as often as in the table and in the table's order. */
  lemma FilteredRows(t: Table, filters: Filters, ageRange: Option<(real, real)>, isDefaultAgeRange: bool)
    requires Filtered(t, filters, ageRange, isDefaultAgeRange).Ok?
    ensures var out := Filtered(t, filters, ageRange, isDefaultAgeRange).value;
            var applies := RangeApplies(t, ageRange, isDefaultAgeRange);
            && (forall x :: x in out.rows <==>
                  x in t.rows && MeetsFilters(x, filters) &&
                  (applies ==> Holds(x, AgeWithin(ageRange.value.0, ageRange.value.1))))
            && (forall x :: multiset(out.rows)[x] == if x in out.rows then multiset(t.rows)[x] else 0)
            && Subsequence(out.rows, t.rows)
  {
    var all := AllCriteria(t, filters, ageRange, isDefaultAgeRange);
    FilteredSatisfies(t, filters, ageRange, isDefaultAgeRange);
    SatisfyingMembers(t.rows, all);
    SatisfyingCounts(t.rows, all);
    SatisfyingOrder(t.rows, all);
  }

  /** The filtered table is a table of the same shape. */
  lemma FilteredWellFormed(t: Table, filters: Filters, ageRange: Option<(real, real)>, isDefaultAgeRange: bool)
    requires WellFormed(t) && Filtered(t, filters, ageRange, isDefaultAgeRange).Ok?
    ensures WellFormed(Filtered(t, filters, ageRange, isDefaultAgeRange).value)
  {
    var out := Filtered(t, filters, ageRange, isDefaultAgeRange).value;
    FilteredSatisfies(t, filters, ageRange, isDefaultAgeRange);
    SatisfyingMembers(t.rows, AllCriteria(t, filters, ageRange, isDefaultAgeRange));
    forall k | 0 <= k < |out.rows| ensures out.rows[k].Keys == set c | c in t.columns {
      assert out.rows[k] in t.rows;
    }
  }

  /** Every criterion a call of `filter_dataframe` imposes. */
  function AllCriteria(t: Table, filters: Filters, ageRange: Option<(real, real)>,
                       isDefaultAgeRange: bool): seq<Criterion>
  {
    if RangeApplies(t, ageRange, isDefaultAgeRange)
    then Categories(filters) + [AgeWithin(ageRange.value.0, ageRange.value.1)]
    else Categories(filters)
  }

  lemma FilteredSatisfies(t: Table, filters: Filters, ageRange: Option<(real, real)>, isDefaultAgeRange: bool)
    requires Filtered(t, filters, ageRange, isDefaultAgeRange).Ok?
    ensures Filtered(t, filters, ageRange, isDefaultAgeRange).value.rows ==
            Satisfying(t.rows, AllCriteria(t, filters, ageRange, isDefaultAgeRange))
    ensures forall x :: HoldsAll(x, AllCriteria(t, filters, ageRange, isDefaultAgeRange)) <==>
              MeetsFilters(x, filters) &&
              (RangeApplies(t, ageRange, isDefaultAgeRange) ==> Holds(x, AgeWithin(ageRange.value.0, ageRange.value.1)))
  {
    var cs := Categories(filters);
    forall x ensures HoldsAll(x, cs) <==> MeetsFilters(x, filters) {
      CategoriesMeet(x, filters);
    }
    if RangeApplies(t, ageRange, isDefaultAgeRange) {
      var age := AgeWithin(ageRange.value.0, ageRange.value.1);
      SatisfyingCompose(t.rows, cs, [age]);
      forall x ensures HoldsAll(x, cs + [age]) <==> HoldsAll(x, cs) && Holds(x, age) {
        HoldsAllConcat(x, cs, [age]);
        assert [age][0] == age;
      }
    }
  }

  /** Rows that already meet the criteria are all kept. */
  lemma {:induction false} SatisfyingAllHold(rows: seq<Row>, cs: seq<Criterion>)
    requires forall k :: 0 <= k < |rows| ==> HoldsAll(rows[k], cs)
    ensures Satisfying(rows, cs) == rows
  {
    if rows != [] {
      SatisfyingAllHold(rows[1..], cs);
    }
  }

  /** Filtering a filtered table again with the same settings changes nothing. */
  lemma FilterIdempotent(t: Table, filters: Filters, ageRange: Option<(real, real)>, isDefaultAgeRange: bool)
    requires Filtered(t, filters, ageRange, isDefaultAgeRange).Ok?
    ensures var out := Filtered(t, filters, ageRange, isDefaultAgeRange).value;
            Filtered(out, filters, ageRange, isDefaultAgeRange) == Ok(out)
  {
    var out := Filtered(t, filters, ageRange, isDefaultAgeRange).value;
    var kept := Satisfying(t.rows, Categories(filters));
    FilteredRows(t, filters, ageRange, isDefaultAgeRange);
    assert out.columns == t.columns;
    AllMeetFilters(out.rows, filters);
    if RangeApplies(t, ageRange, isDefaultAgeRange) {
      assert !HasTextAge(kept);
      AgeRangeAgain(kept, AgeWithin(ageRange.value.0, ageRange.value.1));
    }
  }

  /** Rows that all meet the filters are kept by them. */
  lemma AllMeetFilters(rows: seq<Row>, filters: Filters)
    requires forall x :: x in rows ==> MeetsFilters(x, filters)
    ensures Satisfying(rows, Categories(filters)) == rows
  {
    var cs := Categories(filters);
    forall k | 0 <= k < |rows| ensures HoldsAll(rows[k], cs) {
      assert rows[k] in rows;
      CategoriesMeet(rows[k], filters);
    }
    SatisfyingAllHold(rows, cs);
  }

  /** The age range keeps what it kept before, and what it keeps has no
      text age. */
  lemma AgeRangeAgain(kept: seq<Row>, age: Criterion)
    requires !HasTextAge(kept)
    ensures !HasTextAge(Satisfying(kept, [age]))
    ensures Satisfying(Satisfying(kept, [age]), [age]) == Satisfying(kept, [age])
  {
    var out: seq<Row> := Satisfying(kept, [age]);
    SatisfyingMembers(kept, [age]);
    forall k | 0 <= k < |out| && AgeAtBaseline in out[k]
      ensures !out[k][AgeAtBaseline].Text?
    {
      assert out[k] in kept;
      var j :| 0 <= j < |kept| && kept[j] == out[k];
    }
    forall k | 0 <= k < |out| ensures HoldsAll(out[k], [age]) {
      assert out[k] in out;
    }
    SatisfyingAllHold(out, [age]);
  }

  /** No non-empty filter and the default range: the table comes back as it
      was. */
  lemma FilterNothing(t: Table, filters: Filters, ageRange: Option<(real, real)>)
    requires forall k :: 0 <= k < |filters| ==> filters[k].1 == []
    ensures Filtered(t, filters, ageRange, true) == Ok(t)
  {
    CategoriesOfEmpty(filters);
    SatisfyingNothing(t.rows);
  }

  lemma {:induction false} CategoriesOfEmpty(filters: Filters)
    requires forall k :: 0 <= k < |filters| ==> filters[k].1 == []
    ensures Categories(filters) == []
  {
    if filters != [] {
      CategoriesOfEmpty(filters[..|filters| - 1]);
    }
  }

  /** With the range's minimum at 0, a row without an age that meets the
      categorical filters is kept. */
  lemma ZeroMinimumKeepsMissingAge(t: Table, filters: Filters, maxAge: real, x: Row)
    requires Filtered(t, filters, Some((0.0, maxAge)), false).Ok?
    requires x in t.rows && MeetsFilters(x, filters) && AgeOf(x).None?
    ensures x in Filtered(t, filters, Some((0.0, maxAge)), false).value.rows
  {
    FilteredRows(t, filters, Some((0.0, maxAge)), false);
  }

  /** With a minimum above 0, only rows with an age in the range are kept. */
  lemma RaisedMinimumNeedsAge(t: Table, filters: Filters, minAge: real, maxAge: real, x: Row)
    requires minAge != 0.0 && AgeAtBaseline in t.columns
    requires Filtered(t, filters, Some((minAge, maxAge)), false).Ok?
    requires x in Filtered(t, filters, Some((minAge, maxAge)), false).value.rows
    ensures AgeOf(x).Some? && minAge <= AgeOf(x).value <= maxAge
  {
    FilteredRows(t, filters, Some((minAge, maxAge)), false);
  }
}
