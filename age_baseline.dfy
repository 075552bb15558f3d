/** Age normalisation of the clinical table: `age_uom_factors` and
    `calculate_age_at_baseline` in tcia-cohort-builder.py.  Every raw age
    column that exists is coerced to a number, every number is converted to
    years with the factor the row's unit string selects, and the smallest
    converted age becomes "Age at Baseline" (missing when there is none). */
module AgeBaseline {
  import opened Wrappers
  import opened Frames
  import opened Text
  import opened Clinical

  const YearFactor: real := 1.0
  const MonthFactor: real := 1.0 / 12.0
  const DayFactor: real := 1.0 / 365.25

  const DefaultAgeColumns: seq<string> := ["Age at Diagnosis", "Age at Surgery", "Age at Enrollment"]
  const DefaultUomColumn: string := "Age UOM"

  datatype AgeError =
    | MissingUnitColumn(column: string)  // KeyError of `df[uom_column]`, line 158
    | UnitsNotText(column: string)       // AttributeError of `.str` on a non-string column, line 158

  /** The factor for a unit string that is already lower-cased and stripped:
      the first of "year", "month", "day" it contains decides, else 1.0. */
  function FactorOfKey(k: string): (f: real)
    ensures 0.0 < f <= 1.0
  {
    if Contains(k, "year") then YearFactor
    else if Contains(k, "month") then MonthFactor
    else if Contains(k, "day") then DayFactor
    else 1.0
  }

  /** Stripping white space never changes the factor a unit string selects. */
  lemma FactorOfStripped(k: string)
    ensures FactorOfKey(Strip(k)) == FactorOfKey(k)
  {
    UnitWordsHaveNoSpace();
    StripKeepsWords(k, "year");
    StripKeepsWords(k, "month");
    StripKeepsWords(k, "day");
  }

  lemma UnitWordsHaveNoSpace()
    ensures forall i :: 0 <= i < |"year"| ==> !IsSpace("year"[i])
    ensures forall i :: 0 <= i < |"month"| ==> !IsSpace("month"[i])
    ensures forall i :: 0 <= i < |"day"| ==> !IsSpace("day"[i])
  {
  }

  /** "nan", the text of a missing unit, mentions no unit. */
  lemma FactorOfNan()
    ensures FactorOfKey("nan") == YearFactor
  {
    NotOccursAt("nan", "day", 0, 0);
    assert !Contains("nan", "year") && !Contains("nan", "month") && !Contains("nan", "day");
  }

  /** The unit factor of one row.  pandas' `.str` turns a value that is not a
      string into NaN, and `str(NaN)` is "nan". */
  function UomFactor(unit: Cell): (f: real)
    ensures unit.Text? ==> f == FactorOfKey(Lower(unit.s))
    ensures !unit.Text? ==> f == YearFactor
  {
    match unit
    case Text(s) =>
      FactorOfStripped(Lower(s));
      FactorOfKey(Strip(Lower(s)))
    case _ =>
      FactorOfNan();
      FactorOfKey("nan")
  }

  /** `pd.to_numeric(..., errors='coerce')` on one cell: a number stays, text
      is parsed (`parse` stands for pandas' float parser), anything
      unparseable becomes missing. */
  function Coerce(c: Cell, parse: string -> Option<real>): (r: Cell)
    ensures !r.Text?
    ensures c.Num? ==> r == c
  {
    match c
    case Text(s) => (match parse(s) case Some(x) => Num(x) case None => NA)
    case _ => c
  }

  /** Lines 152-154: each listed column that exists is coerced in turn. */
  function CoerceColumns(row: Row, cols: seq<string>, parse: string -> Option<real>): (r: Row)
    ensures r.Keys == row.Keys
    ensures forall c :: c in row ==> r[c] == if c in cols then Coerce(row[c], parse) else row[c]
  {
    if cols == [] then row
    else
      var r := CoerceColumns(row, cols[..|cols| - 1], parse);
      var c := cols[|cols| - 1];
      assert forall d :: d in cols <==> d in cols[..|cols| - 1] || d == c;
      if c in r then r[c := Coerce(r[c], parse)] else r
  }

  /** `existing_age_columns` (line 166): the listed columns present in the
      table, in list order. */
  function Existing(cols: seq<string>, columns: seq<string>): (r: seq<string>)
    ensures forall c :: c in r <==> c in cols && c in columns
  {
    if cols == [] then []
    else
      var last := cols[|cols| - 1];
      assert forall d :: d in cols <==> d in cols[..|cols| - 1] || d == last;
      Existing(cols[..|cols| - 1], columns) + (if last in columns then [last] else [])
  }

  /** Column `c` of `row` holds a number. */
  predicate HasAge(row: Row, c: string)
  {
    c in row && row[c].Num?
  }

  /** An age converted to years by a unit factor. */
  function Scaled(x: real, factor: real): real
  {
    x * factor
  }

  /** The number in column `c` converted to years. */
  function InYears(row: Row, c: string, factor: real): real
    requires HasAge(row, c)
  {
    Scaled(row[c].x, factor)
  }

  /** The ages in years of one row over the given columns: one value per
      column holding a number (lines 168-169; NaN times a factor is NaN). */
  function YearsValues(row: Row, cols: seq<string>, factor: real): (ys: seq<real>)
    ensures ys == [] <==> forall c :: c in cols ==> !HasAge(row, c)
    ensures forall c :: c in cols && HasAge(row, c) ==> InYears(row, c, factor) in ys
    ensures forall y :: y in ys ==> exists c :: c in cols && HasAge(row, c) && y == InYears(row, c, factor)
  {
    if cols == [] then []
    else
      var init := cols[..|cols| - 1];
      var last := cols[|cols| - 1];
      assert forall d :: d in cols <==> d in init || d == last;
      YearsValues(row, init, factor) + (if HasAge(row, last) then [InYears(row, last, factor)] else [])
  }

  /** The smaller of a running minimum and a new value. */
  function MinWith(m: Option<real>, y: real): (r: Option<real>)
  {
    match m
    case None => Some(y)
    case Some(v) => Some(if y < v then y else v)
  }

  /** `min(axis=1)` with NaN skipped: absent for no values, otherwise the
      least of them. */
  function Minimum(xs: seq<real>): (m: Option<real>)
    ensures m.None? <==> xs == []
    ensures m.Some? ==> m.value in xs && forall x :: x in xs ==> m.value <= x
  {
    if xs == [] then None
    else
      var init := xs[..|xs| - 1];
      assert xs == init + [xs[|xs| - 1]];
      MinWith(Minimum(init), xs[|xs| - 1])
  }

  function CellOf(m: Option<real>): (c: Cell)
  {
    match m
    case Some(v) => Num(v)
    case None => NA
  }

  /** One row of the result of `calculate_age_at_baseline` (without the
      rounding of line 175): the age columns coerced, then "Age at Baseline"
      set to the least age in years; the helper columns of lines 158-171 are
      dropped again (line 174). */
  function BaselineRow(row: Row, ageColumns: seq<string>, uomColumn: string, columns: seq<string>,
                       parse: string -> Option<real>): (r: Row)
    requires uomColumn in row || uomColumn == AgeAtBaseline
    ensures r.Keys == row.Keys + {AgeAtBaseline}
    ensures !r[AgeAtBaseline].Text?
    ensures forall c :: c in row && c != AgeAtBaseline ==>
              r[c] == if c in ageColumns then Coerce(row[c], parse) else row[c]
  {
    var cleared := CoerceColumns(row, ageColumns, parse)[AgeAtBaseline := NA];
    var factor := UomFactor(cleared[uomColumn]);
    var years := YearsValues(cleared, Existing(ageColumns, columns), factor);
    cleared[AgeAtBaseline := CellOf(Minimum(years))]
  }

  /** The loop of lines 152-154 over the whole table: each listed column the
      table has is coerced to numbers. */
  method CoerceAgeColumns(rows: seq<Row>, ageColumns: seq<string>, columns: seq<string>,
                          parse: string -> Option<real>)
    returns (out: seq<Row>)
    requires forall i :: 0 <= i < |rows| ==> rows[i].Keys == set d | d in columns
    ensures |out| == |rows|
    ensures forall i :: 0 <= i < |rows| ==> out[i] == CoerceColumns(rows[i], ageColumns, parse)
  {
    out := rows;
    for k := 0 to |ageColumns|
      invariant |out| == |rows|
      invariant forall i :: 0 <= i < |rows| ==> out[i] == CoerceColumns(rows[i], ageColumns[..k], parse)
    {
      var col := ageColumns[k];
      assert ageColumns[..k + 1][..k] == ageColumns[..k];
      if col in columns {
        out := seq(|out|, i requires 0 <= i < |out| => out[i][col := Coerce(out[i][col], parse)]);
      }
    }
    assert ageColumns[..|ageColumns|] == ageColumns;
  }

  /** The loop of lines 168-169 followed by `min(axis=1)` (line 172): each
      converted column in turn lowers the running minimum of every row. */
  method LeastYears(rows: seq<Row>, existing: seq<string>, factors: seq<real>)
    returns (least: seq<Option<real>>)
    requires |factors| == |rows|
    ensures |least| == |rows|
    ensures forall i :: 0 <= i < |rows| ==> least[i] == Minimum(YearsValues(rows[i], existing, factors[i]))
  {
    least := seq(|rows|, i => None);
    for j := 0 to |existing|
      invariant |least| == |rows|
      invariant forall i :: 0 <= i < |rows| ==> least[i] == Minimum(YearsValues(rows[i], existing[..j], factors[i]))
    {
      var col := existing[j];
      assert existing[..j + 1][..j] == existing[..j];
      least := seq(|rows|, i requires 0 <= i < |rows| =>
        if HasAge(rows[i], col) then MinWith(least[i], InYears(rows[i], col, factors[i])) else least[i]);
    }
    assert existing[..|existing|] == existing;
  }

  /** One row of the table-wide computation is `BaselineRow`. */
  lemma BaselineRowIs(row: Row, ageColumns: seq<string>, uomColumn: string, columns: seq<string>,
                      parse: string -> Option<real>, coerced: Row, least: Option<real>)
    requires uomColumn in row || uomColumn == AgeAtBaseline
    requires coerced == CoerceColumns(row, ageColumns, parse)
    requires least == Minimum(YearsValues(coerced[AgeAtBaseline := NA], Existing(ageColumns, columns),
                                          UomFactor(coerced[AgeAtBaseline := NA][uomColumn])))
    ensures coerced[AgeAtBaseline := NA][AgeAtBaseline := CellOf(least)] ==
            BaselineRow(row, ageColumns, uomColumn, columns, parse)
  {
  }

  /** Whether `.str` (line 158) refuses the unit column because it holds no
      strings.  "Age at Baseline" itself is an object column of `pd.NA`
      (line 156), which `.str` accepts.  A raw age column has been made
      numeric by lines 152-154.  Any other column without a single string in
      a non-empty table is a numeric column, as pandas reads one. */
  predicate UnitsWithoutText(t: Table, ageColumns: seq<string>, uomColumn: string)
    requires WellFormed(t) && uomColumn in t.columns
  {
    uomColumn != AgeAtBaseline &&
    (uomColumn in ageColumns || (|t.rows| > 0 && forall i :: 0 <= i < |t.rows| ==> !t.rows[i][uomColumn].Text?))
  }

  /** `calculate_age_at_baseline`: fails with a KeyError when the unit
      column is missing, with an AttributeError when it holds no strings;
      otherwise adds "Age at Baseline" to every row. */
  method CalculateAgeAtBaseline(t: Table, ageColumns: seq<string>, uomColumn: string,
                                parse: string -> Option<real>)
    returns (r: Result<Table, AgeError>)
    requires WellFormed(t)
    ensures r == Err(MissingUnitColumn(uomColumn)) <==> uomColumn !in t.columns && uomColumn != AgeAtBaseline
    ensures r == Err(UnitsNotText(uomColumn)) <==>
              uomColumn in t.columns && UnitsWithoutText(t, ageColumns, uomColumn)
    ensures r.Err? ==> r.error.column == uomColumn
    ensures r.Ok? ==> WellFormed(r.value) && r.value.columns == WithColumn(t.columns, AgeAtBaseline)
    ensures r.Ok? ==> |r.value.rows| == |t.rows| && forall i :: 0 <= i < |t.rows| ==>
              (uomColumn in t.rows[i] || uomColumn == AgeAtBaseline) &&
              r.value.rows[i] == BaselineRow(t.rows[i], ageColumns, uomColumn, t.columns, parse)
  {
    var coerced := CoerceAgeColumns(t.rows, ageColumns, t.columns, parse);
    var cleared := seq(|coerced|, i requires 0 <= i < |coerced| => coerced[i][AgeAtBaseline := NA]);
    if uomColumn !in t.columns && uomColumn != AgeAtBaseline {
      return Err(MissingUnitColumn(uomColumn));
    }
    if uomColumn in t.columns && UnitsWithoutText(t, ageColumns, uomColumn) {
      return Err(UnitsNotText(uomColumn));
    }
    var factors := seq(|cleared|, i requires 0 <= i < |cleared| => UomFactor(cleared[i][uomColumn]));
    var existing := Existing(ageColumns, t.columns);
    var least := LeastYears(cleared, existing, factors);
    var rows := seq(|cleared|, i requires 0 <= i < |cleared| => cleared[i][AgeAtBaseline := CellOf(least[i])]);
    forall i | 0 <= i < |rows|
      ensures rows[i] == BaselineRow(t.rows[i], ageColumns, uomColumn, t.columns, parse)
    {
      BaselineRowIs(t.rows[i], ageColumns, uomColumn, t.columns, parse, coerced[i], least[i]);
    }
    WithColumnWellFormed(t, AgeAtBaseline, rows);
    r := Ok(Frame(WithColumn(t.columns, AgeAtBaseline), rows));
  }

  /** A unit column that is also a raw age column has been made numeric
      before line 158, so `.str` refuses it even though it held "Month". */
  lemma UnitAsAgeColumnRefused()
    ensures var t := Frame(["Age UOM"], [map["Age UOM" := Text("Month")]]);
            WellFormed(t) && "Age UOM" in t.columns && UnitsWithoutText(t, ["Age UOM"], "Age UOM")
  {
  }

  /** What "Age at Baseline" means, for the usual case where neither the
      unit column nor "Age at Baseline" is one of the raw age columns: it is
      missing exactly when no existing age column holds a number, and
      otherwise it is the least of the existing ages converted to years. */
  lemma {:induction false} BaselineIsLeastAge(row: Row, ageColumns: seq<string>, uomColumn: string,
                                               columns: seq<string>, parse: string -> Option<real>)
    requires uomColumn in row && row.Keys == set c | c in columns
    requires AgeAtBaseline !in ageColumns && uomColumn !in ageColumns && uomColumn != AgeAtBaseline
    ensures var b := BaselineRow(row, ageColumns, uomColumn, columns, parse)[AgeAtBaseline];
            var f := UomFactor(row[uomColumn]);
            && (b == NA <==> forall c :: c in ageColumns && c in row ==> !Coerce(row[c], parse).Num?)
            && (b.Num? ==> exists c :: c in ageColumns && c in row && Coerce(row[c], parse).Num? &&
                                       b.x == Scaled(Coerce(row[c], parse).x, f))
            && (b.Num? ==> forall c :: c in ageColumns && c in row && Coerce(row[c], parse).Num? ==>
                                       b.x <= Scaled(Coerce(row[c], parse).x, f))
  {
    var coerced := CoerceColumns(row, ageColumns, parse);
    var cleared := coerced[AgeAtBaseline := NA];
    var f := UomFactor(row[uomColumn]);
    assert cleared[uomColumn] == row[uomColumn];
    var existing := Existing(ageColumns, columns);
    var years := YearsValues(cleared, existing, f);
    var b := BaselineRow(row, ageColumns, uomColumn, columns, parse)[AgeAtBaseline];
    assert b == CellOf(Minimum(years));
    forall c | c in ageColumns && c in row
      ensures c in existing && cleared[c] == Coerce(row[c], parse)
    {
      assert coerced[c] == Coerce(row[c], parse);
    }
    forall c | c in existing
      ensures c in ageColumns && c in row
    {
    }
    if b.Num? {
      var c :| c in existing && HasAge(cleared, c) && b.x == InYears(cleared, c, f);
      assert Coerce(row[c], parse).Num? && b.x == Scaled(Coerce(row[c], parse).x, f);
    }
  }

  /** "Month" selects the month factor. */
  lemma MonthUnit()
    ensures UomFactor(Text("Month")) == MonthFactor
  {
    var k := Lower("Month");
    assert LowerChar('M') == 'm';
    assert k == "month";
    NotOccursAt(k, "year", 0, 0);
    NotOccursAt(k, "year", 1, 0);
    assert OccursAt(k, "month", 0);
  }

  /** A parser that knows the two numerals of the example below. */
  function ExampleParse(s: string): Option<real>
  {
    if s == "600" then Some(600.0) else if s == "51" then Some(51.0) else None
  }

  /** A worked row: raw ages 600 and 51 with the single unit "Month" give
      4.25 years, the smaller of 50 and 4.25.  The unit column is per row, so
      two ages of one row cannot carry different units. */
  lemma MonthExample()
    ensures var row := map["Age at Diagnosis" := Text("600"), "Age at Surgery" := Text("51"),
                           "Age UOM" := Text("Month")];
            BaselineRow(row, DefaultAgeColumns, DefaultUomColumn,
                        ["Age at Diagnosis", "Age at Surgery", "Age UOM"], ExampleParse)[AgeAtBaseline] == Num(4.25)
  {
    var row := map["Age at Diagnosis" := Text("600"), "Age at Surgery" := Text("51"),
                   "Age UOM" := Text("Month")];
    var columns := ["Age at Diagnosis", "Age at Surgery", "Age UOM"];
    var b := BaselineRow(row, DefaultAgeColumns, DefaultUomColumn, columns, ExampleParse)[AgeAtBaseline];
    ExampleRowFacts();
    DefaultColumnsDistinct();
    MonthUnit();
    BaselineIsLeastAge(row, DefaultAgeColumns, DefaultUomColumn, columns, ExampleParse);
    LeastOfTwo(b, row, ExampleParse, UomFactor(row[DefaultUomColumn]));
  }

  /** The example row's unit and columns. */
  lemma ExampleRowFacts()
    ensures var row := map["Age at Diagnosis" := Text("600"), "Age at Surgery" := Text("51"),
                           "Age UOM" := Text("Month")];
            && DefaultUomColumn in row && row[DefaultUomColumn] == Text("Month")
            && row.Keys == set c | c in ["Age at Diagnosis", "Age at Surgery", "Age UOM"]
  {
  }

  /** The default unit column and "Age at Baseline" are not raw age columns. */
  lemma DefaultColumnsDistinct()
    ensures AgeAtBaseline !in DefaultAgeColumns && DefaultUomColumn !in DefaultAgeColumns
    ensures DefaultUomColumn != AgeAtBaseline
  {
  }

  /** The arithmetic of the example: the least of 600 and 51 months. */
  lemma LeastOfTwo(b: Cell, row: Row, parse: string -> Option<real>, f: real)
    requires row == map["Age at Diagnosis" := Text("600"), "Age at Surgery" := Text("51"),
                        "Age UOM" := Text("Month")]
    requires parse == ExampleParse && f == MonthFactor
    requires !b.Text?
    requires b == NA <==> forall c :: c in DefaultAgeColumns && c in row ==> !Coerce(row[c], parse).Num?
    requires b.Num? ==> exists c :: c in DefaultAgeColumns && c in row && Coerce(row[c], parse).Num? &&
                                    b.x == Scaled(Coerce(row[c], parse).x, f)
    requires b.Num? ==> forall c :: c in DefaultAgeColumns && c in row && Coerce(row[c], parse).Num? ==>
                                    b.x <= Scaled(Coerce(row[c], parse).x, f)
    ensures b == Num(4.25)
  {
    var d, s := "Age at Diagnosis", "Age at Surgery";
    assert d in DefaultAgeColumns && s in DefaultAgeColumns && "Age at Enrollment" !in row;
    assert Coerce(row[d], parse) == Num(600.0) && Coerce(row[s], parse) == Num(51.0);
    assert Scaled(600.0, f) == 50.0 && Scaled(51.0, f) == 4.25;
  }
}
