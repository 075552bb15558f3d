/** `load_manifest` (pathology-downloader.py): the column resolver of the
    downloader.  For the image URL and for the patient identifier it takes
    the first alias, in priority order, that the spreadsheet has, and renames
    that column to the canonical name; the result has exactly the two
    canonical columns. */
module Loader {
  import opened Wrappers
  import opened Frames

  /** A spreadsheet cell as the downloader reads it: its text, or nothing
      for an empty cell (pandas' NaN). */
  type SheetRow = map<string, Option<string>>

  type Sheet = Frame<Option<string>>

  const UrlColumn: string := "imageUrl"
  const CaseIdColumn: string := "Case ID"

  /** Line 23. */
  const UrlAliases: seq<string> := ["imageUrl", "image_url", "url", "Image URL"]

  /** Line 26; "Case ID" is listed twice. */
  const PatientIdAliases: seq<string> := ["Case ID", "Patient ID", "case_id", "Case ID"]

  datatype LoadError =
    | UrlColumnNotFound        // line 35
    | PatientIdColumnNotFound  // line 38

  /** Lines 29 and 32: `next((c for c in aliases if c in columns), None)`. */
  function FirstPresent(aliases: seq<string>, columns: seq<string>): (r: Option<string>)
    ensures r.None? <==> forall i :: 0 <= i < |aliases| ==> aliases[i] !in columns
    ensures r.Some? ==> exists i :: 0 <= i < |aliases| && aliases[i] == r.value && r.value in columns &&
                          forall j :: 0 <= j < i ==> aliases[j] !in columns
  {
    if aliases == [] then None
    else if aliases[0] in columns then Some(aliases[0])
    else
      var r := FirstPresent(aliases[1..], columns);
      assert forall i :: 1 <= i < |aliases| ==> aliases[i] == aliases[1..][i - 1];
      assert r.Some? ==> exists i :: 0 <= i < |aliases| && aliases[i] == r.value && r.value in columns &&
                          forall j :: 0 <= j < i ==> aliases[j] !in columns by {
        if r.Some? {
          var i :| 0 <= i < |aliases[1..]| && aliases[1..][i] == r.value && r.value in columns &&
                   forall j :: 0 <= j < i ==> aliases[1..][j] !in columns;
          assert aliases[i + 1] == r.value && forall j :: 0 <= j < i + 1 ==> aliases[j] !in columns;
        }
      }
      r
  }

  /** Lines 41-46 for one row: the matched columns under the canonical names. */
  function Canonical(row: SheetRow, urlColumn: string, patientIdColumn: string): SheetRow
    requires urlColumn in row && patientIdColumn in row
  {
    map[UrlColumn := row[urlColumn], CaseIdColumn := row[patientIdColumn]]
  }

  function CanonicalRows(rows: seq<SheetRow>, urlColumn: string, patientIdColumn: string): (r: seq<SheetRow>)
    requires forall k :: 0 <= k < |rows| ==> urlColumn in rows[k] && patientIdColumn in rows[k]
    ensures |r| == |rows|
    ensures forall k :: 0 <= k < |rows| ==> r[k] == Canonical(rows[k], urlColumn, patientIdColumn)
  {
    if rows == [] then [] else [Canonical(rows[0], urlColumn, patientIdColumn)] + CanonicalRows(rows[1..], urlColumn, patientIdColumn)
  }

  /** `load_manifest(excel_path)` on the spreadsheet read from the path. */
  function LoadManifest(sheet: Sheet): (r: Result<Sheet, LoadError>)
    requires WellFormed(sheet)
    ensures r == Err(UrlColumnNotFound) <==> forall i :: 0 <= i < |UrlAliases| ==> UrlAliases[i] !in sheet.columns
    ensures r == Err(PatientIdColumnNotFound) <==>
              (exists i :: 0 <= i < |UrlAliases| && UrlAliases[i] in sheet.columns) &&
              forall i :: 0 <= i < |PatientIdAliases| ==> PatientIdAliases[i] !in sheet.columns
    ensures r.Ok? ==> r.value.columns == [UrlColumn, CaseIdColumn] && |r.value.rows| == |sheet.rows|
    ensures r.Ok? ==> WellFormed(r.value)
    ensures r.Ok? ==>
              var u := FirstPresent(UrlAliases, sheet.columns).value;
              var p := FirstPresent(PatientIdAliases, sheet.columns).value;
              forall k :: 0 <= k < |sheet.rows| ==>
                r.value.rows[k][UrlColumn] == sheet.rows[k][u] && r.value.rows[k][CaseIdColumn] == sheet.rows[k][p]
  {
    var urlColumn := FirstPresent(UrlAliases, sheet.columns);
    var patientIdColumn := FirstPresent(PatientIdAliases, sheet.columns);
    if urlColumn.None? then Err(UrlColumnNotFound)
    else if patientIdColumn.None? then Err(PatientIdColumnNotFound)
    else
      var rows := CanonicalRows(sheet.rows, urlColumn.value, patientIdColumn.value);
      assert UrlColumn != CaseIdColumn;
      Ok(Frame([UrlColumn, CaseIdColumn], rows))
  }

  /** The repeated "Case ID" at the end of the alias list never changes the
      choice. */
  lemma DuplicateAliasHarmless(columns: seq<string>)
    ensures FirstPresent(PatientIdAliases, columns) == FirstPresent(PatientIdAliases[..3], columns)
  {
    var short := PatientIdAliases[..3];
    assert short == ["Case ID", "Patient ID", "case_id"];
    if "Case ID" !in columns {
      assert PatientIdAliases[1..] == ["Patient ID", "case_id", "Case ID"];
      assert short[1..] == ["Patient ID", "case_id"];
      if "Patient ID" !in columns {
        if "case_id" !in columns {
          assert PatientIdAliases[1..][1..][1..] == ["Case ID"];
          assert short[1..][1..][1..] == [];
        }
      }
    }
  }

  /** A sheet naming its URL column "image_url" and its patients "Patient
      ID" loads with both columns under their canonical names. */
  lemma ResolvesAliases(url: Option<string>, patient: Option<string>, other: Option<string>)
    ensures var sheet := Frame(["Patient ID", "image_url", "Notes"],
                               [map["Patient ID" := patient, "image_url" := url, "Notes" := other]]);
            WellFormed(sheet) && LoadManifest(sheet).Ok? &&
            LoadManifest(sheet).value.rows == [map[UrlColumn := url, CaseIdColumn := patient]]
  {
    var columns := ["Patient ID", "image_url", "Notes"];
    var row := map["Patient ID" := patient, "image_url" := url, "Notes" := other];
    var sheet := Frame(columns, [row]);
    AliasesOfExample();
    ExampleIsWellFormed(row);
    assert CanonicalRows(sheet.rows, "image_url", "Patient ID") == [Canonical(row, "image_url", "Patient ID")];
  }

  lemma AliasesOfExample()
    ensures FirstPresent(UrlAliases, ["Patient ID", "image_url", "Notes"]) == Some("image_url")
    ensures FirstPresent(PatientIdAliases, ["Patient ID", "image_url", "Notes"]) == Some("Patient ID")
  {
    var columns := ["Patient ID", "image_url", "Notes"];
    assert UrlAliases[1..] == ["image_url", "url", "Image URL"];
    assert "imageUrl" !in columns;
    assert PatientIdAliases[1..] == ["Patient ID", "case_id", "Case ID"];
    assert "Case ID" !in columns;
  }

  lemma ExampleIsWellFormed(row: SheetRow)
    requires row.Keys == {"Patient ID", "image_url", "Notes"}
    ensures WellFormed(Frame(["Patient ID", "image_url", "Notes"], [row]))
  {
  }

  /** A sheet with none of the URL aliases is refused, whatever else it has. */
  lemma RefusesSheetWithoutUrl(patient: Option<string>)
    ensures var sheet := Frame(["Case ID", "link"], [map["Case ID" := patient, "link" := patient]]);
            WellFormed(sheet) && LoadManifest(sheet) == Err(UrlColumnNotFound)
  {
    var columns := ["Case ID", "link"];
    assert forall i :: 0 <= i < |UrlAliases| ==> UrlAliases[i] !in columns;
  }
}
