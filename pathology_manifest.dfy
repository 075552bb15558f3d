/** `generate_pathology_manifest` (tcia-cohort-builder.py): the pathology
    image rows of the cases left after filtering.  The schema is checked
    first; the cases whose "Available Images" mentions "Pathology" select the
    asset rows, cut down to the required columns; then every clinical row is
    LEFT-joined to those asset rows on "Case ID", so a clinical row with no
    matching asset still appears once, with missing asset fields. */
module Manifest {
  import opened Wrappers
  import opened Frames
  import opened Sequences
  import opened Text
  import opened Clinical

  /** Line 257. */
  const RequiredColumns: seq<string> :=
    ["Case ID", "imageId", "slideId", "imageHeight", "imagedWidth",
     "physicalPixelSizeX", "physicalPixelSizeY", "imageUrl", "created", "changed"]

  datatype ManifestError =
    | CaseIdMissingFromClinical             // line 252
    | CaseIdMissingFromPathology            // line 254
    | RequiredColumnsMissing(missing: seq<string>)  // line 260
    | KeyError(column: string)              // `filtered_df['Available Images']`, line 264

  predicate Distinct(xs: seq<string>)
  {
    forall i, j :: 0 <= i < j < |xs| ==> xs[i] != xs[j]
  }

  /** Line 258: the names of `required` absent from `columns`, in order. */
  function Missing(required: seq<string>, columns: seq<string>): (r: seq<string>)
    ensures forall c :: c in r <==> c in required && c !in columns
    ensures Subsequence(r, required)
    ensures Distinct(required) ==> Distinct(r)
  {
    if required == [] then []
    else
      var rest := Missing(required[1..], columns);
      assert forall c :: c in required <==> c == required[0] || c in required[1..];
      if required[0] in columns then
        assert rest != [] ==> Subsequence(rest, required[1..]);
        rest
      else
        assert ([required[0]] + rest)[1..] == rest;
        assert Distinct(required) ==> required[0] !in required[1..];
        [required[0]] + rest
  }

  lemma RequiredColumnsDistinct()
    ensures Distinct(RequiredColumns) && RequiredColumns[0] == CaseId
  {
  }

  /** Line 264: `str.contains('Pathology', na=False)`; a cell that is not a
      string counts as no match. */
  predicate HasPathology(row: Row)
  {
    AvailableImages in row && row[AvailableImages].Text? && Contains(row[AvailableImages].s, "Pathology")
  }

  /** Lines 263-265: the case identifiers of the rows with pathology images. */
  function PathologyCases(rows: seq<Row>): (ids: set<Cell>)
    requires forall k :: 0 <= k < |rows| ==> CaseId in rows[k]
  {
    set k | 0 <= k < |rows| && HasPathology(rows[k]) :: rows[k][CaseId]
  }

  /** A case is selected iff some clinical row of it mentions pathology. */
  lemma PathologyCasesExact(rows: seq<Row>, id: Cell)
    requires forall k :: 0 <= k < |rows| ==> CaseId in rows[k]
    ensures id in PathologyCases(rows) <==>
              exists k :: 0 <= k < |rows| && HasPathology(rows[k]) && rows[k][CaseId] == id
  {
  }

  /** `frame[columns]` for one row. */
  function Project(row: Row, columns: seq<string>): (r: Row)
    ensures r.Keys == (set c | c in columns) * row.Keys
    ensures forall c :: c in r ==> r[c] == row[c]
  {
    map c | c in columns && c in row :: row[c]
  }

  /** Lines 268-270: the asset rows whose case is among `ids`, cut down to the
      required columns, in their order. */
  function SelectAssets(assets: seq<Row>, ids: set<Cell>): (r: seq<Row>)
    requires forall k :: 0 <= k < |assets| ==> CaseId in assets[k]
    ensures forall k :: 0 <= k < |r| ==> CaseId in r[k] && r[k][CaseId] in ids
  {
    if assets == [] then []
    else
      assert CaseId == RequiredColumns[0];
      (if assets[0][CaseId] in ids then [Project(assets[0], RequiredColumns)] else []) +
      SelectAssets(assets[1..], ids)
  }

  /** The rows whose "Case ID" is `key`, in order. */
  function Matches(rows: seq<Row>, key: Cell): (r: seq<Row>)
    requires forall k :: 0 <= k < |rows| ==> CaseId in rows[k]
    ensures |r| <= |rows|
    ensures forall k :: 0 <= k < |r| ==> r[k] in rows && CaseId in r[k] && r[k][CaseId] == key
  {
    if rows == [] then []
    else (if rows[0][CaseId] == key then [rows[0]] else []) + Matches(rows[1..], key)
  }

  /** `Matches` keeps every row with the key, as often as it occurs and in
      order, and no other row. */
  lemma {:induction false} MatchesExact(rows: seq<Row>, key: Cell)
    requires forall k :: 0 <= k < |rows| ==> CaseId in rows[k]
    ensures Subsequence(Matches(rows, key), rows)
    ensures forall x :: multiset(Matches(rows, key))[x] ==
                        if CaseId in x && x[CaseId] == key then multiset(rows)[x] else 0
  {
    MatchesInOrder(rows, key);
    MatchesCounts(rows, key);
  }

  lemma {:induction false} MatchesInOrder(rows: seq<Row>, key: Cell)
    requires forall k :: 0 <= k < |rows| ==> CaseId in rows[k]
    ensures Subsequence(Matches(rows, key), rows)
  {
    if rows != [] {
      MatchesInOrder(rows[1..], key);
      var rest := Matches(rows[1..], key);
      if rows[0][CaseId] == key {
        assert Matches(rows, key) == [rows[0]] + rest;
        assert ([rows[0]] + rest)[1..] == rest;
      } else {
        assert Matches(rows, key) == rest;
      }
    }
  }

  lemma {:induction false} MatchesCounts(rows: seq<Row>, key: Cell)
    requires forall k :: 0 <= k < |rows| ==> CaseId in rows[k]
    ensures forall x :: multiset(Matches(rows, key))[x] ==
                        if CaseId in x && x[CaseId] == key then multiset(rows)[x] else 0
  {
    if rows != [] {
      MatchesCounts(rows[1..], key);
      assert rows == [rows[0]] + rows[1..];
      assert multiset(rows) == multiset([rows[0]]) + multiset(rows[1..]);
    }
  }

  function ProjectAll(rows: seq<Row>, columns: seq<string>): (r: seq<Row>)
    ensures |r| == |rows| && forall k :: 0 <= k < |rows| ==> r[k] == Project(rows[k], columns)
  {
    if rows == [] then [] else [Project(rows[0], columns)] + ProjectAll(rows[1..], columns)
  }

  /** Selecting the assets of `ids` and then those of one case is taking that
      case's asset rows, projected, when the case is selected, and nothing
      otherwise. */
  lemma {:induction false} MatchesOfSelected(assets: seq<Row>, ids: set<Cell>, key: Cell)
    requires forall k :: 0 <= k < |assets| ==> CaseId in assets[k]
    ensures forall k :: 0 <= k < |SelectAssets(assets, ids)| ==> CaseId in SelectAssets(assets, ids)[k]
    ensures Matches(SelectAssets(assets, ids), key) ==
            if key in ids then ProjectAll(Matches(assets, key), RequiredColumns) else []
  {
    if assets != [] {
      var a, tail := assets[0], assets[1..];
      MatchesOfSelected(tail, ids, key);
      var rest := SelectAssets(tail, ids);
      var p := Project(a, RequiredColumns);
      SelectAssetsHead(assets, ids);
      var own := Matches(tail, key);
      assert Matches(assets, key) == (if a[CaseId] == key then [a] else []) + own;
      if a[CaseId] in ids {
        MatchesCons(p, rest, key);
        if a[CaseId] == key {
          ProjectAllCons(a, own, RequiredColumns);
        }
      } else {
        assert SelectAssets(assets, ids) == rest;
      }
    }
  }

  lemma SelectAssetsHead(assets: seq<Row>, ids: set<Cell>)
    requires assets != [] && forall k :: 0 <= k < |assets| ==> CaseId in assets[k]
    ensures var p := Project(assets[0], RequiredColumns);
            && CaseId in p && p[CaseId] == assets[0][CaseId]
            && SelectAssets(assets, ids) ==
               (if assets[0][CaseId] in ids then [p] else []) + SelectAssets(assets[1..], ids)
  {
    assert CaseId in RequiredColumns;
  }

  lemma MatchesCons(x: Row, rows: seq<Row>, key: Cell)
    requires CaseId in x && forall k :: 0 <= k < |rows| ==> CaseId in rows[k]
    ensures forall k :: 0 <= k < |[x] + rows| ==> CaseId in ([x] + rows)[k]
    ensures Matches([x] + rows, key) == (if x[CaseId] == key then [x] else []) + Matches(rows, key)
  {
    assert ([x] + rows)[0] == x && ([x] + rows)[1..] == rows;
  }

  lemma ProjectAllCons(x: Row, rows: seq<Row>, columns: seq<string>)
    ensures ProjectAll([x] + rows, columns) == [Project(x, columns)] + ProjectAll(rows, columns)
  {
    assert ([x] + rows)[0] == x && ([x] + rows)[1..] == rows;
  }

  /** One asset row merged onto a clinical row; for a column both have, the
      clinical value is the one kept. */
  function JoinRow(clinical: Row, asset: Row): Row
  {
    asset + clinical
  }

  /** A merged row has the columns of both rows, the clinical values, and
      the asset values in the columns the clinical row lacks. */
  lemma JoinRowContents(clinical: Row, asset: Row)
    ensures JoinRow(clinical, asset).Keys == clinical.Keys + asset.Keys
    ensures forall c :: c in JoinRow(clinical, asset) ==>
              JoinRow(clinical, asset)[c] == if c in clinical then clinical[c] else asset[c]
  {
  }

  /** A clinical row without a matching asset row: every asset column missing. */
  function Padded(clinical: Row, assetColumns: seq<string>): (r: Row)
    ensures r.Keys == clinical.Keys + set c | c in assetColumns
    ensures forall c :: c in r ==> r[c] == if c in clinical then clinical[c] else NA
  {
    map c | c in clinical.Keys + (set c | c in assetColumns) :: if c in clinical then clinical[c] else NA
  }

  function JoinEach(clinical: Row, assets: seq<Row>): (r: seq<Row>)
    ensures |r| == |assets| && forall k :: 0 <= k < |assets| ==> r[k] == JoinRow(clinical, assets[k])
  {
    if assets == [] then [] else [JoinRow(clinical, assets[0])] + JoinEach(clinical, assets[1..])
  }

  /** The output rows of a left merge for one clinical row. */
  function Expand(clinical: Row, matches: seq<Row>): (r: seq<Row>)
    ensures |r| == if matches == [] then 1 else |matches|
  {
    if matches == [] then [Padded(clinical, RequiredColumns)] else JoinEach(clinical, matches)
  }

  /** Lines 273-277: `left.merge(right, on='Case ID', how='left')`. */
  function LeftJoin(left: seq<Row>, right: seq<Row>): seq<Row>
    requires forall k :: 0 <= k < |left| ==> CaseId in left[k]
    requires forall k :: 0 <= k < |right| ==> CaseId in right[k]
  {
    if left == [] then []
    else Expand(left[0], Matches(right, left[0][CaseId])) + LeftJoin(left[1..], right)
  }

  /** The columns of the merged table: the clinical ones, then the asset ones
      the clinical table lacks. */
  function ManifestColumns(clinicalColumns: seq<string>): seq<string>
  {
    clinicalColumns + Missing(RequiredColumns, clinicalColumns)
  }

  /** `generate_pathology_manifest(filtered_df, pathology_data)`. */
  function GenerateManifest(clinical: Table, pathology: Table): (r: Result<Table, ManifestError>)
    requires WellFormed(clinical) && WellFormed(pathology)
    ensures r == Err(CaseIdMissingFromClinical) <==> CaseId !in clinical.columns
    ensures r == Err(CaseIdMissingFromPathology) <==>
              CaseId in clinical.columns && CaseId !in pathology.columns
    ensures r.Err? && r.error.RequiredColumnsMissing? <==>
              CaseId in clinical.columns && CaseId in pathology.columns &&
              exists c :: c in RequiredColumns && c !in pathology.columns
    ensures r.Err? && r.error.RequiredColumnsMissing? ==>
              r.error.missing != [] && Subsequence(r.error.missing, RequiredColumns) &&
              forall c :: c in r.error.missing <==> c in RequiredColumns && c !in pathology.columns
    ensures r.Err? && r.error.KeyError? <==>
              (forall c :: c in RequiredColumns ==> c in pathology.columns) &&
              CaseId in clinical.columns && AvailableImages !in clinical.columns
    ensures r.Err? && r.error.KeyError? ==> r.error.column == AvailableImages
    ensures r.Ok? ==> r.value.columns == ManifestColumns(clinical.columns)
  {
    if CaseId !in clinical.columns then Err(CaseIdMissingFromClinical)
    else if CaseId !in pathology.columns then Err(CaseIdMissingFromPathology)
    else
      var missing := Missing(RequiredColumns, pathology.columns);
      if missing != [] then
        assert missing[0] in missing;
        Err(RequiredColumnsMissing(missing))
      else if AvailableImages !in clinical.columns then Err(KeyError(AvailableImages))
      else
        var ids := PathologyCases(clinical.rows);
        Ok(Frame(ManifestColumns(clinical.columns), LeftJoin(clinical.rows, SelectAssets(pathology.rows, ids))))
  }

  /** The rows a clinical row contributes to the manifest. */
  function Block(clinical: Table, pathology: Table, x: Row): seq<Row>
    requires WellFormed(clinical) && WellFormed(pathology)
    requires CaseId in clinical.columns && CaseId in pathology.columns && CaseId in x
  {
    Expand(x, Matches(SelectAssets(pathology.rows, PathologyCases(clinical.rows)), x[CaseId]))
  }

  /** The manifest is the clinical rows' blocks, one after another. */
  lemma {:induction false} ManifestIsBlocks(clinical: Table, pathology: Table, n: nat)
    requires WellFormed(clinical) && WellFormed(pathology)
    requires CaseId in clinical.columns && CaseId in pathology.columns
    requires n <= |clinical.rows|
    ensures forall k :: 0 <= k < |SelectAssets(pathology.rows, PathologyCases(clinical.rows))| ==>
              CaseId in SelectAssets(pathology.rows, PathologyCases(clinical.rows))[k]
    ensures LeftJoin(clinical.rows[|clinical.rows| - n..],
                     SelectAssets(pathology.rows, PathologyCases(clinical.rows))) ==
            if n == 0 then []
            else Block(clinical, pathology, clinical.rows[|clinical.rows| - n]) +
                 LeftJoin(clinical.rows[|clinical.rows| - n + 1..],
                          SelectAssets(pathology.rows, PathologyCases(clinical.rows)))
  {
    MatchesOfSelected(pathology.rows, PathologyCases(clinical.rows), NA);
    if n > 0 {
      var rows := clinical.rows[|clinical.rows| - n..];
      assert rows[1..] == clinical.rows[|clinical.rows| - n + 1..];
    }
  }

  /** Lines 263-277 per clinical row: a row whose case has pathology images
      and asset rows expands into one merged row per asset row of that case,
      in the asset table's order, each cut down to the required columns;
      any other row appears exactly once, with every asset column missing. */
  lemma BlockContents(clinical: Table, pathology: Table, x: Row)
    requires WellFormed(clinical) && WellFormed(pathology)
    requires GenerateManifest(clinical, pathology).Ok?
    requires x in clinical.rows
    ensures CaseId in x
    ensures var key := x[CaseId];
            var own := Matches(pathology.rows, key);
            var selected := (exists k :: 0 <= k < |clinical.rows| &&
                               HasPathology(clinical.rows[k]) && clinical.rows[k][CaseId] == key);
            Block(clinical, pathology, x) ==
              if selected && own != [] then JoinEach(x, ProjectAll(own, RequiredColumns))
              else [Padded(x, RequiredColumns)]
  {
    var i :| 0 <= i < |clinical.rows| && clinical.rows[i] == x;
    var ids := PathologyCases(clinical.rows);
    MatchesOfSelected(pathology.rows, ids, x[CaseId]);
    var selected := (exists k :: 0 <= k < |clinical.rows| &&
                       HasPathology(clinical.rows[k]) && clinical.rows[k][CaseId] == x[CaseId]);
    if selected {
      var k :| 0 <= k < |clinical.rows| && HasPathology(clinical.rows[k]) && clinical.rows[k][CaseId] == x[CaseId];
      assert x[CaseId] in ids;
    } else {
      assert x[CaseId] !in ids;
    }
  }

  /** A left merge never drops a clinical row. */
  lemma {:induction false} LeftJoinKeepsCount(left: seq<Row>, right: seq<Row>)
    requires forall k :: 0 <= k < |left| ==> CaseId in left[k]
    requires forall k :: 0 <= k < |right| ==> CaseId in right[k]
    ensures |LeftJoin(left, right)| >= |left|
  {
    if left != [] {
      LeftJoinKeepsCount(left[1..], right);
    }
  }

  /** At most one asset row per case: the merge has exactly one row per
      clinical row. */
  lemma {:induction false} LeftJoinUniqueKeys(left: seq<Row>, right: seq<Row>)
    requires forall k :: 0 <= k < |left| ==> CaseId in left[k]
    requires forall k :: 0 <= k < |right| ==> CaseId in right[k]
    requires forall i, j :: 0 <= i < j < |right| ==> right[i][CaseId] != right[j][CaseId]
    ensures |LeftJoin(left, right)| == |left|
  {
    if left != [] {
      LeftJoinUniqueKeys(left[1..], right);
      var ms := Matches(right, left[0][CaseId]);
      if |ms| > 1 {
        UniqueMatches(right, left[0][CaseId]);
      }
    }
  }

  lemma {:induction false} UniqueMatches(rows: seq<Row>, key: Cell)
    requires forall k :: 0 <= k < |rows| ==> CaseId in rows[k]
    requires forall i, j :: 0 <= i < j < |rows| ==> rows[i][CaseId] != rows[j][CaseId]
    ensures |Matches(rows, key)| <= 1
  {
    if rows != [] {
      UniqueMatches(rows[1..], key);
      if rows[0][CaseId] == key {
        assert forall k :: 0 <= k < |rows[1..]| ==> rows[1..][k][CaseId] != key by {
          forall k | 0 <= k < |rows[1..]| ensures rows[1..][k][CaseId] != key {
            assert rows[1..][k] == rows[k + 1];
          }
        }
        NoMatches(rows[1..], key);
      }
    }
  }

  lemma {:induction false} NoMatches(rows: seq<Row>, key: Cell)
    requires forall k :: 0 <= k < |rows| ==> CaseId in rows[k] && rows[k][CaseId] != key
    ensures Matches(rows, key) == []
  {
    if rows != [] {
      NoMatches(rows[1..], key);
    }
  }

  /** The part of a merged row that came from the clinical table. */
  function Restrict(row: Row, keys: set<string>): Row
  {
    map c | c in keys && c in row :: row[c]
  }

  function RestrictAll(rows: seq<Row>, keys: set<string>): (r: seq<Row>)
    ensures |r| == |rows| && forall k :: 0 <= k < |rows| ==> r[k] == Restrict(rows[k], keys)
  {
    if rows == [] then [] else [Restrict(rows[0], keys)] + RestrictAll(rows[1..], keys)
  }

  /** Every row a clinical row gives carries that clinical row unchanged. */
  lemma ExpandCarriesRow(x: Row, matches: seq<Row>)
    ensures forall k :: 0 <= k < |Expand(x, matches)| ==> Restrict(Expand(x, matches)[k], x.Keys) == x
  {
    forall k | 0 <= k < |Expand(x, matches)| ensures Restrict(Expand(x, matches)[k], x.Keys) == x {
      var r := Restrict(Expand(x, matches)[k], x.Keys);
      assert r.Keys == x.Keys;
    }
  }

  /** The clinical part of the manifest repeats the clinical rows, each at
      least once, in their order, and holds nothing else. */
  lemma {:induction false} LeftJoinKeepsClinicalRows(left: seq<Row>, right: seq<Row>, keys: set<string>)
    requires forall k :: 0 <= k < |left| ==> CaseId in left[k] && left[k].Keys == keys
    requires forall k :: 0 <= k < |right| ==> CaseId in right[k]
    ensures Subsequence(left, RestrictAll(LeftJoin(left, right), keys))
    ensures forall k :: 0 <= k < |LeftJoin(left, right)| ==> Restrict(LeftJoin(left, right)[k], keys) in left
  {
    if left != [] {
      var x, tail := left[0], left[1..];
      LeftJoinKeepsClinicalRows(tail, right, keys);
      var block := Expand(x, Matches(right, x[CaseId]));
      var rest := LeftJoin(tail, right);
      assert LeftJoin(left, right) == block + rest;
      var rb := RestrictAll(block, keys);
      var rr := RestrictAll(rest, keys);
      BlockRestricts(x, Matches(right, x[CaseId]), keys);
      RestrictAllConcat(block, rest, keys);
      assert rb[0] == x;
      SubsequenceCons(x, tail, rb, rr);
      assert left == [x] + tail;
      ConcatFrom(block, rest, keys, left);
    }
  }

  lemma SubsequenceCons(x: Row, tail: seq<Row>, rb: seq<Row>, rr: seq<Row>)
    requires rb != [] && rb[0] == x && Subsequence(tail, rr)
    ensures Subsequence([x] + tail, rb + rr)
  {
    SubsequenceAfterPrefix(tail, rb[1..], rr);
    assert (rb + rr)[1..] == rb[1..] + rr;
    assert ([x] + tail)[1..] == tail;
    assert (rb + rr)[0] == ([x] + tail)[0];
  }

  /** The clinical part of a block is its clinical row, at least once. */
  lemma BlockRestricts(x: Row, matches: seq<Row>, keys: set<string>)
    requires x.Keys == keys
    ensures |RestrictAll(Expand(x, matches), keys)| >= 1
    ensures forall k :: 0 <= k < |Expand(x, matches)| ==> Restrict(Expand(x, matches)[k], keys) == x
  {
    ExpandCarriesRow(x, matches);
  }

  lemma ConcatFrom(block: seq<Row>, rest: seq<Row>, keys: set<string>, left: seq<Row>)
    requires left != []
    requires forall k :: 0 <= k < |block| ==> Restrict(block[k], keys) == left[0]
    requires forall k :: 0 <= k < |rest| ==> Restrict(rest[k], keys) in left[1..]
    ensures forall k :: 0 <= k < |block + rest| ==> Restrict((block + rest)[k], keys) in left
  {
    forall k | 0 <= k < |block + rest| ensures Restrict((block + rest)[k], keys) in left {
      if k < |block| {
        assert (block + rest)[k] == block[k];
      } else {
        assert (block + rest)[k] == rest[k - |block|];
      }
    }
  }

  lemma {:induction false} RestrictAllConcat(a: seq<Row>, b: seq<Row>, keys: set<string>)
    ensures RestrictAll(a + b, keys) == RestrictAll(a, keys) + RestrictAll(b, keys)
  {
  }

  lemma {:induction false} SubsequenceAfterPrefix(a: seq<Row>, p: seq<Row>, b: seq<Row>)
    requires Subsequence(a, b)
    ensures Subsequence(a, p + b)
    decreases |p|
  {
    if p != [] {
      SubsequenceAfterPrefix(a, p[1..], b);
      assert (p + b)[1..] == p[1..] + b;
      if a != [] {
        assert Subsequence(a, (p + b)[1..]);
      }
    } else {
      assert p + b == b;
    }
  }

  /** The manifest is a table: its columns are distinct and every merged or
      padded row has exactly them. */
  lemma ManifestWellFormed(clinical: Table, pathology: Table)
    requires WellFormed(clinical) && WellFormed(pathology)
    requires GenerateManifest(clinical, pathology).Ok?
    ensures WellFormed(GenerateManifest(clinical, pathology).value)
  {
    RequiredColumnsDistinct();
    var out := GenerateManifest(clinical, pathology).value;
    var extra := Missing(RequiredColumns, clinical.columns);
    var cols := clinical.columns + extra;
    forall i, j | 0 <= i < j < |cols| ensures cols[i] != cols[j] {
      if j < |clinical.columns| {
        assert cols[i] == clinical.columns[i] && cols[j] == clinical.columns[j];
      } else if i >= |clinical.columns| {
        assert cols[i] == extra[i - |clinical.columns|] && cols[j] == extra[j - |clinical.columns|];
      } else {
        assert cols[i] == clinical.columns[i] && cols[j] == extra[j - |clinical.columns|];
        assert cols[j] in extra;
      }
    }
    var keys := (set c | c in clinical.columns) + (set c | c in RequiredColumns);
    assert (set c | c in cols) == keys;
    var assets := SelectAssets(pathology.rows, PathologyCases(clinical.rows));
    SelectedShape(pathology, PathologyCases(clinical.rows));
    LeftJoinShape(clinical.rows, assets, set c | c in clinical.columns, set c | c in RequiredColumns);
  }

  /** The selected asset rows have exactly the required columns. */
  lemma {:induction false} SelectedShapeRows(assets: seq<Row>, ids: set<Cell>, keys: set<string>)
    requires forall k :: 0 <= k < |assets| ==> assets[k].Keys == keys
    requires (set c | c in RequiredColumns) <= keys
    requires forall k :: 0 <= k < |assets| ==> CaseId in assets[k]
    ensures forall k :: 0 <= k < |SelectAssets(assets, ids)| ==>
              SelectAssets(assets, ids)[k].Keys == set c | c in RequiredColumns
  {
    if assets != [] {
      SelectedShapeRows(assets[1..], ids, keys);
    }
  }

  lemma SelectedShape(pathology: Table, ids: set<Cell>)
    requires WellFormed(pathology)
    requires forall c :: c in RequiredColumns ==> c in pathology.columns
    ensures forall k :: 0 <= k < |SelectAssets(pathology.rows, ids)| ==>
              SelectAssets(pathology.rows, ids)[k].Keys == set c | c in RequiredColumns
  {
    SelectedShapeRows(pathology.rows, ids, set c | c in pathology.columns);
  }

  lemma {:induction false} LeftJoinShape(left: seq<Row>, right: seq<Row>, lk: set<string>, rk: set<string>)
    requires forall k :: 0 <= k < |left| ==> CaseId in left[k] && left[k].Keys == lk
    requires forall k :: 0 <= k < |right| ==> CaseId in right[k] && right[k].Keys == rk
    requires rk == set c | c in RequiredColumns
    ensures forall k :: 0 <= k < |LeftJoin(left, right)| ==> LeftJoin(left, right)[k].Keys == lk + rk
  {
    if left != [] {
      LeftJoinShape(left[1..], right, lk, rk);
      var ms := Matches(right, left[0][CaseId]);
      var block := Expand(left[0], ms);
      var rest := LeftJoin(left[1..], right);
      assert LeftJoin(left, right) == block + rest;
      BlockShape(left[0], ms, lk, rk);
      KeysConcat(block, rest, lk + rk);
    }
  }

  lemma BlockShape(x: Row, ms: seq<Row>, lk: set<string>, rk: set<string>)
    requires x.Keys == lk && rk == set c | c in RequiredColumns
    requires forall k :: 0 <= k < |ms| ==> ms[k].Keys == rk
    ensures forall k :: 0 <= k < |Expand(x, ms)| ==> Expand(x, ms)[k].Keys == lk + rk
  {
  }

  lemma KeysConcat(a: seq<Row>, b: seq<Row>, keys: set<string>)
    requires forall k :: 0 <= k < |a| ==> a[k].Keys == keys
    requires forall k :: 0 <= k < |b| ==> b[k].Keys == keys
    ensures forall k :: 0 <= k < |a + b| ==> (a + b)[k].Keys == keys
  {
    forall k | 0 <= k < |a + b| ensures (a + b)[k].Keys == keys {
      if k < |a| {
        assert (a + b)[k] == a[k];
      } else {
        assert (a + b)[k] == b[k - |a|];
      }
    }
  }

  /** Every clinical row of the filtered table is in the manifest, at least
      once and in order, and every manifest row carries one of them. */
  lemma ManifestKeepsClinicalRows(clinical: Table, pathology: Table)
    requires WellFormed(clinical) && WellFormed(pathology)
    requires GenerateManifest(clinical, pathology).Ok?
    ensures var out := GenerateManifest(clinical, pathology).value;
            var keys := set c | c in clinical.columns;
            && |out.rows| >= |clinical.rows|
            && Subsequence(clinical.rows, RestrictAll(out.rows, keys))
            && forall k :: 0 <= k < |out.rows| ==> Restrict(out.rows[k], keys) in clinical.rows
  {
    var assets := SelectAssets(pathology.rows, PathologyCases(clinical.rows));
    LeftJoinKeepsCount(clinical.rows, assets);
    LeftJoinKeepsClinicalRows(clinical.rows, assets, set c | c in clinical.columns);
  }

  lemma {:induction false} MissingNone(required: seq<string>, columns: seq<string>)
    requires forall c :: c in required ==> c in columns
    ensures Missing(required, columns) == []
  {
    if required != [] {
      MissingNone(required[1..], columns);
    }
  }

  lemma ExampleImages()
    ensures Contains("Radiology; Pathology", "Pathology")
    ensures !Contains("Radiology", "Pathology")
  {
    assert OccursAt("Radiology; Pathology", "Pathology", 11);
    NotOccursAt("Radiology", "Pathology", 0, 0);
    assert forall j :: !OccursAt("Radiology", "Pathology", j);
  }

  lemma PathologyCasesPair(a: Row, b: Row)
    requires CaseId in a && CaseId in b && HasPathology(a) && !HasPathology(b)
    ensures PathologyCases([a, b]) == {a[CaseId]}
  {
    var ids := PathologyCases([a, b]);
    assert a[CaseId] in ids by {
      assert [a, b][0] == a;
    }
    forall x | x in ids ensures x == a[CaseId] {
      var k :| 0 <= k < 2 && HasPathology([a, b][k]) && [a, b][k][CaseId] == x;
      assert k != 1;
    }
  }

  lemma ManifestRows(clinical: Table, pathology: Table)
    requires WellFormed(clinical) && WellFormed(pathology)
    requires GenerateManifest(clinical, pathology).Ok?
    ensures GenerateManifest(clinical, pathology).value.rows ==
            LeftJoin(clinical.rows, SelectAssets(pathology.rows, PathologyCases(clinical.rows)))
  {
  }

  lemma LeftJoinCons(x: Row, rest: seq<Row>, right: seq<Row>)
    requires CaseId in x && forall k :: 0 <= k < |rest| ==> CaseId in rest[k]
    requires forall k :: 0 <= k < |right| ==> CaseId in right[k]
    ensures forall k :: 0 <= k < |[x] + rest| ==> CaseId in ([x] + rest)[k]
    ensures LeftJoin([x] + rest, right) == Expand(x, Matches(right, x[CaseId])) + LeftJoin(rest, right)
  {
    assert ([x] + rest)[0] == x && ([x] + rest)[1..] == rest;
  }

  lemma LeftJoinSingle(b: Row, right: seq<Row>)
    requires CaseId in b
    requires forall k :: 0 <= k < |right| ==> CaseId in right[k]
    ensures LeftJoin([b], right) == Expand(b, Matches(right, b[CaseId]))
  {
    LeftJoinCons(b, [], right);
    assert [b] + [] == [b];
    var e := Expand(b, Matches(right, b[CaseId]));
    assert e + [] == e;
  }

  /** The merge is a left one.  Of two cases, the first with pathology
      images and one asset row and the second without pathology images, the
      manifest holds the first merged with its asset row and the second once,
      with every asset field missing. */
  lemma LeftJoinKeepsCaseWithoutPathology(clinical: Table, pathology: Table)
    requires WellFormed(clinical) && WellFormed(pathology)
    requires CaseId in clinical.columns && AvailableImages in clinical.columns
    requires forall c :: c in RequiredColumns ==> c in pathology.columns
    requires |clinical.rows| == 2 && |pathology.rows| == 1
    requires HasPathology(clinical.rows[0]) && !HasPathology(clinical.rows[1])
    requires clinical.rows[0][CaseId] != clinical.rows[1][CaseId]
    requires pathology.rows[0][CaseId] == clinical.rows[0][CaseId]
    ensures GenerateManifest(clinical, pathology).Ok?
    ensures GenerateManifest(clinical, pathology).value.rows ==
            [JoinRow(clinical.rows[0], Project(pathology.rows[0], RequiredColumns)),
             Padded(clinical.rows[1], RequiredColumns)]
  {
    PairSucceeds(clinical, pathology);
    Listed(clinical.rows, pathology.rows);
    PairManifestRows(clinical.rows[0], clinical.rows[1], pathology.rows[0]);
  }

  lemma Listed(two: seq<Row>, one: seq<Row>)
    requires |two| == 2 && |one| == 1
    ensures two == [two[0], two[1]] && one == [one[0]]
  {
  }

  lemma PairManifestRows(a: Row, b: Row, m: Row)
    requires CaseId in a && CaseId in b && CaseId in m
    requires HasPathology(a) && !HasPathology(b)
    requires a[CaseId] != b[CaseId] && m[CaseId] == a[CaseId]
    ensures forall k :: 0 <= k < |SelectAssets([m], PathologyCases([a, b]))| ==>
              CaseId in SelectAssets([m], PathologyCases([a, b]))[k]
    ensures LeftJoin([a, b], SelectAssets([m], PathologyCases([a, b]))) ==
            [JoinRow(a, Project(m, RequiredColumns)), Padded(b, RequiredColumns)]
  {
    PathologyCasesPair(a, b);
    PairJoinSelected(a, b, m);
  }

  lemma PairJoinSelected(a: Row, b: Row, m: Row)
    requires CaseId in a && CaseId in b && CaseId in m
    requires a[CaseId] != b[CaseId] && m[CaseId] == a[CaseId]
    ensures forall k :: 0 <= k < |SelectAssets([m], {a[CaseId]})| ==> CaseId in SelectAssets([m], {a[CaseId]})[k]
    ensures LeftJoin([a, b], SelectAssets([m], {a[CaseId]})) ==
            [JoinRow(a, Project(m, RequiredColumns)), Padded(b, RequiredColumns)]
  {
    var assets := SelectAssets([m], {a[CaseId]});
    PairSelection([m], {a[CaseId]}, a[CaseId], b[CaseId]);
    PairJoin(a, b, Project(m, RequiredColumns), assets);
    PairIs(LeftJoin([a, b], assets), JoinRow(a, Project(m, RequiredColumns)), Padded(b, RequiredColumns));
  }

  lemma PairSucceeds(clinical: Table, pathology: Table)
    requires WellFormed(clinical) && WellFormed(pathology)
    requires CaseId in clinical.columns && AvailableImages in clinical.columns
    requires forall c :: c in RequiredColumns ==> c in pathology.columns
    ensures GenerateManifest(clinical, pathology).Ok?
    ensures GenerateManifest(clinical, pathology).value.rows ==
            LeftJoin(clinical.rows, SelectAssets(pathology.rows, PathologyCases(clinical.rows)))
  {
    MissingNone(RequiredColumns, pathology.columns);
    assert CaseId in RequiredColumns;
    ManifestRows(clinical, pathology);
  }

  /** Of one asset row of case `key`, the selection for `{key}` keeps it,
      projected, under `key`, and nothing under another case. */
  lemma PairSelection(rows: seq<Row>, ids: set<Cell>, key: Cell, other: Cell)
    requires |rows| == 1 && CaseId in rows[0] && rows[0][CaseId] == key
    requires ids == {key} && other != key
    ensures forall k :: 0 <= k < |SelectAssets(rows, ids)| ==> CaseId in SelectAssets(rows, ids)[k]
    ensures Matches(SelectAssets(rows, ids), key) == [Project(rows[0], RequiredColumns)]
    ensures Matches(SelectAssets(rows, ids), other) == []
  {
    MatchesOfSelected(rows, ids, key);
    MatchesOfSelected(rows, ids, other);
    assert rows[1..] == [];
    assert Matches(rows, key) == [rows[0]];
  }

  /** The merge of two clinical rows, the first with one asset row and the
      second with none. */
  lemma PairJoin(a: Row, b: Row, m: Row, assets: seq<Row>)
    requires CaseId in a && CaseId in b
    requires forall k :: 0 <= k < |assets| ==> CaseId in assets[k]
    requires Matches(assets, a[CaseId]) == [m] && Matches(assets, b[CaseId]) == []
    ensures var rows := LeftJoin([a, b], assets);
            |rows| == 2 && rows[0] == JoinRow(a, m) && rows[1] == Padded(b, RequiredColumns)
  {
    assert [a, b] == [a] + [b];
    LeftJoinCons(a, [b], assets);
    LeftJoinSingle(b, assets);
    var ea := Expand(a, [m]);
    var eb := LeftJoin([b], assets);
    assert |ea| == 1 && ea[0] == JoinRow(a, m);
    assert |eb| == 1 && eb[0] == Padded(b, RequiredColumns);
    assert (ea + eb)[0] == ea[0] && (ea + eb)[1] == eb[0];
  }

  lemma PairIs(rows: seq<Row>, x: Row, y: Row)
    requires |rows| == 2 && rows[0] == x && rows[1] == y
    ensures rows == [x, y]
  {
  }
}
