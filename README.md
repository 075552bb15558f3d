# TCIA cohort builder and pathology downloader, modelled in Dafny

This project models the table logic of two programs.

- `tcia-cohort-builder.py` is a dashboard over a clinical spreadsheet. It
  normalises the raw ages of every case to "Age at Baseline" in years. It
  filters the cases by the sidebar's categorical selections and by an age
  range. It lists the sorted options of a filter and pages through the
  filtered table. It also builds the pathology manifest: clinical rows
  left-joined to the image rows of the cases that have pathology images.
- `pathology-downloader.py` downloads the images of a manifest. It resolves
  the URL and patient-ID columns from a list of aliases. It derives each
  file's destination from the text after "/ross/" in its URL. It reports
  one progress message per row, then completion.

Modules, one file each:

| file | module | what it holds |
|---|---|---|
| `wrappers.dfy` | `Wrappers` | `Option`, `Result` |
| `frames.dfy` | `Frames` | a table: column names and rows as maps from column name to cell; `WellFormed` means distinct columns and every row has exactly those keys |
| `sequences.dfy` | `Sequences` | `Subsequence` (order-preserving selection) |
| `text.dfy` | `Text` | substring search, `str.lower`, `str.strip`, Python's string order |
| `clinical.dfy` | `Clinical` | the dashboard's cells (`Text`, `Num`, `NA`) and column names |
| `age_baseline.dfy` | `AgeBaseline` | `age_uom_factors`, `calculate_age_at_baseline` |
| `unique_values.dfy` | `UniqueValues` | `get_unique_sorted_values` |
| `cohort_filter.dfy` | `CohortFilter` | `filter_dataframe` |
| `pathology_manifest.dfy` | `Manifest` | `generate_pathology_manifest` |
| `pagination.dfy` | `Pagination` | `max_page`, the page slice, the "‹"/"›" buttons and `st.session_state.page_number` |
| `manifest_loader.dfy` | `Loader` | `load_manifest` |
| `download_thread.dfy` | `Downloader` | `PathologyDownloadThread`: its construction and its `run` loop |

The loops of the source are methods with loop invariants. Each is proved
against a function that states the result:

- `CalculateAgeAtBaseline`, `CoerceAgeColumns` and `LeastYears` against `BaselineRow`;
- `FilterDataFrame` against `Filtered`;
- `DownloadThread.Run` and `DownloadThread.RunAsWritten` against `Events` and `SignalsAsWritten`.

The session's page number is a class whose `Rerun` method updates it.
Everything the source writes as expressions is a function.

Inputs the programs get from outside are parameters:

- the numeric parser of `pd.to_numeric` (`parse: string -> Option<real>`);
- the outcome of each download (`FetchResult`: `Saved`, or `Failed` with the exception's text);
- the spreadsheet that `pd.read_excel` returns (`Sheet`).

Two behaviours of the code are worth stating outright.

- **Cases without pathology images stay in the manifest.** The code merges
  with `how='left'` (tcia-cohort-builder.py:273-277), so a case whose
  "Available Images" lacks "Pathology" is not excluded: it stays, once,
  with empty asset fields. `Manifest.LeftJoinKeepsCaseWithoutPathology`
  proves this for every table of two cases, the first with pathology
  images and one image row, the second without pathology images.
- **One unit per row.** The code has one unit column per row (line 158),
  so all ages of a row share one factor; two ages of one subject cannot
  carry different units. `AgeBaseline.MonthExample` proves the per-row
  reading: 600 and 51 with "Month" give 4.25.

Three more observations about the downloader:

- `load_manifest` runs only when the thread is given a path. The window's
  `start_download` (pathology-downloader.py:166) passes the table read
  from the spreadsheet, so its columns are used as they are. Modelled by
  `NewDownloadThread` with the `Table` input.
- A table with at least one row but without an "imageUrl" or "Case ID"
  column makes `run()` raise a KeyError at lines 66-67. A table with no
  rows never enters the loop and completes with `True`. `DownloadThread.RunAsWritten` includes this case
  through `Crashes`.
- A URL whose text after "/ross/" starts with "/" (for example
  https://host/ross//etc/x) gives an absolute sub-path, and
  `os.path.join` at line 71 then discards the download directory: the
  file is written to /etc/x. `Downloader.FilePath` states this case and
  `Downloader.AbsoluteSubPathEscapes` shows it.

## Model

| member | source | states |
|---|---|---|
| AgeBaseline.FactorOfKey | tcia-cohort-builder.py:143-164 | the factor chosen for a unit string is positive and at most 1 (year 1.0, month 1/12, day 1/365.25, otherwise 1.0; first match wins) |
| AgeBaseline.UomFactor | tcia-cohort-builder.py:158-164 | the factor of a text unit is that of its lower-cased form (stripping never changes which of "year", "month", "day" it contains); a non-text unit ("nan") gets the year factor 1.0 |
| AgeBaseline.FactorOfStripped | tcia-cohort-builder.py:158-162 | stripping white space from a unit string never changes its factor |
| AgeBaseline.Coerce | tcia-cohort-builder.py:152-154 | `to_numeric(errors='coerce')` never leaves text and keeps numbers unchanged |
| AgeBaseline.CoerceColumns | tcia-cohort-builder.py:152-154 | exactly the listed columns that exist are coerced; the row's columns and other values are unchanged |
| AgeBaseline.Existing | tcia-cohort-builder.py:166 | a column is an existing age column iff it is listed and in the table |
| AgeBaseline.YearsValues | tcia-cohort-builder.py:168-171 | the converted ages are empty iff no column holds a number; each numeric column contributes its value times the factor, and nothing else appears |
| AgeBaseline.Minimum | tcia-cohort-builder.py:172 | the row minimum is absent iff there are no values; otherwise it is one of the values and no value is smaller |
| AgeBaseline.BaselineRow | tcia-cohort-builder.py:150-174 | a result row has the input's columns plus "Age at Baseline", which is never text; every listed age column holds its coerced value and every other column keeps its value |
| AgeBaseline.CoerceAgeColumns | tcia-cohort-builder.py:152-154 | the coercion loop over the table gives every row `CoerceColumns` of it |
| AgeBaseline.LeastYears | tcia-cohort-builder.py:168-172 | the loop over converted columns keeps, per row, the minimum of its converted ages |
| AgeBaseline.CalculateAgeAtBaseline | tcia-cohort-builder.py:149-177 | a KeyError iff the unit column is missing (and is not "Age at Baseline", which line 156 has just added); an AttributeError iff the unit column holds no strings: it is a raw age column made numeric by lines 152-154, or a column without text in a non-empty table; otherwise every row is `BaselineRow` of its input row, "Age at Baseline" is added to the columns, and the table stays well formed |
| AgeBaseline.UnitAsAgeColumnRefused | tcia-cohort-builder.py:152-158 | a unit column listed among the raw age columns is refused by `.str` even when it held "Month" |
| AgeBaseline.UnitsWithoutText | tcia-cohort-builder.py:158 | when `.str` refuses the unit column: it is a raw age column, or it holds no string in a non-empty table, and it is not "Age at Baseline"; `CalculateAgeAtBaseline` fails with `UnitsNotText` iff this holds, and `UnitAsAgeColumnRefused` shows the raw-age-column case |
| AgeBaseline.BaselineIsLeastAge | tcia-cohort-builder.py:152-172 | "Age at Baseline" is missing iff no existing age column coerces to a number; otherwise it equals one converted age and is at most every converted age |
| AgeBaseline.MonthUnit | tcia-cohort-builder.py:158-164 | "Month" selects the month factor |
| AgeBaseline.MonthExample | tcia-cohort-builder.py:149-172 | ages 600 and 51 with the unit "Month" give 4.25 years |
| AgeBaseline.LeastOfTwo | tcia-cohort-builder.py:168-172 | the least of 600 and 51 months in years is 4.25 |
| AgeBaseline.DefaultColumnsDistinct | tcia-cohort-builder.py:149 | the default unit column and "Age at Baseline" are not among the default age columns |
| Clinical.WithColumn | tcia-cohort-builder.py:156 | assigning a column appends it unless present and keeps the existing columns first |
| Clinical.WithColumnWellFormed | tcia-cohort-builder.py:156 | a table with one column added to every row is well formed |
| UniqueValues.SortedIsDistinct | tcia-cohort-builder.py:185 | a strictly sorted list has no repeats |
| UniqueValues.Insert | tcia-cohort-builder.py:185 | inserting keeps the list strictly sorted and adds exactly the new value |
| UniqueValues.SortedDistinct | tcia-cohort-builder.py:185 | `sorted(unique)` is strictly sorted and has exactly the input's values |
| UniqueValues.ColumnTexts | tcia-cohort-builder.py:185 | one string per row, in row order, equal to the row's cell |
| UniqueValues.UniqueSortedValues | tcia-cohort-builder.py:180-188 | `[]` for a missing column; always strictly sorted; for a text column, a value is listed iff some row holds it; a column with a non-text cell gives `[]` (the exception handler) |
| UniqueValues.OptionsExample | tcia-cohort-builder.py:180-185 | the column "b", "a", "b" gives the options ["a", "b"] |
| Text.IndexFrom | tcia-cohort-builder.py:159-162 | the first occurrence of a word at or after a position, or none |
| Text.IndexOf | pathology-downloader.py:70 | the first occurrence of a word: it occurs there and not earlier; none iff it occurs nowhere |
| Text.Lower | tcia-cohort-builder.py:158 | `str.lower` maps each character, keeping the length |
| Text.TrimStart | tcia-cohort-builder.py:158 | removes a leading run of white space and stops at a non-space character |
| Text.TrimEnd | tcia-cohort-builder.py:158 | removes a trailing run of white space and stops at a non-space character |
| Text.Strip | tcia-cohort-builder.py:158 | `str.strip` removes white space at both ends |
| Text.StripKeepsWords | tcia-cohort-builder.py:158-162 | a word without white space occurs in a string iff it occurs in the stripped string |
| Text.LexLessIrreflexive | tcia-cohort-builder.py:185 | Python's string order is irreflexive |
| Text.LexLessTransitive | tcia-cohort-builder.py:185 | Python's string order is transitive |
| Text.LexLessTotal | tcia-cohort-builder.py:185 | of two different strings one is smaller |
| Sequences.SubsequenceTransitive | tcia-cohort-builder.py:216-235 | a selection of a selection is a selection of the original |
| CohortFilter.SatisfyingMembers | tcia-cohort-builder.py:219 | selection keeps exactly the rows meeting the criteria |
| CohortFilter.SatisfyingCounts | tcia-cohort-builder.py:219 | a kept row appears as often as in the input |
| CohortFilter.SatisfyingOrder | tcia-cohort-builder.py:219 | selection is a subsequence of the input |
| CohortFilter.SatisfyingCompose | tcia-cohort-builder.py:216-235 | selecting by one list of criteria and then another is selecting by both |
| CohortFilter.Categories | tcia-cohort-builder.py:217-219 | exactly the filters with a non-empty list become criteria |
| CohortFilter.FirstUnknown | tcia-cohort-builder.py:217-219 | the first non-empty filter on a column the table lacks, or none iff there is no such filter |
| CohortFilter.Filtered | tcia-cohort-builder.py:213-237 | a KeyError iff some non-empty filter names a missing column, and then it names the first; a comparison error iff there is no such filter, the range applies and a kept row has a text "Age at Baseline"; on success the columns are unchanged |
| CohortFilter.NumericAgesFilter | tcia-cohort-builder.py:213-237 | a table with no text "Age at Baseline" cell, as `load_data` and `calculate_age_at_baseline` leave it, filters without error whenever every non-empty filter names one of its columns |
| CohortFilter.FilterDataFrame | tcia-cohort-builder.py:213-237 | the loop over the filters, then the age branch, computes `Filtered` |
| CohortFilter.CategoriesMeet | tcia-cohort-builder.py:217-219 | a row meets the categorical criteria iff its value is accepted by every filter with a non-empty list |
| CohortFilter.FilteredRows | tcia-cohort-builder.py:216-235 | the result holds exactly the input rows that meet every non-empty filter and, when the range applies, the range; each as often as in the input; in input order |
| CohortFilter.FilteredWellFormed | tcia-cohort-builder.py:213-237 | the filtered table is well formed |
| CohortFilter.FilteredSatisfies | tcia-cohort-builder.py:216-235 | the filtered rows are the input rows meeting all the imposed criteria |
| CohortFilter.SatisfyingAllHold | tcia-cohort-builder.py:219 | rows that all meet the criteria are all kept |
| CohortFilter.FilterIdempotent | tcia-cohort-builder.py:213-237 | filtering the result again with the same settings returns it unchanged |
| CohortFilter.FilterNothing | tcia-cohort-builder.py:216-222 | with only empty lists and the default range, the table comes back unchanged |
| CohortFilter.CategoriesOfEmpty | tcia-cohort-builder.py:218 | filters with empty lists impose no criterion |
| CohortFilter.ZeroMinimumKeepsMissingAge | tcia-cohort-builder.py:226-230 | with minimum 0, a row without an age that meets the filters is kept |
| CohortFilter.RaisedMinimumNeedsAge | tcia-cohort-builder.py:231-235 | with a minimum other than 0, every kept row has an age within the range |
| CohortFilter.HoldsAllConcat | tcia-cohort-builder.py:216-235 | meeting two lists of criteria is meeting their concatenation |
| CohortFilter.SatisfyingNothing | tcia-cohort-builder.py:214 | no criteria keep every row |
| CohortFilter.Satisfying | tcia-cohort-builder.py:219-235 | boolean-mask selection; `SatisfyingMembers`, `SatisfyingCounts` and `SatisfyingOrder` state that it keeps exactly the rows meeting the criteria, with their multiplicity, in order |
| CohortFilter.Holds | tcia-cohort-builder.py:219-235 | one criterion: `CategoriesMeet` states the categorical one, `ZeroMinimumKeepsMissingAge` and `RaisedMinimumNeedsAge` the two age branches |
| CohortFilter.RangeApplies | tcia-cohort-builder.py:222 | when the age range is used; `FilterNothing` shows that the default range imposes nothing and `FilteredRows` that an applied range keeps only rows within it |
| Manifest.Missing | tcia-cohort-builder.py:258 | the missing required columns, exactly, in required order, without repeats |
| Manifest.RequiredColumnsDistinct | tcia-cohort-builder.py:257 | the required columns are distinct and start with "Case ID" |
| Manifest.Project | tcia-cohort-builder.py:270 | a projected row keeps exactly the selected columns it has, with their values |
| Manifest.SelectAssets | tcia-cohort-builder.py:268-270 | every selected asset row has a selected case |
| Manifest.Matches | tcia-cohort-builder.py:273-277 | the rows of one case, taken from the input, at most as many as the input |
| Manifest.MatchesExact | tcia-cohort-builder.py:273-277 | the rows of one case are a subsequence of the input, and every row with that case appears exactly as often as in the input, no other row at all |
| Manifest.PathologyCases | tcia-cohort-builder.py:263-265 | the selected case IDs; `PathologyCasesExact` states which they are |
| Manifest.HasPathology | tcia-cohort-builder.py:264 | `str.contains('Pathology', na=False)`: a missing or non-text cell never mentions pathology; `PathologyCasesExact` states the selection it decides |
| Manifest.PathologyCasesExact | tcia-cohort-builder.py:263-265 | a case is selected iff some clinical row of it has "Pathology" in its "Available Images" string |
| Manifest.JoinRow | tcia-cohort-builder.py:273-277 | one merged row; `JoinRowContents` states its columns and values |
| Manifest.JoinRowContents | tcia-cohort-builder.py:273-277 | a merged row has the columns of both rows, the clinical values, and the asset values where the clinical row has no such column |
| Manifest.LeftJoin | tcia-cohort-builder.py:273-277 | the left merge on "Case ID"; `ManifestIsBlocks`, `BlockContents`, `LeftJoinKeepsCount` and `LeftJoinKeepsClinicalRows` state its rows |
| Manifest.ProjectAll | tcia-cohort-builder.py:270 | projection row by row |
| Manifest.MatchesOfSelected | tcia-cohort-builder.py:268-277 | the selected assets of one case are that case's projected assets if it is selected, else none |
| Manifest.Padded | tcia-cohort-builder.py:273-277 | an unmatched clinical row gains every asset column, empty |
| Manifest.JoinEach | tcia-cohort-builder.py:273-277 | one merged row per matching asset row |
| Manifest.Expand | tcia-cohort-builder.py:273-277 | a clinical row gives one row per match, or one row when it has none |
| Manifest.GenerateManifest | tcia-cohort-builder.py:239-279 | the schema errors in order ("Case ID" in the clinical table, then in the pathology table, then every missing required column in order), a KeyError without "Available Images", otherwise a table whose columns are the clinical ones followed by the missing required ones |
| Manifest.ManifestIsBlocks | tcia-cohort-builder.py:263-277 | the manifest is the clinical rows' blocks in order |
| Manifest.BlockContents | tcia-cohort-builder.py:263-277 | a clinical row whose case has pathology images and asset rows gives one merged row per projected asset row; any other row appears once, padded |
| Manifest.LeftJoinKeepsCount | tcia-cohort-builder.py:273-277 | the merge never has fewer rows than the clinical table |
| Manifest.LeftJoinUniqueKeys | tcia-cohort-builder.py:273-277 | with at most one asset row per case, the merge has exactly one row per clinical row |
| Manifest.UniqueMatches | tcia-cohort-builder.py:273-277 | with unique case IDs, a case has at most one match |
| Manifest.NoMatches | tcia-cohort-builder.py:273-277 | a case absent from the asset rows has no match |
| Manifest.RestrictAll | tcia-cohort-builder.py:273-277 | the clinical part of each merged row |
| Manifest.ExpandCarriesRow | tcia-cohort-builder.py:273-277 | every row a clinical row gives carries it unchanged |
| Manifest.LeftJoinKeepsClinicalRows | tcia-cohort-builder.py:273-277 | the clinical rows appear in the merge in order, each at least once, and nothing else does |
| Manifest.RestrictAllConcat | tcia-cohort-builder.py:273-277 | taking the clinical part distributes over concatenation |
| Manifest.SubsequenceAfterPrefix | tcia-cohort-builder.py:273-277 | a subsequence of `b` remains one of `p + b` |
| Manifest.ManifestWellFormed | tcia-cohort-builder.py:239-279 | the manifest is a well-formed table |
| Manifest.SelectedShapeRows | tcia-cohort-builder.py:268-270 | the selected asset rows have exactly the required columns |
| Manifest.SelectedShape | tcia-cohort-builder.py:268-270 | the same for the pathology table's rows |
| Manifest.LeftJoinShape | tcia-cohort-builder.py:273-277 | every merged or padded row has the clinical columns and the required ones |
| Manifest.ManifestKeepsClinicalRows | tcia-cohort-builder.py:263-277 | every clinical row is in the manifest, in order, and every manifest row carries one |
| Manifest.MissingNone | tcia-cohort-builder.py:258-260 | when all required columns are present nothing is missing |
| Manifest.ExampleImages | tcia-cohort-builder.py:264 | "Radiology; Pathology" mentions pathology and "Radiology" does not |
| Manifest.LeftJoinKeepsCaseWithoutPathology | tcia-cohort-builder.py:263-277 | of two cases, the first with pathology images and one image row and the second without, the manifest is the first merged with its projected image row, then the second once, padded |
| Manifest.PairManifestRows | tcia-cohort-builder.py:263-277 | the same for the rows alone: the second case's row is kept although its case is not selected |
| Pagination.MaxPage | tcia-cohort-builder.py:454 | 0 for no rows; otherwise the last page holding a row: `m*size < n <= m*size + size` |
| Pagination.PageSlice | tcia-cohort-builder.py:395-399 | the clamped slice `[page*size, page*size+size)`: empty past the end, of the right length, element by element |
| Pagination.PagesArePrefix | tcia-cohort-builder.py:395-399 | the first `k` pages together are the first `k*size` rows |
| Pagination.PagesCoverRows | tcia-cohort-builder.py:395-399 | pages 0 to `max_page` together are exactly the filtered rows |
| Pagination.PagesUpToMaxAreNotEmpty | tcia-cohort-builder.py:454 | every page up to `max_page` shows a row, when there are rows |
| Pagination.PagesPastMaxAreEmpty | tcia-cohort-builder.py:492-493 | a page past `max_page` shows nothing |
| Pagination.RowOnItsPage | tcia-cohort-builder.py:395-399 | row `i` is at position `i % size` of page `i // size`, which is at most `max_page` |
| Pagination.ButtonsKeepPageInRange | tcia-cohort-builder.py:468-489 | "‹" and "›" keep a page within 0 and `max_page` |
| Pagination.PreviousPage | tcia-cohort-builder.py:468-469 | "‹" lowers the page by at most one, never below 0 from a page at or above 0, and not at all when not pressed |
| Pagination.NextPage | tcia-cohort-builder.py:488-489 | "›" raises the page by at most one, never past `max_page` from a page at or below it, and not at all when not pressed |
| Pagination.PressesKeepPageInRange | tcia-cohort-builder.py:468-492 | any sequence of reruns with one page count keeps the page within 0 and `max_page` |
| Pagination.PressesKeepPageNatural | tcia-cohort-builder.py:468-492 | any sequence of reruns keeps the page at or above 0 |
| Pagination.PageState.constructor | tcia-cohort-builder.py:457-458 | the first visit starts on page 0 |
| Pagination.PageState.Rerun | tcia-cohort-builder.py:468-489 | "‹" then "›" as the code applies them; a page in range stays in range |
| Loader.FirstPresent | pathology-downloader.py:29-32 | the first alias that is a column, or none iff no alias is one |
| Loader.CanonicalRows | pathology-downloader.py:41-46 | each row becomes its two matched cells under the canonical names |
| Loader.LoadManifest | pathology-downloader.py:11-46 | an error without a URL alias, then one without a patient-ID alias; otherwise exactly the columns "imageUrl" and "Case ID", in that order, the same number of rows, and each row's cells from the first matching aliases |
| Loader.DuplicateAliasHarmless | pathology-downloader.py:26-32 | the repeated "Case ID" alias never changes the choice |
| Loader.ResolvesAliases | pathology-downloader.py:11-46 | "image_url" and "Patient ID" load under the canonical names |
| Loader.RefusesSheetWithoutUrl | pathology-downloader.py:34-35 | a sheet with no URL alias is refused |
| Downloader.SubPath | pathology-downloader.py:70 | the text after the first "/ross/": the URL is what precedes it, the marker, and the sub-path; the whole URL when there is no marker |
| Downloader.JoinPath | pathology-downloader.py:71 | `os.path.join` on POSIX: the result ends with the second part; an absolute second part is the whole result; otherwise the result starts with the directory, adds at most one character between the parts, and a "/" precedes the second part whenever the directory is not empty |
| Downloader.FilePath | pathology-downloader.py:70-71 | the destination ends with the text after "/ross/"; when that text is absolute it is the whole destination, as `os.path.join` gives; otherwise the destination starts with the download directory and, when the directory is not empty, has a "/" just before that text |
| Downloader.FailureIsNotDownload | pathology-downloader.py:86-89 | a failure message never starts with "Downloaded: " |
| Downloader.DownloadedIffSaved | pathology-downloader.py:70-89 | a row's message starts with "Downloaded: " iff it has a URL and was saved, and then names its file; otherwise it is "Failed to download <id>: <reason>" |
| Downloader.RowMessage | pathology-downloader.py:86-89 | one row's message; `DownloadedIffSaved` states when it is "Downloaded: <file_path>" and when "Failed to download <Case ID>: <reason>" |
| Downloader.Events | pathology-downloader.py:63-89 | one progress event per row, in order, numbered from 1, with the row count as total and the row's message |
| Downloader.EventsStep | pathology-downloader.py:65-89 | one more row adds its event at the end |
| Downloader.FirstCrash | pathology-downloader.py:65-70 | the first row that raises outside the `try`, or none iff no row does |
| Downloader.Crashes | pathology-downloader.py:66-70 | a row raises before the `try` iff a canonical column is missing (KeyError) or its URL cell is empty (AttributeError from `split`); `FirstCrash` finds the first such row and `AsWrittenAgreesWithUrls` states that the run never completes after it |
| Downloader.FirstCrashAt | pathology-downloader.py:65-70 | a crashing row after only non-crashing rows is the first crash |
| Downloader.AsWrittenAgreesWithUrls | pathology-downloader.py:62-91 | with every URL present the loop as written emits the corrected signals; with a crashing row it never completes |
| Downloader.SignalsAsWritten | pathology-downloader.py:62-91 | the signals of the loop as written; `AsWrittenAgreesWithUrls` and `EmptyUrlEndsRun` state them |
| Downloader.EmptyUrlEndsRun | pathology-downloader.py:66-91 | an empty URL cell: no signal at all as written; a failure message and completion when corrected |
| Downloader.Report | pathology-downloader.py:70-89 | one row of the corrected loop: its message is `RowMessage`, so an empty URL cell gives "Failed to download <Case ID>: <reason>" |
| Downloader.Attempt | pathology-downloader.py:70-89 | the destination and message of a row with a URL |
| Downloader.FailureDoesNotStopBatch | pathology-downloader.py:63-91 | a failed first row and a saved second row give one failure message, one download message and completion with `True` |
| Downloader.DownloadThread.constructor | pathology-downloader.py:53-60 | the thread keeps its table and directory and has emitted nothing |
| Downloader.DownloadThread.Run | pathology-downloader.py:62-91 | the corrected loop emits `Events` of the rows and then `Complete(true)` |
| Downloader.DownloadThread.RunAsWritten | pathology-downloader.py:62-91 | the loop as written emits `SignalsAsWritten` |
| Downloader.NewDownloadThread | pathology-downloader.py:53-60 | a path is loaded with `load_manifest`, whose error ends construction; a table is used as it is |
| Downloader.LoadedRowsHaveColumns | pathology-downloader.py:41-67 | every row of a loaded manifest has both canonical columns |
| Downloader.RunReportsEveryRow | pathology-downloader.py:63-91 | n progress signals numbered 1 to n with total n, then exactly one completion, last, with `True` |
| Downloader.AbsoluteSubPathEscapes | pathology-downloader.py:70-71 | https://host/ross//etc/x under /out is saved to /etc/x, outside the download directory |
| Downloader.ExamplePath | pathology-downloader.py:70-71 | https://host/ross/sub/dir/file.svs under /out is saved to /out/sub/dir/file.svs |

## Left out

- I/O: the remote `pd.read_excel` loads, `st.cache_data`, the CSV and Excel downloads, `requests.get`, `os.makedirs` and the chunked file writes. The spreadsheet and each download's outcome are parameters.
- The Streamlit and PyQt interfaces: widgets, HTML rendering, link markup, charts and the progress bar's percentage. The `QThread` signals are a list of emitted values; concurrency is not modelled.
- The radiology archive client (`nbia`) is foreign code and is not part of this model. The same goes for `debug_dataframe_info`, a debugging aid.
- AgeBaseline.CalculateAgeAtBaseline: does not model `round(1)` (line 175) or IEEE floating point. Ages are reals, and `pd.to_numeric` is the `parse` parameter.
- AgeBaseline.BaselineIsLeastAge: assumes the unit column and "Age at Baseline" are not raw age columns. When the unit column is a raw age column, `CalculateAgeAtBaseline` fails with `UnitsNotText` (line 158); the other cases are stated by `BaselineRow` as the code computes them.
- AgeBaseline.CalculateAgeAtBaseline: the model has no column dtypes. It takes a column with no text cell in a non-empty table to be numeric, so `.str` refuses it, and a column with at least one text cell to be an object column, which `.str` accepts. An empty table's column is taken as accepted unless it is a raw age column.
- `load_data`'s `astype(str)` is not modelled as an operation. Its effect is that a missing text cell is the string "nan"; in the model such a cell is `Text("nan")`, and `Clinical.Cell` also has `NA` for cells that were never converted.
- `Text.Lower` and `Text.Strip` handle ASCII letters and the six common ASCII white-space characters only (Python's `str.strip` also removes `\x1c`-`\x1f`, which never changes the unit factor, by `Text.StripKeepsWords`). Unicode case mapping and Unicode white space are not modelled.
- UniqueValues.UniqueSortedValues: a column with a non-text cell gives `[]`, as when sorting raises a TypeError. Columns of only numbers, which Python would sort, are not modelled separately.
- Manifest.GenerateManifest: pandas' `_x`/`_y` suffixes for non-key columns present in both tables are not modelled. On such a column the merged row keeps the clinical value. A "Case ID" column of strings merged with a numeric "Case ID" column raises a ValueError in pandas, even when the selected asset table is empty; the model has no column dtypes, so it joins the two and matches nothing.
- Manifest.HasPathology: when no cell of "Available Images" is a string, pandas' `.str` accessor raises an AttributeError. The model treats those cells as not mentioning pathology.
- Tables with duplicate column names are not modelled (`Frames.WellFormed`).
- Collisions between a real column and the helper columns `UOM_factor` and `<column>_years` are not modelled.
- Pagination.PageState.Rerun: a page number left past `max_page` after filtering is not clamped by the code, and the model keeps it as well. `PagesPastMaxAreEmpty` states what that page shows.
- Downloader: a URL cell is its text. A numeric URL cell, which would also fail at `split`, is not modelled separately from an empty one.
- Downloader.DownloadThread.Run: requires both canonical columns in every row. Without them the code raises a KeyError, which `RunAsWritten` models.

## Findings

| source | as written | input that shows it | evidently intended | confidence | as-written member | corrected member |
|---|---|---|---|---|---|---|
| pathology-downloader.py:66-71 | the URL is split before the per-row `try`, so an exception there escapes `run()` | a manifest row whose URL cell is empty (NaN): `url.split` raises AttributeError, no progress is reported for it, later rows are never attempted and `complete_signal` is never emitted | each row's failure is reported as "Failed to download <id>: <reason>" and the batch completes with `True` | high, not executed | Downloader.DownloadThread.RunAsWritten, Downloader.EmptyUrlEndsRun | Downloader.DownloadThread.Run, Downloader.RunReportsEveryRow |
