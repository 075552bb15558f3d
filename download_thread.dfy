/** `PathologyDownloadThread` (pathology-downloader.py): the fetch loop of
    the downloader.  Every row of the manifest is one download: its
    destination is the download directory joined with the URL text after
    "/ross/", and after the attempt the thread reports the row's index, the
    number of rows and a message; once every row has been attempted it
    reports completion with `True`.  The download itself (directories, HTTP
    request, file writes) is the per-row outcome given as input. */
module Downloader {
  import opened Wrappers
  import opened Frames
  import opened Text
  import opened Loader

  /** What the `try` block of lines 73-87 ends with for one row. */
  datatype FetchResult =
    | Saved                   // directories made, response written to the file
    | Failed(reason: string)  // `str(e)` of the exception it raised

  /** The thread's two signals (lines 49-50). */
  datatype Signal =
    | Progress(current: nat, total: nat, message: string)
    | Complete(success: bool)

  const Marker: string := "/ross/"

  /** Line 70: `url.split('/ross/', 1)[-1]`, the text after the first
      "/ross/", or the whole URL when it has none. */
  function SubPath(url: string): (r: string)
    ensures !Contains(url, Marker) ==> r == url
    ensures Contains(url, Marker) ==>
              var i := IndexOf(url, Marker).value;
              url == url[..i] + Marker + r && forall j :: 0 <= j < i ==> !OccursAt(url, Marker, j)
  {
    match IndexOf(url, Marker)
    case None => url
    case Some(i) =>
      assert url[i..i + |Marker|] == Marker;
      assert url == url[..i] + url[i..i + |Marker|] + url[i + |Marker|..];
      url[i + |Marker|..]
  }

  predicate StartsWith(s: string, prefix: string)
  {
    |prefix| <= |s| && s[..|prefix|] == prefix
  }

  predicate EndsWith(s: string, suffix: string)
  {
    |suffix| <= |s| && s[|s| - |suffix|..] == suffix
  }

  /** A path that `os.path.join` does not prefix with the directory. */
  predicate IsAbsolute(path: string)
  {
    |path| > 0 && path[0] == '/'
  }

  /** Line 71: `os.path.join(download_dir, sub_path)` on POSIX: an absolute
      second part replaces the first; otherwise one "/" separates them unless
      the directory is empty or already ends with one. */
  function JoinPath(dir: string, sub: string): (r: string)
    ensures EndsWith(r, sub)
    ensures IsAbsolute(sub) ==> r == sub
    ensures !IsAbsolute(sub) ==> StartsWith(r, dir) && |r| - |dir| - |sub| <= 1
    ensures !IsAbsolute(sub) && dir != [] ==> |sub| < |r| && r[|r| - |sub| - 1] == '/'
    ensures dir == [] ==> r == sub
  {
    if IsAbsolute(sub) then sub
    else if dir == [] || dir[|dir| - 1] == '/' then dir + sub
    else dir + "/" + sub
  }

  /** The destination of a URL: the download directory, a separator, and the
      text after "/ross/"; an absolute text after "/ross/" replaces the
      directory, as `os.path.join` does. */
  function FilePath(dir: string, url: string): (r: string)
    ensures EndsWith(r, SubPath(url))
    ensures IsAbsolute(SubPath(url)) ==> r == SubPath(url)
    ensures !IsAbsolute(SubPath(url)) ==> StartsWith(r, dir)
    ensures !IsAbsolute(SubPath(url)) && dir != [] ==>
              |SubPath(url)| < |r| && r[|r| - |SubPath(url)| - 1] == '/'
  {
    JoinPath(dir, SubPath(url))
  }

  /** The text an f-string gives a cell: an empty cell is "nan". */
  function CellText(c: Option<string>): string
  {
    match c
    case Some(s) => s
    case None => "nan"
  }

  /** `str(e)` of the AttributeError `url.split` raises on an empty (NaN,
      float) URL cell. */
  const SplitError: string := "'float' object has no attribute 'split'"


  function Downloaded(path: string): string
  {
    "Downloaded: " + path
  }

  function FailedToDownload(patientId: Option<string>, reason: string): string
  {
    "Failed to download " + CellText(patientId) + ": " + reason
  }

  lemma FailureIsNotDownload(patientId: Option<string>, reason: string)
    ensures !StartsWith(FailedToDownload(patientId, reason), "Downloaded: ")
  {
    var m := FailedToDownload(patientId, reason);
    assert m[1] == 'a';
  }

  /** A row with both canonical columns. */
  predicate HasColumns(row: SheetRow)
  {
    UrlColumn in row && CaseIdColumn in row
  }

  /** The message of one row (lines 86 and 89), with the URL split moved
      inside the `try`: an empty URL cell is a failure of its row like any
      other. */
  function RowMessage(row: SheetRow, dir: string, outcome: FetchResult): string
    requires HasColumns(row)
  {
    match row[UrlColumn]
    case None => FailedToDownload(row[CaseIdColumn], SplitError)
    case Some(url) =>
      match outcome
      case Saved => Downloaded(FilePath(dir, url))
      case Failed(reason) => FailedToDownload(row[CaseIdColumn], reason)
  }

  /** A row reports "Downloaded: " exactly when it has a URL and its file was
      saved, and then names the file; every other row reports its patient
      and the reason: the exception's text, or the failed split of an empty
      URL cell. */
  lemma DownloadedIffSaved(row: SheetRow, dir: string, outcome: FetchResult)
    requires HasColumns(row)
    ensures StartsWith(RowMessage(row, dir, outcome), "Downloaded: ") <==> row[UrlColumn].Some? && outcome.Saved?
    ensures row[UrlColumn].Some? && outcome.Saved? ==>
              RowMessage(row, dir, outcome) == Downloaded(FilePath(dir, row[UrlColumn].value))
    ensures !(row[UrlColumn].Some? && outcome.Saved?) ==>
              RowMessage(row, dir, outcome) ==
              FailedToDownload(row[CaseIdColumn], if row[UrlColumn].None? then SplitError else outcome.reason)
  {
    match row[UrlColumn]
    case None =>
      FailureIsNotDownload(row[CaseIdColumn], SplitError);
    case Some(url) =>
      match outcome
      case Saved =>
        var m := Downloaded(FilePath(dir, url));
        assert m[..12] == "Downloaded: ";
      case Failed(reason) =>
        FailureIsNotDownload(row[CaseIdColumn], reason);
  }

  /** The progress signals of the rows, in row order: row `i` reports index
      `i + 1` and the total, whatever happened to the rows before it. */
  function Events(rows: seq<SheetRow>, dir: string, outcomes: seq<FetchResult>, total: nat): (r: seq<Signal>)
    requires |outcomes| == |rows|
    requires forall k :: 0 <= k < |rows| ==> HasColumns(rows[k])
    ensures |r| == |rows|
    ensures forall i :: 0 <= i < |rows| ==>
              r[i] == Progress(i + 1, total, RowMessage(rows[i], dir, outcomes[i]))
  {
    if rows == [] then []
    else
      var n := |rows| - 1;
      Events(rows[..n], dir, outcomes[..n], total) + [Progress(n + 1, total, RowMessage(rows[n], dir, outcomes[n]))]
  }

  lemma EventsStep(rows: seq<SheetRow>, dir: string, outcomes: seq<FetchResult>, total: nat, i: nat)
    requires |outcomes| == |rows| && i < |rows|
    requires forall k :: 0 <= k <= i ==> HasColumns(rows[k])
    ensures Events(rows[..i + 1], dir, outcomes[..i + 1], total) ==
            Events(rows[..i], dir, outcomes[..i], total) + [Progress(i + 1, total, RowMessage(rows[i], dir, outcomes[i]))]
  {
    assert rows[..i + 1][..i] == rows[..i] && outcomes[..i + 1][..i] == outcomes[..i];
  }

  /** A row that raises outside the `try` (lines 66-70) and so ends `run()`:
      a missing column (KeyError) or an empty URL cell (AttributeError from
      `split`). */
  predicate Crashes(row: SheetRow)
  {
    !HasColumns(row) || row[UrlColumn].None?
  }

  /** The first row at or after `from` that crashes the loop as written. */
  function FirstCrash(rows: seq<SheetRow>, from: nat): (r: Option<nat>)
    requires from <= |rows|
    ensures r.None? <==> forall k :: from <= k < |rows| ==> !Crashes(rows[k])
    ensures r.Some? ==> from <= r.value < |rows| && Crashes(rows[r.value]) &&
                        forall k :: from <= k < r.value ==> !Crashes(rows[k])
    decreases |rows| - from
  {
    if from == |rows| then None
    else if Crashes(rows[from]) then Some(from)
    else FirstCrash(rows, from + 1)
  }

  lemma FirstCrashAt(rows: seq<SheetRow>, i: nat)
    requires i < |rows| && Crashes(rows[i])
    requires forall k :: 0 <= k < i ==> !Crashes(rows[k])
    ensures FirstCrash(rows, 0) == Some(i)
  {
  }

  /** The signals `run()` emits as written: the progress of every row before
      the first crashing one, and the completion signal only when no row
      crashes. */
  function SignalsAsWritten(rows: seq<SheetRow>, dir: string, outcomes: seq<FetchResult>, total: nat): seq<Signal>
    requires |outcomes| == |rows|
  {
    match FirstCrash(rows, 0)
    case None => Events(rows, dir, outcomes, total) + [Complete(true)]
    case Some(c) => Events(rows[..c], dir, outcomes[..c], total)
  }

  /** Where every row has both columns and a URL, the loop as written and the
      corrected one emit the same signals; otherwise the loop as written emits
      no completion signal. */
  lemma AsWrittenAgreesWithUrls(rows: seq<SheetRow>, dir: string, outcomes: seq<FetchResult>, total: nat)
    requires |outcomes| == |rows|
    ensures (forall k :: 0 <= k < |rows| ==> HasColumns(rows[k]) && rows[k][UrlColumn].Some?) ==>
              SignalsAsWritten(rows, dir, outcomes, total) == Events(rows, dir, outcomes, total) + [Complete(true)]
    ensures (exists k :: 0 <= k < |rows| && Crashes(rows[k])) ==>
              forall j :: 0 <= j < |SignalsAsWritten(rows, dir, outcomes, total)| ==>
                SignalsAsWritten(rows, dir, outcomes, total)[j].Progress?
  {
  }

  /** A manifest of one row whose URL cell is empty: as written, `run()` ends
      at line 70 with no progress and no completion signal; corrected, the row
      is reported as failed and the batch completes. */
  lemma EmptyUrlEndsRun(dir: string, outcome: FetchResult)
    ensures var rows := [map[UrlColumn := None, CaseIdColumn := Some("A")]];
            && SignalsAsWritten(rows, dir, [outcome], 1) == []
            && Events(rows, dir, [outcome], 1) + [Complete(true)] ==
               [Progress(1, 1, "Failed to download A: " + SplitError), Complete(true)]
  {
    var row := map[UrlColumn := None, CaseIdColumn := Some("A")];
    assert UrlColumn != CaseIdColumn;
    assert HasColumns(row) && row[UrlColumn].None? && row[CaseIdColumn] == Some("A");
    assert RowMessage(row, dir, outcome) == "Failed to download A: " + SplitError;
  }

  /** Lines 70-89 for a row with a URL: the destination, then the message
      the outcome of the download gives. */
  method Attempt(row: SheetRow, dir: string, outcome: FetchResult) returns (message: string)
    requires HasColumns(row) && row[UrlColumn].Some?
    ensures message == RowMessage(row, dir, outcome)
  {
    var url := row[UrlColumn].value;
    var filePath := JoinPath(dir, SubPath(url));
    match outcome {
      case Saved =>
        message := Downloaded(filePath);
      case Failed(reason) =>
        message := FailedToDownload(row[CaseIdColumn], reason);
    }
  }

  /** Lines 70-89 with the split inside the `try`: a row without a URL
      fails like any other. */
  method Report(row: SheetRow, dir: string, outcome: FetchResult) returns (message: string)
    requires HasColumns(row)
    ensures message == RowMessage(row, dir, outcome)
  {
    if row[UrlColumn].None? {
      message := FailedToDownload(row[CaseIdColumn], SplitError);
    } else {
      message := Attempt(row, dir, outcome);
    }
  }

  /** One more row appends its progress signal to those already emitted. */
  lemma SignalsStep(before: seq<Signal>, rows: seq<SheetRow>, dir: string, outcomes: seq<FetchResult>,
                    total: nat, i: nat)
    requires |outcomes| == |rows| && i < |rows|
    requires forall k :: 0 <= k <= i ==> HasColumns(rows[k])
    ensures before + Events(rows[..i + 1], dir, outcomes[..i + 1], total) ==
            (before + Events(rows[..i], dir, outcomes[..i], total)) +
            [Progress(i + 1, total, RowMessage(rows[i], dir, outcomes[i]))]
  {
    EventsStep(rows, dir, outcomes, total, i);
  }

  /** The loop as written stops at its first crashing row. */
  lemma AsWrittenStopsAt(rows: seq<SheetRow>, dir: string, outcomes: seq<FetchResult>, total: nat, i: nat)
    requires |outcomes| == |rows| && i < |rows| && Crashes(rows[i])
    requires forall k :: 0 <= k < i ==> !Crashes(rows[k])
    ensures forall k :: 0 <= k < i ==> HasColumns(rows[..i][k])
    ensures SignalsAsWritten(rows, dir, outcomes, total) == Events(rows[..i], dir, outcomes[..i], total)
  {
    FirstCrashAt(rows, i);
  }

  /** Without a crashing row the loop as written completes. */
  lemma AsWrittenCompletes(rows: seq<SheetRow>, dir: string, outcomes: seq<FetchResult>, total: nat)
    requires |outcomes| == |rows|
    requires forall k :: 0 <= k < |rows| ==> !Crashes(rows[k])
    ensures forall k :: 0 <= k < |rows| ==> HasColumns(rows[k])
    ensures SignalsAsWritten(rows, dir, outcomes, total) == Events(rows, dir, outcomes, total) + [Complete(true)]
  {
  }

  /** Two rows, the first of whose downloads fails with an HTTP 404 and the
      second of which is saved: one failure message, one download message,
      and completion with `True`. */
  lemma FailureDoesNotStopBatch(url1: string, url2: string, dir: string, reason: string)
    ensures var rows := [map[UrlColumn := Some(url1), CaseIdColumn := Some("P1")],
                         map[UrlColumn := Some(url2), CaseIdColumn := Some("P2")]];
            var outcomes := [Failed(reason), Saved];
            && |rows| == |outcomes|
            && (forall k :: 0 <= k < |rows| ==> HasColumns(rows[k]))
            && Events(rows, dir, outcomes, 2) + [Complete(true)] ==
               [Progress(1, 2, "Failed to download P1: " + reason),
                Progress(2, 2, Downloaded(FilePath(dir, url2))),
                Complete(true)]
  {
    var rows := [map[UrlColumn := Some(url1), CaseIdColumn := Some("P1")],
                 map[UrlColumn := Some(url2), CaseIdColumn := Some("P2")]];
    assert UrlColumn != CaseIdColumn;
    assert HasColumns(rows[0]) && HasColumns(rows[1]);
    assert RowMessage(rows[0], dir, Failed(reason)) == "Failed to download P1: " + reason;
  }

  /** The thread: its manifest, its download directory and the signals it
      has emitted so far. */
  class DownloadThread {
    const data: Sheet
    const downloadDir: string
    var signals: seq<Signal>

    /** Lines 53-60 once `data` is a table. */
    constructor(data: Sheet, downloadDir: string)
      ensures this.data == data && this.downloadDir == downloadDir && signals == []
    {
      this.data := data;
      this.downloadDir := downloadDir;
      signals := [];
    }

    /** `run()` with the URL split inside the `try`: one progress signal per
        row, in row order, then `complete_signal(True)`. */
    method Run(outcomes: seq<FetchResult>)
      requires |outcomes| == |data.rows|
      requires forall k :: 0 <= k < |data.rows| ==> HasColumns(data.rows[k])
      modifies this
      ensures signals == old(signals) + Events(data.rows, downloadDir, outcomes, |data.rows|) + [Complete(true)]
    {
      var total := |data.rows|;
      for i := 0 to total
        invariant signals == old(signals) + Events(data.rows[..i], downloadDir, outcomes[..i], total)
      {
        var message := Report(data.rows[i], downloadDir, outcomes[i]);
        SignalsStep(old(signals), data.rows, downloadDir, outcomes, total, i);
        signals := signals + [Progress(i + 1, total, message)];
      }
      assert data.rows[..total] == data.rows && outcomes[..total] == outcomes;
      signals := signals + [Complete(true)];
    }

    /** `run()` as written (lines 62-91). */
    method RunAsWritten(outcomes: seq<FetchResult>)
      requires |outcomes| == |data.rows|
      modifies this
      ensures signals == old(signals) + SignalsAsWritten(data.rows, downloadDir, outcomes, |data.rows|)
    {
      var total := |data.rows|;
      for i := 0 to total
        invariant forall k :: 0 <= k < i ==> !Crashes(data.rows[k])
        invariant signals == old(signals) + Events(data.rows[..i], downloadDir, outcomes[..i], total)
      {
        var row := data.rows[i];
        if UrlColumn !in row || CaseIdColumn !in row || row[UrlColumn].None? {
          AsWrittenStopsAt(data.rows, downloadDir, outcomes, total, i);
          return;
        }
        var message := Attempt(row, downloadDir, outcomes[i]);
        SignalsStep(old(signals), data.rows, downloadDir, outcomes, total, i);
        signals := signals + [Progress(i + 1, total, message)];
      }
      assert data.rows[..total] == data.rows && outcomes[..total] == outcomes;
      AsWrittenCompletes(data.rows, downloadDir, outcomes, total);
      signals := signals + [Complete(true)];
    }
  }

  /** Lines 55-57: what the thread is built from, a path to a spreadsheet
      (given here by the spreadsheet read from it) or a table. */
  datatype ThreadInput = ExcelPath(contents: Sheet) | Table(frame: Sheet)

  /** The constructor of lines 53-60: a path is loaded with `load_manifest`,
      whose errors end the construction; a table is used as it is. */
  method NewDownloadThread(input: ThreadInput, downloadDir: string) returns (r: Result<DownloadThread, LoadError>)
    requires input.ExcelPath? ==> WellFormed(input.contents)
    ensures input.ExcelPath? && LoadManifest(input.contents).Err? ==> r == Err(LoadManifest(input.contents).error)
    ensures input.ExcelPath? && LoadManifest(input.contents).Ok? ==>
              r.Ok? && r.value.data == LoadManifest(input.contents).value
    ensures input.Table? ==> r.Ok? && r.value.data == input.frame
    ensures r.Ok? ==> fresh(r.value) && r.value.downloadDir == downloadDir && r.value.signals == []
  {
    var data: Sheet;
    match input {
      case ExcelPath(contents) =>
        var loaded := LoadManifest(contents);
        if loaded.Err? {
          return Err(loaded.error);
        }
        data := loaded.value;
      case Table(frame) =>
        data := frame;
    }
    var thread := new DownloadThread(data, downloadDir);
    return Ok(thread);
  }

  /** A loaded manifest has what the corrected loop needs of every row. */
  lemma LoadedRowsHaveColumns(sheet: Sheet)
    requires WellFormed(sheet) && LoadManifest(sheet).Ok?
    ensures forall k :: 0 <= k < |LoadManifest(sheet).value.rows| ==> HasColumns(LoadManifest(sheet).value.rows[k])
  {
    var out := LoadManifest(sheet).value;
    forall k | 0 <= k < |out.rows| ensures HasColumns(out.rows[k]) {
      assert out.rows[k].Keys == set c | c in out.columns;
      assert UrlColumn in out.columns && CaseIdColumn in out.columns;
    }
  }

  /** The corrected loop reports each row once, in order, numbered 1 to n
      with total n; no failure stops a later row; completion comes once, last,
      with `True`. */
  lemma RunReportsEveryRow(rows: seq<SheetRow>, dir: string, outcomes: seq<FetchResult>)
    requires |outcomes| == |rows|
    requires forall k :: 0 <= k < |rows| ==> HasColumns(rows[k])
    ensures var s := Events(rows, dir, outcomes, |rows|) + [Complete(true)];
            && |s| == |rows| + 1
            && (forall i :: 0 <= i < |rows| ==> s[i].Progress? && s[i].current == i + 1 && s[i].total == |rows|)
            && (forall i :: 0 <= i < |s| ==> (s[i].Complete? <==> i == |rows|))
            && s[|rows|] == Complete(true)
  {
    var e := Events(rows, dir, outcomes, |rows|);
    assert forall i :: 0 <= i < |rows| ==> (e + [Complete(true)])[i] == e[i];
  }

  /** The URL https://host/ross/sub/dir/file.svs with the directory /out is
      saved to /out/sub/dir/file.svs. */
  lemma ExamplePath()
    ensures FilePath("/out", "https://host/ross/sub/dir/file.svs") == "/out/sub/dir/file.svs"
  {
    var url := "https://host/ross/sub/dir/file.svs";
    assert url == "https://host" + Marker + "sub/dir/file.svs";
    assert url[12..18] == Marker;
    assert OccursAt(url, Marker, 12);
    forall j | 0 <= j < 12 ensures !OccursAt(url, Marker, j) {
      if j == 6 || j == 7 {
        NotOccursAt(url, Marker, j, 1);
      } else {
        NotOccursAt(url, Marker, j, 0);
      }
    }
    assert IndexOf(url, Marker) == Some(12);
    var sub := "sub/dir/file.svs";
    assert url[18..] == sub;
    assert SubPath(url) == sub;
    JoinExample("/out", sub);
  }

  /** A URL with "/ross//" is saved outside the download directory: the
      text after the marker is absolute and replaces the directory. */
  lemma AbsoluteSubPathEscapes()
    ensures FilePath("/out", "https://host/ross//etc/x") == "/etc/x"
    ensures !StartsWith(FilePath("/out", "https://host/ross//etc/x"), "/out")
  {
    var url := "https://host/ross//etc/x";
    assert url == "https://host" + Marker + "/etc/x";
    assert url[12..18] == Marker;
    assert OccursAt(url, Marker, 12);
    forall j | 0 <= j < 12 ensures !OccursAt(url, Marker, j) {
      if j == 6 || j == 7 {
        NotOccursAt(url, Marker, j, 1);
      } else {
        NotOccursAt(url, Marker, j, 0);
      }
    }
    assert IndexOf(url, Marker) == Some(12);
    assert url[18..] == "/etc/x";
    assert SubPath(url) == "/etc/x";
    assert "/etc/x"[1] != "/out"[1];
  }

  lemma JoinExample(dir: string, sub: string)
    requires dir == "/out" && sub == "sub/dir/file.svs"
    ensures JoinPath(dir, sub) == "/out/sub/dir/file.svs"
  {
    assert sub[0] == 's' && dir[3] == 't';
  }
}
