/** The PDF report tool (clemson_report_automation.py): uploaded reports become
    rows of a session table, a "crop screen" fills in each row's crop type from
    marker strings in the report text, and a summary of three columns is shown.
    Text extraction from the PDF is an input: a file whose text could not be
    read carries `None`. */
module ReportAutomation {
  import opened Text

  /** One uploaded report as the upload step sees it. */
  datatype UploadedFile = UploadedFile(name: string, pdfText: Option<string>)

  /** One row of the session table. */
  datatype ReportRow = ReportRow(filename: string, cropType: string, limeAmount: string, pdfText: string)

  /** One row of the summary table shown to the user. */
  datatype SummaryRow = SummaryRow(filename: string, cropType: string, limeAmount: string)

  /** The crop markers the screen looks for, in the order it tries them. */
  const Markers := ["WarmSeasonGrsMaint(sq ft)", "CoolSeasonGrsMaint(sq ft)", "Centipedegrass(sq ft)"]

  // ---------------------------------------------------------------------------
  // Upload (lines 18-39)

  /** The rows the upload loop appends: one per readable file, in upload
      order, with crop type and lime amount empty. */
  function UploadedRows(files: seq<UploadedFile>): (rows: seq<ReportRow>)
    ensures |rows| <= |files|
    ensures forall k :: 0 <= k < |rows| ==> rows[k].cropType == "" && rows[k].limeAmount == ""
  {
    if |files| == 0 then []
    else
      (match files[0].pdfText
       case None => []
       case Some(text) => [ReportRow(files[0].name, "", "", text)])
      + UploadedRows(files[1..])
  }

  lemma {:induction false} UploadedRowsAppend(a: seq<UploadedFile>, b: seq<UploadedFile>)
    ensures UploadedRows(a + b) == UploadedRows(a) + UploadedRows(b)
    decreases |a|
  {
    if |a| == 0 {
      assert a + b == b;
    } else {
      assert (a + b)[1..] == a[1..] + b;
      UploadedRowsAppend(a[1..], b);
    }
  }

  /** Every uploaded row comes from a readable file, whose name and text it
      carries. */
  lemma {:induction false} UploadedRowsFromFiles(files: seq<UploadedFile>)
    ensures forall r :: r in UploadedRows(files) ==> UploadedFile(r.filename, Some(r.pdfText)) in files
    decreases |files|
  {
    if |files| > 0 {
      UploadedRowsFromFiles(files[1..]);
      assert files == [files[0]] + files[1..];
    }
  }

  /** Whether each uploaded file, in upload order, could be read. */
  function Readability(files: seq<UploadedFile>): (r: seq<bool>)
    ensures |r| == |files|
  {
    seq(|files|, k requires 0 <= k < |files| => files[k].pdfText.Some?)
  }

  /** One row per readable file: the number of rows is the number of readable
      files in the upload list. */
  lemma {:induction false} UploadedRowsCount(files: seq<UploadedFile>)
    ensures |UploadedRows(files)| == multiset(Readability(files))[true]
    decreases |files|
  {
    if |files| > 0 {
      UploadedRowsCount(files[1..]);
      assert Readability(files) == [files[0].pdfText.Some?] + Readability(files[1..]);
    }
  }

  /** When every file is readable, row `k` is file `k`. */
  lemma {:induction false} UploadedRowsAllReadable(files: seq<UploadedFile>)
    requires forall k :: 0 <= k < |files| ==> files[k].pdfText.Some?
    ensures |UploadedRows(files)| == |files|
    ensures forall k :: 0 <= k < |files| ==>
              UploadedRows(files)[k] == ReportRow(files[k].name, "", "", files[k].pdfText.value)
    decreases |files|
  {
    if |files| > 0 {
      UploadedRowsAllReadable(files[1..]);
    }
  }

  /** The upload loop: reads each file's text, skips a file whose text cannot
      be read, and appends a fresh row for each other file. */
  method BuildReportRows(files: seq<UploadedFile>) returns (rows: seq<ReportRow>)
    ensures rows == UploadedRows(files)
  {
    rows := [];
    for i := 0 to |files|
      invariant rows == UploadedRows(files[..i])
    {
      assert files[..i + 1] == files[..i] + [files[i]];
      UploadedRowsAppend(files[..i], [files[i]]);
      var file := files[i];
      if file.pdfText.None? {
        continue;
      }
      var row := ReportRow(filename := file.name, cropType := "", limeAmount := "", pdfText := file.pdfText.value);
      rows := rows + [row];
    }
    assert files[..|files|] == files;
  }

  // ---------------------------------------------------------------------------
  // Crop screen (lines 54-59)

  /** A row after the screen: its crop type becomes the first marker found in
      its text; without a marker it keeps its crop type. */
  function ScreenRow(row: ReportRow): (r: ReportRow)
    ensures r.filename == row.filename && r.limeAmount == row.limeAmount && r.pdfText == row.pdfText
    ensures r.cropType == row.cropType || r.cropType in Markers
  {
    match FirstContaining(row.pdfText, Markers)
    case Some(k) => row.(cropType := Markers[k])
    case None => row
  }

  /** The whole table after the screen, row by row. */
  function Screened(rows: seq<ReportRow>): (out: seq<ReportRow>)
    ensures |out| == |rows|
  {
    seq(|rows|, k requires 0 <= k < |rows| => ScreenRow(rows[k]))
  }

  /** The screen sets the crop type to the first marker in the text and keeps
      the row when no marker occurs. */
  lemma ScreenRowSpec(row: ReportRow)
    ensures (forall k :: 0 <= k < |Markers| ==> !Contains(row.pdfText, Markers[k])) ==> ScreenRow(row) == row
    ensures forall k ::
              (0 <= k < |Markers| && Contains(row.pdfText, Markers[k]) &&
               forall j :: 0 <= j < k ==> !Contains(row.pdfText, Markers[j])) ==>
              ScreenRow(row).cropType == Markers[k]
  {
    var r := FirstContaining(row.pdfText, Markers);
    forall k | 0 <= k < |Markers| && Contains(row.pdfText, Markers[k]) &&
               (forall j :: 0 <= j < k ==> !Contains(row.pdfText, Markers[j]))
      ensures ScreenRow(row).cropType == Markers[k]
    {
      assert r.Some?;
      assert r.value == k;
    }
  }

  /** Screening twice gives the same table as screening once. */
  lemma ScreenedIdempotent(rows: seq<ReportRow>)
    ensures Screened(Screened(rows)) == Screened(rows)
  {
    forall k | 0 <= k < |rows| ensures ScreenRow(ScreenRow(rows[k])) == ScreenRow(rows[k]) {
      ScreenRowSpec(rows[k]);
    }
  }

  /** On freshly uploaded rows the screen leaves "" exactly where no marker
      occurs. */
  lemma ScreenFreshRows(files: seq<UploadedFile>)
    ensures forall r :: r in Screened(UploadedRows(files)) ==>
              (r.cropType == "" <==> forall k :: 0 <= k < |Markers| ==> !Contains(r.pdfText, Markers[k]))
  {
    var rows := UploadedRows(files);
    forall r | r in Screened(rows)
      ensures r.cropType == "" <==> forall k :: 0 <= k < |Markers| ==> !Contains(r.pdfText, Markers[k])
    {
      var i :| 0 <= i < |rows| && Screened(rows)[i] == r;
      assert rows[i] in rows;
      ScreenRowSpec(rows[i]);
    }
  }

  // ---------------------------------------------------------------------------
  // Summary table (lines 43-47 and 62-66)

  /** The summary projection: the rows of the session table, in order, with
      filename, crop type and lime amount. */
  function Summary(rows: seq<ReportRow>): (table: seq<SummaryRow>)
    ensures |table| == |rows|
    ensures forall k :: 0 <= k < |rows| ==>
              table[k].filename == rows[k].filename && table[k].cropType == rows[k].cropType &&
              table[k].limeAmount == rows[k].limeAmount
  {
    seq(|rows|, k requires 0 <= k < |rows| => SummaryRow(rows[k].filename, rows[k].cropType, rows[k].limeAmount))
  }

  /** The summary after the screen differs from the one before only in crop
      types, and only where a marker occurs. */
  lemma SummaryAfterScreen(rows: seq<ReportRow>)
    ensures |Summary(Screened(rows))| == |Summary(rows)|
    ensures forall k :: 0 <= k < |rows| ==>
              && Summary(Screened(rows))[k].filename == Summary(rows)[k].filename
              && Summary(Screened(rows))[k].limeAmount == Summary(rows)[k].limeAmount
              && ((forall j :: 0 <= j < |Markers| ==> !Contains(rows[k].pdfText, Markers[j])) ==>
                    Summary(Screened(rows))[k] == Summary(rows)[k])
  {
    forall k | 0 <= k < |rows| {
      ScreenRowSpec(rows[k]);
    }
  }

  /** Right after an upload, the summary lists each readable file once, in
      upload order, with empty crop type and lime amount. */
  lemma SummaryOfUpload(files: seq<UploadedFile>)
    ensures |Summary(UploadedRows(files))| == multiset(Readability(files))[true]
    ensures forall r :: r in Summary(UploadedRows(files)) ==> r.cropType == "" && r.limeAmount == ""
  {
    UploadedRowsCount(files);
    var rows := UploadedRows(files);
    forall r | r in Summary(rows) ensures r.cropType == "" && r.limeAmount == "" {
      var k :| 0 <= k < |rows| && Summary(rows)[k] == r;
      assert rows[k] in rows;
    }
  }

  // ---------------------------------------------------------------------------
  // The session

  /** The session state that survives between reruns of the page: the report
      table. */
  class Session {
    var reportData: seq<ReportRow>

    /** A new session starts with an empty report table. */
    constructor ()
      ensures reportData == []
    {
      reportData := [];
    }

    /** An upload replaces the report table with the rows of the readable
        files; when no file is uploaded the table is kept. */
    method Upload(files: seq<UploadedFile>)
      modifies this
      ensures reportData == if |files| == 0 then old(reportData) else UploadedRows(files)
    {
      if |files| > 0 {
        var reportRows := BuildReportRows(files);
        reportData := reportRows;
      }
    }

    /** "Run Crop Screen": each row in turn gets the first marker found in its
        text as its crop type; the inner loop stops at the first match. */
    method RunCropScreen()
      modifies this
      ensures reportData == Screened(old(reportData))
    {
      ghost var before := reportData;
      var i := 0;
      while i < |reportData|
        invariant 0 <= i <= |reportData| == |before|
        invariant forall k :: 0 <= k < i ==> reportData[k] == ScreenRow(before[k])
        invariant forall k :: i <= k < |reportData| ==> reportData[k] == before[k]
      {
        var text := reportData[i].pdfText;
        ghost var unscreened := reportData;
        var m := 0;
        while m < |Markers|
          invariant 0 <= m <= |Markers|
          invariant forall j :: 0 <= j < m ==> !Contains(text, Markers[j])
          invariant reportData == unscreened
        {
          if Contains(text, Markers[m]) {
            reportData := reportData[i := reportData[i].(cropType := Markers[m])];
            break;
          }
          m := m + 1;
        }
        i := i + 1;
      }
    }
  }
}
