/** The results scraper's table handling (streamlit_app.py, lines 56-145): it
    finds six required columns among the table's header cells, turns every
    data row into a sample record, then visits each sample's report and fills
    in the record's crop and lime. The header and cell strings stand for the
    already-extracted text of the `th` and `td` elements; fetching a report
    through the browser is the parameter `fetch`. */
module ResultsTable {
  import opened Text
  import opened ReportText

  /** One output row of the scraper. */
  datatype SampleRecord = SampleRecord(
    account: string,
    sampleNo: string,
    labNum: string,
    date: string,
    soilPh: string,
    bufferPh: string,
    crop: string,
    lime: string)

  /** Why a scrape stops: a required column header is missing (the
      "Unexpected table format" error), or a data row has fewer cells than a
      column index needs (the `IndexError` the outer handler reports). */
  datatype ScrapeError = UnexpectedTableFormat | IndexOutOfRange

  datatype Result<T> = Ok(value: T) | Err(error: ScrapeError)

  /** The positions of the six required columns. */
  datatype Columns = Columns(name: nat, date: nat, sample: nat, lab: nat, ph: nat, buffer: nat)

  /** The data gathered from the table: one record per sample, and the lab
      numbers in the same order. */
  datatype Table = Table(data: seq<SampleRecord>, labNumbers: seq<string>)

  const RequiredHeaders := ["Name", "Date Sampled", "Sample No", "LabNum", "Soil pH", "Buffer pH"]

  // ---------------------------------------------------------------------------
  // Header lookup (lines 56-67)

  /** `i` is the first position of `x` in `xs`. */
  predicate IsFirstIndex(xs: seq<string>, x: string, i: nat) {
    i < |xs| && xs[i] == x && forall j :: 0 <= j < i ==> xs[j] != x
  }

  /** Python's `list.index`: the first position of `x`, or nothing where the
      call raises `ValueError`. */
  function IndexOf(xs: seq<string>, x: string): (r: Option<nat>)
    ensures r.None? <==> x !in xs
    ensures r.Some? ==> IsFirstIndex(xs, x, r.value)
  {
    if |xs| == 0 then None
    else if xs[0] == x then Some(0)
    else match IndexOf(xs[1..], x)
      case None => None
      case Some(i) => Some(i + 1)
  }

  /** The six `headers.index(...)` calls: the first position of each required
      header, or the error when any of them is missing. */
  function LookupColumns(headers: seq<string>): (r: Result<Columns>)
    ensures r.Ok? <==> forall h :: h in RequiredHeaders ==> h in headers
    ensures r.Err? ==> r.error == UnexpectedTableFormat
    ensures r.Ok? ==>
              && IsFirstIndex(headers, "Name", r.value.name)
              && IsFirstIndex(headers, "Date Sampled", r.value.date)
              && IsFirstIndex(headers, "Sample No", r.value.sample)
              && IsFirstIndex(headers, "LabNum", r.value.lab)
              && IsFirstIndex(headers, "Soil pH", r.value.ph)
              && IsFirstIndex(headers, "Buffer pH", r.value.buffer)
  {
    match (IndexOf(headers, "Name"), IndexOf(headers, "Date Sampled"), IndexOf(headers, "Sample No"),
           IndexOf(headers, "LabNum"), IndexOf(headers, "Soil pH"), IndexOf(headers, "Buffer pH"))
    case (Some(name), Some(date), Some(sample), Some(lab), Some(ph), Some(buffer)) =>
      Ok(Columns(name, date, sample, lab, ph, buffer))
    case _ => Err(UnexpectedTableFormat)
  }

  // ---------------------------------------------------------------------------
  // Row assembly (lines 69-94)

  /** The rows that carry cells, in table order. */
  function NonEmptyRows(rows: seq<seq<string>>): seq<seq<string>> {
    if |rows| == 0 then []
    else (if |rows[0]| == 0 then [] else [rows[0]]) + NonEmptyRows(rows[1..])
  }

  /** The rows the loop turns into records: every row after the header row
      that has at least one `td` cell. */
  function DataRows(table: seq<seq<string>>): seq<seq<string>> {
    NonEmptyRows(if |table| == 0 then [] else table[1..])
  }

  /** Every column index is a valid position in the row. */
  predicate Fits(cols: Columns, cells: seq<string>) {
    cols.name < |cells| && cols.date < |cells| && cols.sample < |cells| &&
    cols.lab < |cells| && cols.ph < |cells| && cols.buffer < |cells|
  }

  /** The record built from one data row, with crop and lime still to fill in. */
  function Project(cols: Columns, cells: seq<string>): (rec: SampleRecord)
    requires Fits(cols, cells)
  {
    SampleRecord(
      account := cells[cols.name], sampleNo := cells[cols.sample], labNum := cells[cols.lab],
      date := cells[cols.date], soilPh := cells[cols.ph], bufferPh := cells[cols.buffer],
      crop := "", lime := "")
  }

  /** Filtering distributes over concatenation, so it keeps the table order. */
  lemma {:induction false} NonEmptyRowsAppend(a: seq<seq<string>>, b: seq<seq<string>>)
    ensures NonEmptyRows(a + b) == NonEmptyRows(a) + NonEmptyRows(b)
    decreases |a|
  {
    if |a| == 0 {
      assert a + b == b;
    } else {
      assert (a + b)[1..] == a[1..] + b;
      NonEmptyRowsAppend(a[1..], b);
    }
  }

  /** The filter keeps exactly the rows with cells. */
  lemma {:induction false} NonEmptyRowsMembers(rows: seq<seq<string>>)
    ensures forall c :: c in NonEmptyRows(rows) <==> c in rows && |c| > 0
    ensures |NonEmptyRows(rows)| <= |rows|
    decreases |rows|
  {
    if |rows| > 0 {
      NonEmptyRowsMembers(rows[1..]);
      assert rows == [rows[0]] + rows[1..];
    }
  }

  /** When every row has cells, nothing is dropped. */
  lemma {:induction false} NonEmptyRowsAllKept(rows: seq<seq<string>>)
    requires forall k :: 0 <= k < |rows| ==> |rows[k]| > 0
    ensures NonEmptyRows(rows) == rows
    decreases |rows|
  {
    if |rows| > 0 {
      NonEmptyRowsAllKept(rows[1..]);
    }
  }

  /** Whether each row has cells, in table order. */
  function HasCells(rows: seq<seq<string>>): (r: seq<bool>)
    ensures |r| == |rows|
  {
    seq(|rows|, k requires 0 <= k < |rows| => |rows[k]| > 0)
  }

  /** One data row per row with cells. */
  lemma {:induction false} NonEmptyRowsCount(rows: seq<seq<string>>)
    ensures |NonEmptyRows(rows)| == multiset(HasCells(rows))[true]
    decreases |rows|
  {
    if |rows| > 0 {
      NonEmptyRowsCount(rows[1..]);
      assert HasCells(rows) == [|rows[0]| > 0] + HasCells(rows[1..]);
    }
  }

  /** The data rows are the rows after the first that have cells; the header
      row itself is never one of them. */
  lemma DataRowsMembers(table: seq<seq<string>>)
    ensures forall c :: c in DataRows(table) ==> |c| > 0
    ensures forall k :: 1 <= k < |table| && |table[k]| > 0 ==> table[k] in DataRows(table)
    ensures |DataRows(table)| <= if |table| == 0 then 0 else |table| - 1
  {
    if |table| > 0 {
      NonEmptyRowsMembers(table[1..]);
      forall k | 1 <= k < |table| && |table[k]| > 0 ensures table[k] in DataRows(table) {
        assert table[k] == table[1..][k - 1];
      }
    }
  }

  /** The records the row loop produces when every data row has all six
      columns. */
  function Records(cols: Columns, rows: seq<seq<string>>): (recs: seq<SampleRecord>)
    requires forall c :: c in rows ==> Fits(cols, c)
    ensures |recs| == |rows|
  {
    seq(|rows|, k requires 0 <= k < |rows| => Project(cols, rows[k]))
  }

  /** The row loop of lines 71-94: skips the header row and rows without
      cells, and appends one record and one lab number per remaining row. A
      row too short for a column index raises, which ends the scrape. */
  method AssembleRows(cols: Columns, table: seq<seq<string>>) returns (r: Result<Table>)
    ensures r.Ok? <==> forall c :: c in DataRows(table) ==> Fits(cols, c)
    ensures r.Err? ==> r.error == IndexOutOfRange
    ensures r.Ok? ==>
              && r.value.data == Records(cols, DataRows(table))
              && |r.value.labNumbers| == |r.value.data|
              && forall k :: 0 <= k < |r.value.data| ==> r.value.labNumbers[k] == r.value.data[k].labNum
  {
    var rest := if |table| == 0 then [] else table[1..];
    var data: seq<SampleRecord> := [];
    var labNumbers: seq<string> := [];
    for i := 0 to |rest|
      invariant forall c :: c in NonEmptyRows(rest[..i]) ==> Fits(cols, c)
      invariant data == Records(cols, NonEmptyRows(rest[..i]))
      invariant |labNumbers| == |data|
      invariant forall k :: 0 <= k < |data| ==> labNumbers[k] == data[k].labNum
    {
      assert rest[..i + 1] == rest[..i] + [rest[i]];
      NonEmptyRowsAppend(rest[..i], [rest[i]]);
      var cells := rest[i];
      if |cells| == 0 {
        continue;
      }
      if !Fits(cols, cells) {
        assert rest == rest[..i] + [rest[i]] + rest[i + 1..];
        NonEmptyRowsAppend(rest[..i] + [rest[i]], rest[i + 1..]);
        assert cells in NonEmptyRows(rest);
        return Err(IndexOutOfRange);
      }
      var rec := Project(cols, cells);
      labNumbers := labNumbers + [cells[cols.lab]];
      data := data + [rec];
    }
    assert rest[..|rest|] == rest;
    r := Ok(Table(data, labNumbers));
  }

  // ---------------------------------------------------------------------------
  // Reading each report (lines 97-145)

  /** A record after its report was read: only crop and lime are replaced. A
      report that could not be fetched (`None`) leaves the record as it was. */
  function Refreshed(rec: SampleRecord, report: Option<string>): (r: SampleRecord)
    ensures r.account == rec.account && r.sampleNo == rec.sampleNo && r.labNum == rec.labNum
    ensures r.date == rec.date && r.soilPh == rec.soilPh && r.bufferPh == rec.bufferPh
    ensures report.None? ==> r == rec
  {
    match report
    case None => rec
    case Some(text) => rec.(crop := CropType(text), lime := LimeValue(text))
  }

  /** A read report sets the crop to one of the four crop values, and the lime
      to "None" or to a numeral that occurs in the report text followed by
      optional whitespace and `lb/1000`. */
  lemma RefreshedValues(rec: SampleRecord, text: string)
    ensures Refreshed(rec, Some(text)).crop in [CoolSeason, WarmSeason, Centipede, NoCrop]
    ensures var lime := Refreshed(rec, Some(text)).lime;
            lime == "None" ||
            (IsNumeral(lime) && exists i :: OccursAt(text, lime, i) && UnitFollows(text, i + |lime|))
  {
    var lime := Refreshed(rec, Some(text)).lime;
    if lime != "None" {
      LimeIsLeftmostCapture(text);
      var i, j :| Matches(text, i, j) && lime == text[i..j];
      assert OccursAt(text, lime, i);
    }
  }

  /** The report loop: for each index, the report of that lab number is
      fetched; on success the record's crop and lime are overwritten in place,
      on failure (a warning) the record is left untouched. */
  method ProcessReports(data: array<SampleRecord>, labNumbers: seq<string>,
                        fetch: (nat, string) -> Option<string>)
    requires |labNumbers| == data.Length
    modifies data
    ensures forall k :: 0 <= k < data.Length ==>
              data[k] == Refreshed(old(data[k]), fetch(k, labNumbers[k]))
  {
    for idx := 0 to |labNumbers|
      invariant forall k :: 0 <= k < idx ==> data[k] == Refreshed(old(data[k]), fetch(k, labNumbers[k]))
      invariant forall k :: idx <= k < data.Length ==> data[k] == old(data[k])
    {
      var report := fetch(idx, labNumbers[idx]);
      match report {
        case Some(text) =>
          var cropType := CropType(text);
          var limeValue := LimeValue(text);
          data[idx] := data[idx].(crop := cropType, lime := limeValue);
        case None =>
      }
    }
  }

  /** The whole scrape over one results table: column lookup, row assembly,
      then the report loop. */
  method Scrape(headers: seq<string>, table: seq<seq<string>>, fetch: (nat, string) -> Option<string>)
    returns (r: Result<seq<SampleRecord>>)
    ensures LookupColumns(headers).Err? ==> r == Err(UnexpectedTableFormat)
    ensures LookupColumns(headers).Ok? ==>
              var cols := LookupColumns(headers).value;
              && (r.Ok? <==> forall c :: c in DataRows(table) ==> Fits(cols, c))
              && (r.Err? ==> r.error == IndexOutOfRange)
              && (r.Ok? ==>
                    var recs := Records(cols, DataRows(table));
                    |r.value| == |recs| &&
                    forall k :: 0 <= k < |recs| ==> r.value[k] == Refreshed(recs[k], fetch(k, recs[k].labNum)))
  {
    var columns := LookupColumns(headers);
    if columns.Err? {
      return Err(UnexpectedTableFormat);
    }
    var assembled := AssembleRows(columns.value, table);
    if assembled.Err? {
      return Err(assembled.error);
    }
    var recs := assembled.value.data;
    var data := new SampleRecord[|recs|](k requires 0 <= k < |recs| => recs[k]);
    ProcessReports(data, assembled.value.labNumbers, fetch);
    r := Ok(data[..]);
  }
}
